/** Lookup by path and lookup of the properties of a found node. */
module FdtPaths {
  import opened DeviceTree
  import opened FdtScan
  import opened FdtWalk
  import opened FdtLookup
  import opened FdtTree

  // fdt_find_node_by_path: the first reported node with that path.
  function FirstWithPath(visits: seq<Visit>, path: seq<Byte>): Option<Visit> {
    if visits == [] then None
    else if visits[0].path == path then Some(visits[0])
    else FirstWithPath(visits[1..], path)
  }

  // Node k has the path and none before it.
  ghost predicate IsFirst(visits: seq<Visit>, path: seq<Byte>, k: nat) {
    k < |visits| && visits[k].path == path && forall j :: 0 <= j < k ==> visits[j].path != path
  }

  // Whatever is reported, it is none exactly when no node has the path, and otherwise the
  // first one that has.
  lemma {:induction false} FirstWithPathIsFirst(visits: seq<Visit>, path: seq<Byte>)
    ensures var r := FirstWithPath(visits, path);
            && (r == None <==> forall k :: 0 <= k < |visits| ==> visits[k].path != path)
            && (forall v :: r == Some(v) <==> exists k: nat :: IsFirst(visits, path, k) && visits[k] == v)
  {
    var n := FirstWithPathAt(visits, path);
    if n < |visits| {
      assert IsFirst(visits, path, n);
    }
  }

  lemma {:induction false} FirstWithPathAt(visits: seq<Visit>, path: seq<Byte>) returns (n: nat)
    ensures n <= |visits| && forall j :: 0 <= j < n ==> visits[j].path != path
    ensures if n < |visits| then visits[n].path == path && FirstWithPath(visits, path) == Some(visits[n])
            else FirstWithPath(visits, path) == None
  {
    n := 0;
    if visits != [] && visits[0].path != path {
      var k := FirstWithPathAt(visits[1..], path);
      n := k + 1;
      forall j | 0 < j < n
        ensures visits[j].path != path
      {
        assert visits[j] == visits[1..][j - 1];
      }
    }
  }

  // ---- With distinct sibling names, paths are distinct ----

  function SiblingNames(t: Items): set<Name> {
    match t
    case Done => {}
    case Nop(r) => SiblingNames(r)
    case Property(_, _, r) => SiblingNames(r)
    case Node(n, _, r) => {n} + SiblingNames(r)
  }

  predicate UniqueSiblings(t: Items) {
    match t
    case Done => true
    case Nop(r) => UniqueSiblings(r)
    case Property(_, _, r) => UniqueSiblings(r)
    case Node(n, b, r) => n !in SiblingNames(r) && UniqueSiblings(b) && UniqueSiblings(r)
  }

  // One outermost node, whose descendants have distinct sibling names.
  predicate OneRoot(t: Items) {
    match t
    case Done => true
    case Nop(r) => OneRoot(r)
    case Property(_, _, r) => OneRoot(r)
    case Node(_, b, r) => UniqueSiblings(b) && SiblingNames(r) == {}
  }

  // The path goes through one of these children of the node reached by names.
  ghost predicate Through(path: seq<Byte>, names: seq<Name>, children: set<Name>) {
    exists rest: seq<Name> :: Leads(path, names, children, rest)
  }

  ghost predicate Leads(path: seq<Byte>, names: seq<Name>, children: set<Name>, rest: seq<Name>) {
    rest != [] && rest[0] in children && AllPlain(rest) && path == FullPath(names + rest)
  }

  ghost predicate DistinctPaths(visits: seq<Visit>) {
    forall i, j :: 0 <= i < j < |visits| ==> visits[i].path != visits[j].path
  }

  ghost predicate AllThrough(visits: seq<Visit>, names: seq<Name>, children: set<Name>) {
    forall i :: 0 <= i < |visits| ==> Through(visits[i].path, names, children)
  }

  lemma {:induction false} ThroughMore(path: seq<Byte>, names: seq<Name>, a: set<Name>, b: set<Name>)
    requires Through(path, names, a) && a <= b
    ensures Through(path, names, b)
  {
    var rest :| Leads(path, names, a, rest);
    assert Leads(path, names, b, rest);
  }

  lemma {:induction false} ThroughChild(path: seq<Byte>, names: seq<Name>, n: Name, children: set<Name>)
    requires Plain(n) && Through(path, names + [n], children)
    ensures Through(path, names, {n})
  {
    var rest :| Leads(path, names + [n], children, rest);
    assert names + [n] + rest == names + ([n] + rest);
    assert Leads(path, names, {n}, [n] + rest);
  }

  // Paths through different children differ.
  lemma {:induction false} ThroughDiffer(p: seq<Byte>, q: seq<Byte>, names: seq<Name>, a: set<Name>, b: set<Name>)
    requires AllPlain(names) && Through(p, names, a) && Through(q, names, b) && a !! b
    ensures p != q
  {
    var x :| Leads(p, names, a, x);
    var y :| Leads(q, names, b, y);
    assert (names + x)[|names|] == x[0] && (names + y)[|names|] == y[0];
    if p == q {
      FullPathInjective(names + x, names + y);
    }
  }

  // A node's own path is not the path of a descendant.
  lemma {:induction false} OwnPathDiffers(names: seq<Name>, q: seq<Byte>, children: set<Name>)
    requires AllPlain(names) && Through(q, names, children)
    ensures FullPath(names) != q
  {
    var y :| Leads(q, names, children, y);
    if FullPath(names) == q {
      FullPathInjective(names, names + y);
    }
  }

  lemma {:induction false} NodesThrough(strings: seq<Byte>, t: Items, off: nat, depth: nat, names: seq<Name>, cells: Cells)
    requires Sized(t) && PlainNames(t) && AllPlain(names) && depth > 0
    ensures AllThrough(Nodes(strings, t, off, depth, names, cells), names, SiblingNames(t))
    decreases t
  {
    match t
    case Done =>
    case Nop(r) => NodesThrough(strings, r, off + 4, depth, names, cells);
    case Property(_, v, r) => NodesThrough(strings, r, off + PropertyLen(v), depth, names, cells);
    case Node(n, b, r) =>
      var inside := off + BeginLen(n);
      var inner := Nodes(strings, b, inside, depth + 1, names + [n], CellsOfNode(strings, b));
      var later := Nodes(strings, r, inside + |Encode(b)| + 4, depth, names, cells);
      NodesThrough(strings, b, inside, depth + 1, names + [n], CellsOfNode(strings, b));
      NodesThrough(strings, r, inside + |Encode(b)| + 4, depth, names, cells);
      var all := [Visit(off, FullPath(names + [n]), cells)] + inner + later;
      assert all == Nodes(strings, t, off, depth, names, cells);
      GlueThrough(Visit(off, FullPath(names + [n]), cells), inner, later, names, n, SiblingNames(b), SiblingNames(r));
  }

  lemma {:induction false} GlueThrough(v: Visit, inner: seq<Visit>, later: seq<Visit>, names: seq<Name>, n: Name, kids: set<Name>, others: set<Name>)
    requires Plain(n) && v.path == FullPath(names + [n])
    requires AllThrough(inner, names + [n], kids) && AllThrough(later, names, others)
    ensures AllThrough([v] + inner + later, names, {n} + others)
  {
    var all := [v] + inner + later;
    forall i | 0 <= i < |all|
      ensures Through(all[i].path, names, {n} + others)
    {
      if i == 0 {
        assert Leads(v.path, names, {n} + others, [n]);
      } else if i <= |inner| {
        assert all[i] == inner[i - 1];
        ThroughChild(all[i].path, names, n, kids);
        ThroughMore(all[i].path, names, {n}, {n} + others);
      } else {
        assert all[i] == later[i - 1 - |inner|];
        ThroughMore(all[i].path, names, others, {n} + others);
      }
    }
  }

  lemma {:induction false} GlueDistinct(v: Visit, inner: seq<Visit>, later: seq<Visit>, names: seq<Name>, n: Name, kids: set<Name>, others: set<Name>)
    requires Plain(n) && AllPlain(names) && v.path == FullPath(names + [n]) && n !in others
    requires AllThrough(inner, names + [n], kids) && AllThrough(later, names, others)
    requires DistinctPaths(inner) && DistinctPaths(later)
    ensures DistinctPaths([v] + inner + later)
  {
    var own := [v] + inner;
    assert AllPlain(names + [n]);
    forall j | 0 <= j < |inner|
      ensures v.path != inner[j].path
    {
      OwnPathDiffers(names + [n], inner[j].path, kids);
    }
    assert DistinctPaths(own);
    GlueThrough(v, inner, [], names, n, kids, {});
    assert own + [] == own;
    forall i, j | 0 <= i < |own| && 0 <= j < |later|
      ensures own[i].path != later[j].path
    {
      assert Through(own[i].path, names, {n} + {});
      ThroughDiffer(own[i].path, later[j].path, names, {n} + {}, others);
    }
    ConcatDistinct(own, later);
  }

  lemma {:induction false} ConcatDistinct(a: seq<Visit>, b: seq<Visit>)
    requires DistinctPaths(a) && DistinctPaths(b)
    requires forall i, j :: 0 <= i < |a| && 0 <= j < |b| ==> a[i].path != b[j].path
    ensures DistinctPaths(a + b)
  {
    forall i, j | 0 <= i < j < |a + b|
      ensures (a + b)[i].path != (a + b)[j].path
    {
      if i < |a| <= j {
        assert a[i].path != b[j - |a|].path;
      }
    }
  }

  lemma {:induction false} NodesDistinct(strings: seq<Byte>, t: Items, off: nat, depth: nat, names: seq<Name>, cells: Cells)
    requires Sized(t) && PlainNames(t) && AllPlain(names) && depth > 0 && UniqueSiblings(t)
    ensures DistinctPaths(Nodes(strings, t, off, depth, names, cells))
    decreases t, 1
  {
    match t
    case Done =>
    case Nop(r) => NodesDistinct(strings, r, off + 4, depth, names, cells);
    case Property(_, v, r) => NodesDistinct(strings, r, off + PropertyLen(v), depth, names, cells);
    case Node(_, _, _) => NodesDistinctHere(strings, t, off, depth, names, cells);
  }

  lemma {:induction false} NodesDistinctHere(strings: seq<Byte>, t: Items, off: nat, depth: nat, names: seq<Name>, cells: Cells)
    requires t.Node? && Sized(t) && PlainNames(t) && AllPlain(names) && depth > 0 && UniqueSiblings(t)
    ensures DistinctPaths(Nodes(strings, t, off, depth, names, cells))
    decreases t, 0
  {
    var n, b := t.name, t.body;
    var inside := off + BeginLen(n);
    var next := inside + |Encode(b)| + 4;
    NodesDistinct(strings, b, inside, depth + 1, names + [n], CellsOfNode(strings, b));
    NodesDistinct(strings, t.rest, next, depth, names, cells);
    var inner := Nodes(strings, b, inside, depth + 1, names + [n], CellsOfNode(strings, b));
    var later := Nodes(strings, t.rest, next, depth, names, cells);
    PartsDistinct(strings, t, off, depth, names, cells, inside, next, inner, later);
    NodesOfNode(strings, t, off, depth, names, cells, inside, next, inner, later);
  }

  lemma {:induction false} PartsDistinct(strings: seq<Byte>, t: Items, off: nat, depth: nat, names: seq<Name>, cells: Cells,
                                         inside: nat, next: nat, inner: seq<Visit>, later: seq<Visit>)
    requires t.Node? && Sized(t) && PlainNames(t) && AllPlain(names) && depth > 0 && UniqueSiblings(t)
    requires inner == Nodes(strings, t.body, inside, depth + 1, names + [t.name], CellsOfNode(strings, t.body))
    requires later == Nodes(strings, t.rest, next, depth, names, cells)
    requires DistinctPaths(inner) && DistinctPaths(later)
    ensures DistinctPaths([Visit(off, FullPath(names + [t.name]), cells)] + inner + later)
  {
    var n := t.name;
    NodesThrough(strings, t.body, inside, depth + 1, names + [n], CellsOfNode(strings, t.body));
    NodesThrough(strings, t.rest, next, depth, names, cells);
    GlueDistinct(Visit(off, FullPath(names + [n]), cells), inner, later, names, n, SiblingNames(t.body), SiblingNames(t.rest));
  }

  lemma {:induction false} NodesOfNode(strings: seq<Byte>, t: Items, off: nat, depth: nat, names: seq<Name>, cells: Cells,
                                       inside: nat, next: nat, inner: seq<Visit>, later: seq<Visit>)
    requires t.Node? && Sized(t) && depth > 0 && inside == off + BeginLen(t.name) && next == inside + |Encode(t.body)| + 4
    requires inner == Nodes(strings, t.body, inside, depth + 1, names + [t.name], CellsOfNode(strings, t.body))
    requires later == Nodes(strings, t.rest, next, depth, names, cells)
    ensures Nodes(strings, t, off, depth, names, cells) == [Visit(off, FullPath(names + [t.name]), cells)] + inner + later
  {
  }

  lemma {:induction false} NoNodes(strings: seq<Byte>, t: Items, off: nat, depth: nat, names: seq<Name>, cells: Cells)
    requires Sized(t) && SiblingNames(t) == {}
    ensures Nodes(strings, t, off, depth, names, cells) == []
    decreases t
  {
    match t
    case Done =>
    case Nop(r) => NoNodes(strings, r, off + 4, depth, names, cells);
    case Property(_, v, r) => NoNodes(strings, r, off + PropertyLen(v), depth, names, cells);
  }

  lemma {:induction false} RootDistinct(strings: seq<Byte>, t: Items, off: nat, cells: Cells)
    requires Sized(t) && PlainBelow(t) && OneRoot(t)
    ensures DistinctPaths(Nodes(strings, t, off, 0, [], cells))
    decreases t
  {
    match t
    case Done =>
    case Nop(r) => RootDistinct(strings, r, off + 4, cells);
    case Property(_, v, r) => RootDistinct(strings, r, off + PropertyLen(v), cells);
    case Node(n, b, r) =>
      var inside := off + BeginLen(n);
      var inner := Nodes(strings, b, inside, 1, [], CellsOfNode(strings, b));
      NodesDistinct(strings, b, inside, 1, [], CellsOfNode(strings, b));
      NodesThrough(strings, b, inside, 1, [], CellsOfNode(strings, b));
      NoNodes(strings, r, inside + |Encode(b)| + 4, 0, [], cells);
      forall j | 0 <= j < |inner|
        ensures FullPath([]) != inner[j].path
      {
        OwnPathDiffers([], inner[j].path, SiblingNames(b));
      }
      assert Nodes(strings, t, off, 0, [], cells) == [Visit(off, FullPath([]), cells)] + inner;
  }

  lemma {:induction false} FirstIsOnly(visits: seq<Visit>, path: seq<Byte>, v: Visit)
    requires DistinctPaths(visits)
    ensures FirstWithPath(visits, path) == Some(v) <==> v in visits && v.path == path
  {
    if visits != [] {
      FirstIsOnly(visits[1..], path, v);
      if v in visits && v != visits[0] {
        assert v in visits[1..];
        var j :| 0 <= j < |visits| && visits[j] == v;
        assert visits[0].path != visits[j].path;
      }
      if visits[0].path == path && v in visits[1..] {
        var j :| 0 <= j < |visits[1..]| && visits[1..][j] == v;
        assert visits[j + 1] == v;
      }
    }
  }

  // On a well-formed devicetree with distinct sibling names, lookup by path finds a node
  // exactly when the tree has one with that full path, and it is the only one.
  lemma {:induction false} FindByPathIsUnique(f: Blocks, t: Items, path: seq<Byte>, v: Visit)
    requires Holds(f, t) && Ordered(f.strings, t) && PlainBelow(t) && NoProperties(t) && OneRoot(t)
    ensures FirstWithPath(WalkAll(f, START), path) == Some(v) <==>
            v in Nodes(f.strings, t, 0, 0, [], DEFAULT_CELLS) && v.path == path
    ensures DistinctPaths(WalkAll(f, START))
  {
    WalkReportsNodes(f, t);
    RootDistinct(f.strings, t, 0, DEFAULT_CELLS);
    FirstIsOnly(WalkAll(f, START), path, v);
  }

  // ---- Properties of the nodes the walker reports ----

  datatype Site = Site(offset: nat, name: seq<Byte>, body: Items)

  // Every node among the items, in preorder, with where it is flattened.
  function Sites(t: Items, off: nat): seq<Site>
    requires Sized(t)
    decreases t
  {
    match t
    case Done => []
    case Nop(r) => Sites(r, off + 4)
    case Property(_, v, r) => Sites(r, off + PropertyLen(v))
    case Node(n, b, r) =>
      var inside := off + BeginLen(n);
      [Site(off, n, b)] + Sites(b, inside) + Sites(r, inside + |Encode(b)| + 4)
  }

  ghost predicate SameOffsets(visits: seq<Visit>, sites: seq<Site>) {
    |visits| == |sites| && forall i :: 0 <= i < |visits| ==> visits[i].offset == sites[i].offset
  }

  lemma {:induction false} SitesOfPreorder(strings: seq<Byte>, t: Items, off: nat, depth: nat, path: seq<Byte>, c: Cells)
    requires Sized(t)
    ensures SameOffsets(Preorder(strings, t, off, depth, path, c), Sites(t, off))
    decreases t
  {
    match t
    case Done =>
    case Nop(r) => SitesOfPreorder(strings, r, off + 4, depth, path, c);
    case Property(no, v, r) =>
      SitesOfPreorder(strings, r, off + PropertyLen(v), depth, path, if no <= |strings| then SetCells(strings, c, no, v) else c);
    case Node(n, b, r) =>
      var p, inside := ChildPath(depth, path, n), off + BeginLen(n);
      SitesOfPreorder(strings, b, inside, depth + 1, p, DEFAULT_CELLS);
      SitesOfPreorder(strings, r, inside + |Encode(b)| + 4, depth, path, c);
      GlueOffsets(Visit(off, p, c), Preorder(strings, b, inside, depth + 1, p, DEFAULT_CELLS),
                  Preorder(strings, r, inside + |Encode(b)| + 4, depth, path, c),
                  Site(off, n, b), Sites(b, inside), Sites(r, inside + |Encode(b)| + 4));
  }

  lemma {:induction false} GlueOffsets(v: Visit, inner: seq<Visit>, later: seq<Visit>, s: Site, x: seq<Site>, y: seq<Site>)
    requires v.offset == s.offset && SameOffsets(inner, x) && SameOffsets(later, y)
    ensures SameOffsets([v] + inner + later, [s] + x + y)
  {
  }

  // The node of a site stands at its offset and can be asked for its properties.
  ghost predicate Askable(f: Blocks, s: Site) {
    && 0 !in s.name && Clean(f.strings, s.body) && Sized(s.body)
    && NodeAt(f, s.offset, s.name, s.body)
  }

  ghost predicate AllAskable(f: Blocks, sites: seq<Site>) {
    forall i :: 0 <= i < |sites| ==> Askable(f, sites[i])
  }

  lemma {:induction false} SitesStand(f: Blocks, t: Items, off: nat, rest: seq<Byte>)
    requires Clean(f.strings, t) && Sized(t) && off % 4 == 0 && At(f.structure, off, Encode(t) + rest)
    ensures AllAskable(f, Sites(t, off))
    decreases t, 1
  {
    match t
    case Done =>
    case Nop(r) =>
      Assoc(Be32(NOP), Encode(r), rest);
      AtToken(f.structure, off, NOP, Encode(r) + rest);
      SitesStand(f, r, off + 4, rest);
    case Property(no, v, r) =>
      PropertyStands(f, t, off, rest);
      SitesStand(f, r, off + PropertyLen(v), rest);
    case Node(n, b, r) => SitesStandHere(f, t, off, rest);
  }

  lemma {:induction false} SitesStandHere(f: Blocks, t: Items, off: nat, rest: seq<Byte>)
    requires t.Node? && Clean(f.strings, t) && Sized(t) && off % 4 == 0 && At(f.structure, off, Encode(t) + rest)
    ensures AllAskable(f, Sites(t, off))
    decreases t, 0
  {
    var inside := off + BeginLen(t.name);
    var next := inside + |Encode(t.body)| + 4;
    NodeStands(f, t, off, rest);
    SitesAligned(off, t.name, t.body);
    SitesStand(f, t.body, inside, Be32(END_NODE) + (Encode(t.rest) + rest));
    SitesStand(f, t.rest, next, rest);
    NodeSites(f, t, off, inside, next);
  }

  lemma {:induction false} NodeSites(f: Blocks, t: Items, off: nat, inside: nat, next: nat)
    requires t.Node? && Sized(t) && Askable(f, Site(off, t.name, t.body))
    requires inside == off + BeginLen(t.name) && next == inside + |Encode(t.body)| + 4
    requires AllAskable(f, Sites(t.body, inside)) && AllAskable(f, Sites(t.rest, next))
    ensures AllAskable(f, Sites(t, off))
  {
    GlueAskable(f, Site(off, t.name, t.body), Sites(t.body, inside), Sites(t.rest, next));
  }

  lemma {:induction false} GlueAskable(f: Blocks, s: Site, x: seq<Site>, y: seq<Site>)
    requires Askable(f, s) && AllAskable(f, x) && AllAskable(f, y)
    ensures AllAskable(f, [s] + x + y)
  {
  }

  lemma {:induction false} PropertyStands(f: Blocks, t: Items, off: nat, rest: seq<Byte>)
    requires t.Property? && Clean(f.strings, t) && Sized(t) && off % 4 == 0 && At(f.structure, off, Encode(t) + rest)
    ensures var next := off + PropertyLen(t.value); next % 4 == 0 && At(f.structure, next, Encode(t.rest) + rest)
  {
    Assoc(EncodeProperty(t.nameoff, t.value), Encode(t.rest), rest);
    AtProperty(f.structure, off, t.nameoff, t.value, Encode(t.rest) + rest);
    Multiples(off, PropertyLen(t.value));
  }

  lemma {:induction false} NodeStands(f: Blocks, t: Items, off: nat, rest: seq<Byte>)
    requires t.Node? && Clean(f.strings, t) && Sized(t) && off % 4 == 0 && At(f.structure, off, Encode(t) + rest)
    ensures Askable(f, Site(off, t.name, t.body))
    ensures var inside := off + BeginLen(t.name);
            && At(f.structure, inside, Encode(t.body) + (Be32(END_NODE) + (Encode(t.rest) + rest)))
            && At(f.structure, inside + |Encode(t.body)| + 4, Encode(t.rest) + rest)
  {
    var x, y, z, r := EncodeBegin(t.name), Encode(t.body), Be32(END_NODE), Encode(t.rest) + rest;
    assert Encode(t) == x + y + z + Encode(t.rest);
    NodeBytes(x, y, z, Encode(t.rest), rest);
    PiecesStand(f.structure, off, x, y, z, r);
  }

  lemma {:induction false} PiecesStand(s: seq<Byte>, off: nat, x: seq<Byte>, y: seq<Byte>, z: seq<Byte>, r: seq<Byte>)
    requires At(s, off, (x + (y + z)) + r)
    ensures At(s, off, x + (y + z)) && At(s, off + |x|, y + (z + r)) && At(s, off + |x| + |y| + |z|, r)
  {
    AtSplit(s, off, x + (y + z), r);
    Assoc(x, y + z, r);
    Assoc(y, z, r);
    AtSplit(s, off, x, y + (z + r));
  }

  lemma {:induction false} SitesAligned(off: nat, name: seq<Byte>, body: Items)
    requires off % 4 == 0 && Sized(body)
    ensures (off + BeginLen(name)) % 4 == 0 && (off + BeginLen(name) + |Encode(body)| + 4) % 4 == 0
  {
    EncodeAligned(body);
    Multiples(off, BeginLen(name));
    Multiples(off + BeginLen(name), |Encode(body)|);
    Multiples(off + BeginLen(name) + |Encode(body)|, 4);
  }

  lemma {:induction false} NodeBytes(x: seq<Byte>, y: seq<Byte>, z: seq<Byte>, w: seq<Byte>, rest: seq<Byte>)
    ensures (x + y + z + w) + rest == (x + (y + z)) + (w + rest)
    ensures (x + (y + z)) + (w + rest) == x + (y + (z + (w + rest)))
  {
  }

  // Any node the walker reports can be asked for its properties: lookup at its offset gives
  // the first property of that name among the node's own, and nothing when it has none.
  lemma {:induction false} ReportedNodeLookup(f: Blocks, t: Items, i: nat, name: seq<Byte>)
    requires Holds(f, t) && i < |WalkAll(f, START)|
    ensures SameOffsets(WalkAll(f, START), Sites(t, 0))
    ensures Agrees(f, GetProperty(f, WalkAll(f, START)[i].offset, name), Lookup(f.strings, Sites(t, 0)[i].body, name))
  {
    WalkerRefinesTree(f, t);
    SitesOfPreorder(f.strings, t, 0, 0, [], DEFAULT_CELLS);
    FitsClean(f.strings, t, 0, [], MAX_DEPTH, MAX_PATH);
    assert f.structure[0..] == f.structure;
    SitesStand(f, t, 0, Be32(END));
    var s := Sites(t, 0)[i];
    assert Askable(f, s);
    LookupAgrees(f, s.offset, s.name, s.body, name);
  }
}
