/** What the walker's report means: full paths, cell counts looked up in the parent, and
    nodes that property lookup can be asked about. */
module FdtTree {
  import opened DeviceTree
  import opened FdtScan
  import opened FdtWalk
  import opened FdtLookup

  // ---- Full paths ----

  type Name = seq<Byte>

  // A name with no slash, and not empty.
  predicate Plain(n: Name) {
    n != [] && SLASH !in n
  }

  predicate AllPlain(names: seq<Name>) {
    forall i :: 0 <= i < |names| ==> Plain(names[i])
  }

  function Join(names: seq<Name>): seq<Byte> {
    if names == [] then [] else Join(names[..|names| - 1]) + [SLASH] + names[|names| - 1]
  }

  // The full path of the node reached from the root by these names (section 2.2.3).
  function FullPath(names: seq<Name>): seq<Byte> {
    if names == [] then [SLASH] else Join(names)
  }

  lemma {:induction false} FullPathExample()
    ensures FullPath([]) == Ascii("/") && FullPath([Ascii("soc"), Ascii("uart")]) == Ascii("/soc/uart")
  {
    var a, b := Ascii("soc"), Ascii("uart");
    assert [a, b][..1] == [a] && [a][..0] == [];
    assert Join([a]) == [SLASH] + a;
    assert Ascii("/") == [SLASH];
    assert Ascii("/soc/uart") == [SLASH] + a + [SLASH] + b;
  }

  // The path buffer, extended name by name, holds the full path.
  lemma {:induction false} ChildPathIsFull(depth: nat, names: seq<Name>, n: Name)
    requires depth > 0 && AllPlain(names) && Plain(n)
    ensures ChildPath(depth, FullPath(names), n) == FullPath(names + [n])
  {
    assert (names + [n])[..|names|] == names;
    if names == [] {
      assert Join([]) + [SLASH] + n == [SLASH] + n;
    } else {
      var last := names[|names| - 1];
      assert FullPath(names)[|FullPath(names)| - 1] == last[|last| - 1];
    }
  }

  lemma {:induction false} LastSlash(a: seq<Byte>, x: Name)
    requires SLASH !in x
    ensures forall i {:trigger (a + [SLASH] + x)[i]} :: |a| < i < |a + [SLASH] + x| ==> (a + [SLASH] + x)[i] != SLASH
  {
    forall i | |a| < i < |a + [SLASH] + x|
      ensures (a + [SLASH] + x)[i] != SLASH
    {
      assert (a + [SLASH] + x)[i] == x[i - |a| - 1];
    }
  }

  // Splitting off the last name is unambiguous.
  lemma {:induction false} LastNameUnique(a: seq<Byte>, x: Name, b: seq<Byte>, y: Name)
    requires SLASH !in x && SLASH !in y && a + [SLASH] + x == b + [SLASH] + y
    ensures a == b && x == y
  {
    var s := a + [SLASH] + x;
    LastSlash(a, x);
    LastSlash(b, y);
    assert s[|a|] == SLASH && s[|b|] == SLASH;
    assert s[..|a|] == a && s[..|b|] == b;
    assert s[|a| + 1..] == x && s[|b| + 1..] == y;
  }

  lemma {:induction false} JoinInjective(a: seq<Name>, b: seq<Name>)
    requires AllPlain(a) && AllPlain(b) && Join(a) == Join(b)
    ensures a == b
    decreases |a|
  {
    if a != [] && b != [] {
      LastNameUnique(Join(a[..|a| - 1]), a[|a| - 1], Join(b[..|b| - 1]), b[|b| - 1]);
      JoinInjective(a[..|a| - 1], b[..|b| - 1]);
      assert a == a[..|a| - 1] + [a[|a| - 1]] && b == b[..|b| - 1] + [b[|b| - 1]];
    }
  }

  // Different lists of names make different paths.
  lemma {:induction false} FullPathInjective(a: seq<Name>, b: seq<Name>)
    requires AllPlain(a) && AllPlain(b) && FullPath(a) == FullPath(b)
    ensures a == b
  {
    if a != [] {
      JoinLong(a);
    }
    if b != [] {
      JoinLong(b);
    }
    JoinInjective(a, b);
  }

  lemma {:induction false} JoinLong(a: seq<Name>)
    requires AllPlain(a) && a != []
    ensures |Join(a)| > 1
  {
    assert Plain(a[|a| - 1]);
  }

  // ---- The nodes of a tree, said directly ----

  predicate PlainNames(t: Items) {
    match t
    case Done => true
    case Nop(r) => PlainNames(r)
    case Property(_, _, r) => PlainNames(r)
    case Node(n, b, r) => Plain(n) && PlainNames(b) && PlainNames(r)
  }

  // The outermost node's own name is not part of any path.
  predicate PlainBelow(t: Items) {
    match t
    case Done => true
    case Nop(r) => PlainBelow(r)
    case Property(_, _, r) => PlainBelow(r)
    case Node(n, b, r) => PlainNames(b) && PlainBelow(r)
  }

  function CellCount(v: Option<seq<Byte>>, default: nat): nat {
    if v.Some? && |v.value| == 4 then Read32(v.value, 0) else default
  }

  // The cell counts a node gives its children: its own #address-cells and #size-cells, or
  // the defaults; never inherited from further up (section 2.3.5).
  function CellsOfNode(strings: seq<Byte>, body: Items): Cells {
    Cells(CellCount(Lookup(strings, body, ADDRESS_CELLS), 2), CellCount(Lookup(strings, body, SIZE_CELLS), 1))
  }

  // Properties come before child nodes, and a node gives each cell count at most once.
  predicate Ordered(strings: seq<Byte>, t: Items) {
    match t
    case Done => true
    case Nop(r) => Ordered(strings, r)
    case Property(no, v, r) =>
      && no <= |strings|
      && (CStr(strings, no) == ADDRESS_CELLS ==> |v| == 4 && Lookup(strings, r, ADDRESS_CELLS) == None)
      && (CStr(strings, no) == SIZE_CELLS ==> |v| == 4 && Lookup(strings, r, SIZE_CELLS) == None)
      && Ordered(strings, r)
    case Node(n, b, r) => NoProperties(r) && Ordered(strings, b) && Ordered(strings, r)
  }

  predicate NoProperties(t: Items) {
    match t
    case Done => true
    case Nop(r) => NoProperties(r)
    case Property(_, _, _) => false
    case Node(_, _, r) => NoProperties(r)
  }

  // All nodes among the items of a node reached by these names, in order, each with its
  // offset, full path and its parent's cell counts. At depth 0 the items are the outermost
  // ones and their node is the root.
  function Nodes(strings: seq<Byte>, t: Items, off: nat, depth: nat, names: seq<Name>, cells: Cells): seq<Visit>
    requires Sized(t)
    decreases t
  {
    match t
    case Done => []
    case Nop(r) => Nodes(strings, r, off + 4, depth, names, cells)
    case Property(no, v, r) => Nodes(strings, r, off + PropertyLen(v), depth, names, cells)
    case Node(n, b, r) =>
      var below := Below(depth, names, n);
      var inside := off + BeginLen(n);
      [Visit(off, FullPath(below), cells)]
      + Nodes(strings, b, inside, depth + 1, below, CellsOfNode(strings, b))
      + Nodes(strings, r, inside + |Encode(b)| + 4, depth, names, cells)
  }

  // The counts the walker has when it reaches the first child, or the end.
  function CellsAt(strings: seq<Byte>, t: Items, c: Cells): Cells {
    match t
    case Done => c
    case Nop(r) => CellsAt(strings, r, c)
    case Property(no, v, r) => CellsAt(strings, r, if no <= |strings| then SetCells(strings, c, no, v) else c)
    case Node(_, _, _) => c
  }

  lemma {:induction false} NoPropertiesLookup(strings: seq<Byte>, t: Items, name: seq<Byte>)
    requires NoProperties(t)
    ensures Lookup(strings, t, name) == None
  {
    match t
    case Done =>
    case Nop(r) => NoPropertiesLookup(strings, r, name);
    case Node(_, _, r) => NoPropertiesLookup(strings, r, name);
  }

  lemma {:induction false} NoPropertiesCells(strings: seq<Byte>, t: Items, c: Cells)
    requires NoProperties(t)
    ensures CellsAt(strings, t, c) == c
  {
    match t
    case Done =>
    case Nop(r) => NoPropertiesCells(strings, r, c);
    case Node(_, _, r) =>
  }

  lemma {:induction false} CellNamesDiffer()
    ensures ADDRESS_CELLS != SIZE_CELLS
  {
    assert |ADDRESS_CELLS| == 14 && |SIZE_CELLS| == 11;
  }

  // The counts noted token by token are those looked up in the whole node.
  lemma {:induction false} CellsAtIsLookup(strings: seq<Byte>, t: Items, c: Cells)
    requires Ordered(strings, t)
    ensures CellsAt(strings, t, c) == Cells(CellCount(Lookup(strings, t, ADDRESS_CELLS), c.address),
                                            CellCount(Lookup(strings, t, SIZE_CELLS), c.size))
  {
    match t
    case Done =>
    case Nop(r) => CellsAtIsLookup(strings, r, c);
    case Property(no, v, r) =>
      CellNamesDiffer();
      CellsAtIsLookup(strings, r, SetCells(strings, c, no, v));
    case Node(_, _, r) =>
      NoPropertiesLookup(strings, r, ADDRESS_CELLS);
      NoPropertiesLookup(strings, r, SIZE_CELLS);
  }

  // The names leading to the children of a node.
  function Below(depth: nat, names: seq<Name>, n: Name): seq<Name> {
    if depth == 0 then [] else names + [n]
  }

  lemma {:induction false} BelowPath(depth: nat, names: seq<Name>, path: seq<Byte>, n: Name)
    requires AllPlain(names) && (depth > 0 ==> Plain(n) && path == FullPath(names))
    ensures AllPlain(Below(depth, names, n)) && ChildPath(depth, path, n) == FullPath(Below(depth, names, n))
  {
    if depth > 0 {
      ChildPathIsFull(depth, names, n);
    }
  }

  // The walker's preorder is the tree's: full paths, and cell counts looked up in the parent.
  lemma {:induction false} PreorderIsNodes(strings: seq<Byte>, t: Items, off: nat, depth: nat, names: seq<Name>,
                                           path: seq<Byte>, c: Cells)
    requires Reported(strings, t, depth, names, path)
    ensures Preorder(strings, t, off, depth, path, c) == Nodes(strings, t, off, depth, names, CellsAt(strings, t, c))
    decreases t, 1
  {
    match t
    case Done =>
    case Nop(r) => PreorderIsNodes(strings, r, off + 4, depth, names, path, c);
    case Property(_, _, _) => PropertyPassed(strings, t, off, depth, names, path, c);
    case Node(_, _, _) => PreorderIsNodesHere(strings, t, off, depth, names, path, c);
  }

  lemma {:induction false} PropertyPassed(strings: seq<Byte>, t: Items, off: nat, depth: nat, names: seq<Name>,
                                          path: seq<Byte>, c: Cells)
    requires t.Property? && Reported(strings, t, depth, names, path)
    ensures Preorder(strings, t, off, depth, path, c) == Nodes(strings, t, off, depth, names, CellsAt(strings, t, c))
    decreases t, 0
  {
    var cells := SetCells(strings, c, t.nameoff, t.value);
    PreorderIsNodes(strings, t.rest, off + PropertyLen(t.value), depth, names, path, cells);
  }

  lemma {:induction false} PreorderIsNodesHere(strings: seq<Byte>, t: Items, off: nat, depth: nat, names: seq<Name>,
                                               path: seq<Byte>, c: Cells)
    requires t.Node? && Reported(strings, t, depth, names, path)
    ensures Preorder(strings, t, off, depth, path, c) == Nodes(strings, t, off, depth, names, c)
    decreases t, 0, 1
  {
    PreorderParts(strings, t, off, depth, path, c);
    NodesParts(strings, t, off, depth, names, c);
    BelowPath(depth, names, path, t.name);
    InnerSame(strings, t, off, depth, names, path);
    AfterSame(strings, t, off, depth, names, path, c);
  }

  // Items at which the walker stands with the path of the node these names lead to.
  ghost predicate Reported(strings: seq<Byte>, t: Items, depth: nat, names: seq<Name>, path: seq<Byte>) {
    && Sized(t) && Ordered(strings, t) && AllPlain(names)
    && if depth == 0 then PlainBelow(t) else PlainNames(t) && path == FullPath(names)
  }

  // The visits inside a node and those after it.
  function Inner(strings: seq<Byte>, t: Items, off: nat, depth: nat, path: seq<Byte>): seq<Visit>
    requires t.Node? && Sized(t)
  {
    Preorder(strings, t.body, off + BeginLen(t.name), depth + 1, ChildPath(depth, path, t.name), DEFAULT_CELLS)
  }

  function After(strings: seq<Byte>, t: Items, off: nat, depth: nat, path: seq<Byte>, c: Cells): seq<Visit>
    requires t.Node? && Sized(t)
  {
    Preorder(strings, t.rest, off + BeginLen(t.name) + |Encode(t.body)| + 4, depth, path, c)
  }

  lemma {:induction false} PreorderParts(strings: seq<Byte>, t: Items, off: nat, depth: nat, path: seq<Byte>, c: Cells)
    requires t.Node? && Sized(t)
    ensures Preorder(strings, t, off, depth, path, c) ==
            [Visit(off, ChildPath(depth, path, t.name), c)] + Inner(strings, t, off, depth, path) + After(strings, t, off, depth, path, c)
  {
  }

  // The nodes inside a node and those after it.
  function InnerNodes(strings: seq<Byte>, t: Items, off: nat, depth: nat, names: seq<Name>): seq<Visit>
    requires t.Node? && Sized(t)
  {
    Nodes(strings, t.body, off + BeginLen(t.name), depth + 1, Below(depth, names, t.name), CellsOfNode(strings, t.body))
  }

  function AfterNodes(strings: seq<Byte>, t: Items, off: nat, depth: nat, names: seq<Name>, c: Cells): seq<Visit>
    requires t.Node? && Sized(t)
  {
    Nodes(strings, t.rest, off + BeginLen(t.name) + |Encode(t.body)| + 4, depth, names, c)
  }

  lemma {:induction false} NodesParts(strings: seq<Byte>, t: Items, off: nat, depth: nat, names: seq<Name>, c: Cells)
    requires t.Node? && Sized(t)
    ensures Nodes(strings, t, off, depth, names, c) ==
            [Visit(off, FullPath(Below(depth, names, t.name)), c)] + InnerNodes(strings, t, off, depth, names)
            + AfterNodes(strings, t, off, depth, names, c)
  {
  }

  lemma {:induction false} InnerSame(strings: seq<Byte>, t: Items, off: nat, depth: nat, names: seq<Name>, path: seq<Byte>)
    requires t.Node? && Reported(strings, t, depth, names, path)
    ensures Inner(strings, t, off, depth, path) == InnerNodes(strings, t, off, depth, names)
    decreases t, 0, 0
  {
    var below := Below(depth, names, t.name);
    BelowPath(depth, names, path, t.name);
    PreorderIsNodes(strings, t.body, off + BeginLen(t.name), depth + 1, below, FullPath(below), DEFAULT_CELLS);
    CellsAtIsLookup(strings, t.body, DEFAULT_CELLS);
  }

  lemma {:induction false} AfterSame(strings: seq<Byte>, t: Items, off: nat, depth: nat, names: seq<Name>, path: seq<Byte>, c: Cells)
    requires t.Node? && Reported(strings, t, depth, names, path)
    ensures After(strings, t, off, depth, path, c) == AfterNodes(strings, t, off, depth, names, c)
    decreases t, 0, 0
  {
    PreorderIsNodes(strings, t.rest, off + BeginLen(t.name) + |Encode(t.body)| + 4, depth, names, path, c);
    NoPropertiesCells(strings, t.rest, c);
  }

  // On a well-formed devicetree the walker reports every node, in order, with its full path
  // and the cell counts its parent's properties give.
  lemma {:induction false} WalkReportsNodes(f: Blocks, t: Items)
    requires Holds(f, t) && Ordered(f.strings, t) && PlainBelow(t) && NoProperties(t)
    ensures WalkAll(f, START) == Nodes(f.strings, t, 0, 0, [], DEFAULT_CELLS)
  {
    WalkerRefinesTree(f, t);
    PreorderIsNodes(f.strings, t, 0, 0, [], [], DEFAULT_CELLS);
    NoPropertiesCells(f.strings, t, DEFAULT_CELLS);
  }
}
