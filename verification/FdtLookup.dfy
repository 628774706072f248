/** Property lookup: the depth-counting scan of fdt_get_property against the tree. */
module FdtLookup {
  import opened DeviceTree
  import opened FdtScan
  import opened FdtWalk

  datatype Option<T> = None | Some(value: T)

  // Where a property's value lies in the structure block.
  datatype Extent = Extent(start: nat, len: nat)

  ghost predicate Aligned4(f: Blocks, c: nat) {
    |f.structure| % 4 == 0 && c % 4 == 0 && c <= |f.structure|
  }

  // The token loop of fdt_get_property.
  function Scan(f: Blocks, c: nat, depth: nat, name: seq<Byte>): (r: Option<Extent>)
    requires Aligned4(f, c)
    ensures r.Some? ==> r.value.start + r.value.len <= |f.structure|
    decreases |f.structure| - c
  {
    if c >= |f.structure| then None
    else
      var token := Read32(f.structure, c);
      if token == BEGIN_NODE then
        if !Terminated(f.structure, c + 4) then None
        else Scan(f, NameEnd(f, c + 4), depth + 1, name)
      else if token == END_NODE then
        if depth == 0 then None else Scan(f, c + 4, depth - 1, name)
      else if token == PROP then ScanProperty(f, c, depth, name)
      else if token == NOP then Scan(f, c + 4, depth, name)
      else None
  }

  function ScanProperty(f: Blocks, c: nat, depth: nat, name: seq<Byte>): (r: Option<Extent>)
    requires Aligned4(f, c) && c < |f.structure|
    ensures r.Some? ==> r.value.start + r.value.len <= |f.structure|
    decreases |f.structure| - c, 0
  {
    if |f.structure| - (c + 4) < 8 then None
    else
      var len, nameoff := Read32(f.structure, c + 4), Read32(f.structure, c + 8);
      if |f.structure| - (c + 12) < len || !Terminated(f.strings, nameoff) then None
      else if depth == 0 && CStr(f.strings, nameoff) == name then Some(Extent(c + 12, len))
      else Scan(f, ValueEnd(f, c + 12, len), depth, name)
  }

  // A scan that gives an answer passes only whole tokens, and never leaves the node.
  lemma {:induction false} AnswersBehindTokens(f: Blocks, c: nat, depth: nat, name: seq<Byte>)
    requires Aligned4(f, c) && Scan(f, c, depth, name).Some?
    ensures c + 4 <= |f.structure|
    ensures var token := Read32(f.structure, c);
            && 1 <= token <= 4
            && (token == 1 ==> !NoEnd(f.structure, c + 4))
            && (token == 2 ==> depth > 0)
            && (token == 3 ==> InOrder(f, c + 4))
  {
    EndOrNone(f.structure, c + 4);
  }

  function NameEnd(f: Blocks, c: nat): (r: nat)
    requires |f.structure| % 4 == 0 && Terminated(f.structure, c)
    ensures Aligned4(f, r) && r > c
  {
    AlignInside(c + StrLen(f.structure, c) + 1, |f.structure|);
    Align4(c + StrLen(f.structure, c) + 1)
  }

  function ValueEnd(f: Blocks, c: nat, len: nat): (r: nat)
    requires |f.structure| % 4 == 0 && c + len <= |f.structure|
    ensures Aligned4(f, r) && r >= c
  {
    AlignInside(c + len, |f.structure|);
    Align4(c + len)
  }

  // fdt_node_payload
  function Payload(f: Blocks, off: nat): (r: Option<nat>)
    requires |f.structure| % 4 == 0
    ensures r.Some? ==> Aligned4(f, r.value)
  {
    if off + 4 > |f.structure| || Read32(f.structure, off) != BEGIN_NODE then None
    else if !Terminated(f.structure, off + 4) then None
    else Some(NameEnd(f, off + 4))
  }

  // fdt_get_property
  function GetProperty(f: Blocks, off: nat, name: seq<Byte>): (r: Option<Extent>)
    requires |f.structure| % 4 == 0
    ensures r.Some? ==> r.value.start + r.value.len <= |f.structure|
  {
    match Payload(f, off)
    case None => None
    case Some(c) => Scan(f, c, 0, name)
  }

  // ---- The tree's answer ----

  // The value of the first property of that name among a node's own items.
  function Lookup(strings: seq<Byte>, t: Items, name: seq<Byte>): Option<seq<Byte>> {
    match t
    case Done => None
    case Nop(r) => Lookup(strings, r, name)
    case Property(no, v, r) =>
      if no <= |strings| && CStr(strings, no) == name then Some(v) else Lookup(strings, r, name)
    case Node(n, b, r) => Lookup(strings, r, name)
  }

  // A node's own properties in order, wherever its child nodes stand.
  datatype OwnProperty = OwnProperty(nameoff: nat, value: seq<Byte>)

  function OwnProperties(t: Items): seq<OwnProperty> {
    match t
    case Done => []
    case Nop(r) => OwnProperties(r)
    case Property(no, v, r) => [OwnProperty(no, v)] + OwnProperties(r)
    case Node(_, _, r) => OwnProperties(r)
  }

  predicate IsNamed(strings: seq<Byte>, p: OwnProperty, name: seq<Byte>) {
    p.nameoff <= |strings| && CStr(strings, p.nameoff) == name
  }

  // The property with the name, and none before it.
  ghost predicate FirstNamed(strings: seq<Byte>, ps: seq<OwnProperty>, name: seq<Byte>, k: nat) {
    k < |ps| && IsNamed(strings, ps[k], name) && forall j :: 0 <= j < k ==> !IsNamed(strings, ps[j], name)
  }

  // Lookup gives none exactly when no own property has the name, and otherwise the first.
  lemma {:induction false} LookupIsFirst(strings: seq<Byte>, t: Items, name: seq<Byte>)
    ensures var ps := OwnProperties(t);
            && (Lookup(strings, t, name) == None <==> forall k :: 0 <= k < |ps| ==> !IsNamed(strings, ps[k], name))
            && (forall v :: Lookup(strings, t, name) == Some(v) <==> exists k: nat :: FirstNamed(strings, ps, name, k) && ps[k].value == v)
  {
    var n := LookupAt(strings, t, name);
    var ps := OwnProperties(t);
    if n < |ps| {
      assert FirstNamed(strings, ps, name, n);
    }
  }

  lemma {:induction false} LookupAt(strings: seq<Byte>, t: Items, name: seq<Byte>) returns (n: nat)
    ensures var ps := OwnProperties(t);
            && n <= |ps| && (forall j :: 0 <= j < n ==> !IsNamed(strings, ps[j], name))
            && if n < |ps| then IsNamed(strings, ps[n], name) && Lookup(strings, t, name) == Some(ps[n].value)
               else Lookup(strings, t, name) == None
  {
    match t
    case Done => n := 0;
    case Nop(r) => n := LookupAt(strings, r, name);
    case Node(_, _, r) => n := LookupAt(strings, r, name);
    case Property(no, v, r) =>
      n := 0;
      if !IsNamed(strings, OwnProperty(no, v), name) {
        var k := LookupAt(strings, r, name);
        n := k + 1;
        forall j | 0 < j < n
          ensures !IsNamed(strings, OwnProperties(t)[j], name)
        {
          assert OwnProperties(t)[j] == OwnProperties(r)[j - 1];
        }
      }
  }

  // ---- The scan inside a node and its descendants ----

  // What is left of the node asked about (Own) below the descendants now open.
  datatype Nest = Own(items: Items) | Deep(items: Items, up: Nest)

  function Level(k: Nest): nat {
    if k.Own? then 0 else 1 + Level(k.up)
  }

  function Base(k: Nest): Items {
    if k.Own? then k.items else Base(k.up)
  }

  ghost predicate NestOk(strings: seq<Byte>, k: Nest) {
    Clean(strings, k.items) && Sized(k.items) && (k.Deep? ==> NestOk(strings, k.up))
  }

  function Rest(strings: seq<Byte>, k: Nest): seq<Byte>
    requires NestOk(strings, k)
    decreases k, 0
  {
    if k.Own? then Be32(END_NODE) else Be32(END_NODE) + Unroll(strings, k.up)
  }

  function Unroll(strings: seq<Byte>, k: Nest): seq<Byte>
    requires NestOk(strings, k)
    decreases k, 1
  {
    Encode(k.items) + Rest(strings, k)
  }

  // The scan's answer is the tree's answer.
  ghost predicate Agrees(f: Blocks, r: Option<Extent>, want: Option<seq<Byte>>) {
    match r
    case None => want == None
    case Some(e) => e.start + e.len <= |f.structure| && want == Some(f.structure[e.start..e.start + e.len])
  }

  lemma {:induction false} RestSame(strings: seq<Byte>, k: Nest, k': Nest)
    requires NestOk(strings, k) && NestOk(strings, k')
    requires k.Own? <==> k'.Own?
    requires k.Deep? ==> k'.up == k.up
    ensures Rest(strings, k') == Rest(strings, k)
    ensures Level(k') == Level(k) && (k.Deep? ==> Base(k') == Base(k))
  {
  }

  // The scan passes a token at c and stands at c', with rest to come.
  ghost predicate Moves(f: Blocks, c: nat, depth: nat, name: seq<Byte>, c': nat, depth': nat, rest: seq<Byte>) {
    && Aligned4(f, c) && Aligned4(f, c') && c' > c && At(f.structure, c', rest)
    && Scan(f, c, depth, name) == Scan(f, c', depth', name)
  }

  // What the scan does at each kind of token.
  lemma {:induction false} TakeBegin(f: Blocks, c: nat, depth: nat, name: seq<Byte>, n: seq<Byte>, rest: seq<Byte>, depth': nat)
    requires Aligned4(f, c) && 0 !in n && At(f.structure, c, EncodeBegin(n) + rest) && depth' == depth + 1
    ensures Moves(f, c, depth, name, c + BeginLen(n), depth', rest)
  {
    AtBegin(f.structure, c, n, rest);
  }

  lemma {:induction false} TakeProperty(f: Blocks, c: nat, depth: nat, name: seq<Byte>, no: nat, v: seq<Byte>, rest: seq<Byte>)
    requires Aligned4(f, c) && no < WORD32 && |v| < WORD32 && Terminated(f.strings, no)
    requires At(f.structure, c, EncodeProperty(no, v) + rest)
    ensures if depth == 0 && CStr(f.strings, no) == name then
              && c + 12 + |v| <= |f.structure| && f.structure[c + 12..c + 12 + |v|] == v
              && Scan(f, c, depth, name) == Some(Extent(c + 12, |v|))
            else Moves(f, c, depth, name, c + PropertyLen(v), depth, rest)
  {
    AtProperty(f.structure, c, no, v, rest);
    assert Scan(f, c, depth, name) == ScanProperty(f, c, depth, name);
  }

  lemma {:induction false} TakeEnd(f: Blocks, c: nat, depth: nat, name: seq<Byte>, rest: seq<Byte>, depth': nat)
    requires Aligned4(f, c) && At(f.structure, c, Be32(END_NODE) + rest) && depth == depth' + 1
    ensures Moves(f, c, depth, name, c + 4, depth', rest)
  {
    AtToken(f.structure, c, END_NODE, rest);
  }

  lemma {:induction false} TakeLastEnd(f: Blocks, c: nat, name: seq<Byte>, rest: seq<Byte>)
    requires Aligned4(f, c) && At(f.structure, c, Be32(END_NODE) + rest)
    ensures Scan(f, c, 0, name) == None
  {
    AtToken(f.structure, c, END_NODE, rest);
  }

  lemma {:induction false} TakeNop(f: Blocks, c: nat, depth: nat, name: seq<Byte>, rest: seq<Byte>)
    requires Aligned4(f, c) && At(f.structure, c, Be32(NOP) + rest)
    ensures Moves(f, c, depth, name, c + 4, depth, rest)
  {
    AtToken(f.structure, c, NOP, rest);
  }

  lemma {:induction false} PropertyBytes(strings: seq<Byte>, k: Nest)
    requires NestOk(strings, k) && k.items.Property?
    ensures var k' := k.(items := k.items.rest);
            && NestOk(strings, k') && Level(k') == Level(k) && (k.Deep? ==> Base(k') == Base(k))
            && Unroll(strings, k) == EncodeProperty(k.items.nameoff, k.items.value) + Unroll(strings, k')
  {
    var k' := k.(items := k.items.rest);
    RestSame(strings, k, k');
    Assoc(EncodeProperty(k.items.nameoff, k.items.value), Encode(k'.items), Rest(strings, k));
  }

  lemma {:induction false} NopBytes(strings: seq<Byte>, k: Nest)
    requires NestOk(strings, k) && k.items.Nop?
    ensures var k' := k.(items := k.items.rest);
            && NestOk(strings, k') && Level(k') == Level(k) && (k.Deep? ==> Base(k') == Base(k))
            && Unroll(strings, k) == Be32(NOP) + Unroll(strings, k')
  {
    var k' := k.(items := k.items.rest);
    RestSame(strings, k, k');
    Assoc(Be32(NOP), Encode(k'.items), Rest(strings, k));
  }

  lemma {:induction false} ChildBytes(strings: seq<Byte>, k: Nest)
    requires NestOk(strings, k) && k.items.Node?
    ensures var k' := Deep(k.items.body, k.(items := k.items.rest));
            && NestOk(strings, k') && Level(k') == Level(k) + 1
            && Unroll(strings, k) == EncodeBegin(k.items.name) + Unroll(strings, k')
  {
    var n, b, r := k.items.name, k.items.body, k.items.rest;
    var up := k.(items := r);
    RestSame(strings, k, up);
    var x, y, z := EncodeBegin(n), Encode(b), Be32(END_NODE);
    assert Unroll(strings, up) == Encode(r) + Rest(strings, k);
    assert Unroll(strings, Deep(b, up)) == y + (z + Unroll(strings, up));
    assert Encode(k.items) == x + y + z + Encode(r);
    Assoc(x + y + z, Encode(r), Rest(strings, k));
    Assoc(x + y, z, Encode(r) + Rest(strings, k));
    Assoc(x, y, z + (Encode(r) + Rest(strings, k)));
  }

  // The scan has its answer: the property is here, or the node asked about ends here.
  predicate Answered(strings: seq<Byte>, k: Nest, name: seq<Byte>) {
    k.Own? && (k.items.Done? || (k.items.Property? && k.items.nameoff <= |strings| && CStr(strings, k.items.nameoff) == name))
  }

  lemma {:induction false} ScanAnswer(f: Blocks, c: nat, k: Nest, name: seq<Byte>)
    requires Aligned4(f, c) && NestOk(f.strings, k) && At(f.structure, c, Unroll(f.strings, k))
    requires Answered(f.strings, k, name)
    ensures Agrees(f, Scan(f, c, Level(k), name), Lookup(f.strings, Base(k), name))
  {
    if k.items.Done? {
      assert Unroll(f.strings, k) == Be32(END_NODE) + [];
      TakeLastEnd(f, c, name, []);
    } else {
      ScanHit(f, c, k, name);
    }
  }

  lemma {:induction false} ScanHit(f: Blocks, c: nat, k: Nest, name: seq<Byte>)
    requires Aligned4(f, c) && NestOk(f.strings, k) && At(f.structure, c, Unroll(f.strings, k))
    requires Answered(f.strings, k, name) && k.items.Property?
    ensures Agrees(f, Scan(f, c, 0, name), Some(k.items.value))
  {
    PropertyBytes(f.strings, k);
    TakeProperty(f, c, 0, name, k.items.nameoff, k.items.value, Unroll(f.strings, Own(k.items.rest)));
  }

  // Otherwise one token is passed and the question stays the same.
  ghost predicate Passes(f: Blocks, c: nat, k: Nest, name: seq<Byte>, c': nat, k': Nest) {
    && NestOk(f.strings, k')
    && Moves(f, c, Level(k), name, c', Level(k'), Unroll(f.strings, k'))
    && Lookup(f.strings, Base(k), name) == Lookup(f.strings, Base(k'), name)
  }

  // What is left after one token: the rest of the bytes, and the same answer in the tree.
  ghost predicate Peels(strings: seq<Byte>, k: Nest, name: seq<Byte>, head: seq<Byte>, k': Nest)
    requires NestOk(strings, k)
  {
    && NestOk(strings, k') && Unroll(strings, k) == head + Unroll(strings, k')
    && Lookup(strings, Base(k), name) == Lookup(strings, Base(k'), name)
  }

  lemma {:induction false} PeelChild(strings: seq<Byte>, k: Nest, name: seq<Byte>, k': Nest)
    requires NestOk(strings, k) && k.items.Node? && k' == Deep(k.items.body, k.(items := k.items.rest))
    ensures Peels(strings, k, name, EncodeBegin(k.items.name), k') && Level(k') == Level(k) + 1
  {
    ChildBytes(strings, k);
  }

  lemma {:induction false} PeelProperty(strings: seq<Byte>, k: Nest, name: seq<Byte>, k': Nest)
    requires NestOk(strings, k) && k.items.Property? && k' == k.(items := k.items.rest) && !Answered(strings, k, name)
    ensures Peels(strings, k, name, EncodeProperty(k.items.nameoff, k.items.value), k') && Level(k') == Level(k)
  {
    PropertyBytes(strings, k);
  }

  lemma {:induction false} PeelNop(strings: seq<Byte>, k: Nest, name: seq<Byte>, k': Nest)
    requires NestOk(strings, k) && k.items.Nop? && k' == k.(items := k.items.rest)
    ensures Peels(strings, k, name, Be32(NOP), k') && Level(k') == Level(k)
  {
    NopBytes(strings, k);
  }

  lemma {:induction false} PeelEnd(strings: seq<Byte>, k: Nest, name: seq<Byte>, k': Nest)
    requires NestOk(strings, k) && k.items.Done? && k.Deep? && k' == k.up
    ensures Peels(strings, k, name, Be32(END_NODE), k') && Level(k) == Level(k') + 1
  {
    assert Encode(k.items) == [];
  }

  ghost predicate Here(f: Blocks, c: nat, k: Nest) {
    Aligned4(f, c) && NestOk(f.strings, k) && At(f.structure, c, Unroll(f.strings, k))
  }

  lemma {:induction false} PassChild(f: Blocks, c: nat, k: Nest, name: seq<Byte>) returns (c': nat, k': Nest)
    requires Here(f, c, k) && k.items.Node?
    ensures Passes(f, c, k, name, c', k')
  {
    c', k' := c + BeginLen(k.items.name), Deep(k.items.body, k.(items := k.items.rest));
    PeelChild(f.strings, k, name, k');
    TakeBegin(f, c, Level(k), name, k.items.name, Unroll(f.strings, k'), Level(k'));
  }

  lemma {:induction false} PassProperty(f: Blocks, c: nat, k: Nest, name: seq<Byte>) returns (c': nat, k': Nest)
    requires Here(f, c, k) && k.items.Property? && !Answered(f.strings, k, name)
    ensures Passes(f, c, k, name, c', k')
  {
    c', k' := c + PropertyLen(k.items.value), k.(items := k.items.rest);
    PeelProperty(f.strings, k, name, k');
    TakeProperty(f, c, Level(k), name, k.items.nameoff, k.items.value, Unroll(f.strings, k'));
  }

  lemma {:induction false} PassNop(f: Blocks, c: nat, k: Nest, name: seq<Byte>) returns (c': nat, k': Nest)
    requires Here(f, c, k) && k.items.Nop?
    ensures Passes(f, c, k, name, c', k')
  {
    c', k' := c + 4, k.(items := k.items.rest);
    PeelNop(f.strings, k, name, k');
    TakeNop(f, c, Level(k), name, Unroll(f.strings, k'));
  }

  lemma {:induction false} PassEnd(f: Blocks, c: nat, k: Nest, name: seq<Byte>) returns (c': nat, k': Nest)
    requires Here(f, c, k) && k.items.Done? && k.Deep?
    ensures Passes(f, c, k, name, c', k')
  {
    c', k' := c + 4, k.up;
    PeelEnd(f.strings, k, name, k');
    TakeEnd(f, c, Level(k), name, Unroll(f.strings, k'), Level(k'));
  }

  lemma {:induction false} ScanNest(f: Blocks, c: nat, k: Nest, name: seq<Byte>)
    requires Here(f, c, k)
    ensures Agrees(f, Scan(f, c, Level(k), name), Lookup(f.strings, Base(k), name))
    decreases |f.structure| - c
  {
    if Answered(f.strings, k, name) {
      ScanAnswer(f, c, k, name);
    } else {
      var c', k';
      match k.items {
        case Nop(_) => c', k' := PassNop(f, c, k, name);
        case Property(_, _, _) => c', k' := PassProperty(f, c, k, name);
        case Node(_, _, _) => c', k' := PassChild(f, c, k, name);
        case Done => c', k' := PassEnd(f, c, k, name);
      }
      ScanNest(f, c', k', name);
    }
  }

  // The node with this name and body is flattened at this offset.
  ghost predicate NodeAt(f: Blocks, off: nat, name: seq<Byte>, body: Items)
    requires Sized(body)
  {
    off % 4 == 0 && At(f.structure, off, EncodeBegin(name) + (Encode(body) + Be32(END_NODE)))
  }

  // Property lookup agrees with the tree: the first property of that name of the node itself,
  // never a descendant's, and nothing exactly when the node has none.
  lemma {:induction false} LookupAgrees(f: Blocks, off: nat, nodeName: seq<Byte>, body: Items, name: seq<Byte>)
    requires |f.structure| % 4 == 0 && 0 !in nodeName && Clean(f.strings, body) && Sized(body)
    requires NodeAt(f, off, nodeName, body)
    ensures Agrees(f, GetProperty(f, off, name), Lookup(f.strings, body, name))
  {
    var inside, rest := off + BeginLen(nodeName), Encode(body) + Be32(END_NODE);
    PayloadAt(f, off, nodeName, rest);
    BodyHere(f, inside, body, rest);
    ScanNest(f, inside, Own(body), name);
  }

  lemma {:induction false} BodyHere(f: Blocks, inside: nat, body: Items, rest: seq<Byte>)
    requires Aligned4(f, inside) && Clean(f.strings, body) && Sized(body) && rest == Encode(body) + Be32(END_NODE)
    requires At(f.structure, inside, rest)
    ensures Here(f, inside, Own(body))
  {
  }

  lemma {:induction false} PayloadAt(f: Blocks, off: nat, nodeName: seq<Byte>, rest: seq<Byte>)
    requires |f.structure| % 4 == 0 && off % 4 == 0 && 0 !in nodeName
    requires At(f.structure, off, EncodeBegin(nodeName) + rest)
    ensures Payload(f, off) == Some(off + BeginLen(nodeName)) && Aligned4(f, off + BeginLen(nodeName))
    ensures At(f.structure, off + BeginLen(nodeName), rest)
  {
    AtBegin(f.structure, off, nodeName, rest);
  }
}
