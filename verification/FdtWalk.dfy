/** The walker refines the tree: on the flattened form of any devicetree within the depth
    and path limits it reports exactly the nodes in preorder. */
module FdtWalk {
  import opened DeviceTree
  import opened FdtScan

  // ---- Reading encoded pieces ----

  // The bytes x stand in s at c.
  ghost predicate At(s: seq<Byte>, c: nat, x: seq<Byte>) {
    c <= |s| && x <= s[c..]
  }

  lemma {:induction false} AtSplit(s: seq<Byte>, c: nat, a: seq<Byte>, b: seq<Byte>)
    requires At(s, c, a + b)
    ensures At(s, c, a) && At(s, c + |a|, b)
  {
    assert a == (a + b)[..|a|] == s[c..][..|a|];
    assert b == (a + b)[|a|..];
    assert s[c..][..|a| + |b|] == a + b;
    assert s[c + |a|..][..|b|] == b;
  }

  lemma {:induction false} AtBytes(s: seq<Byte>, c: nat, x: seq<Byte>, i: nat)
    requires At(s, c, x) && i < |x|
    ensures c + i < |s| && s[c + i] == x[i]
  {
    assert s[c..][i] == x[i];
  }

  lemma {:induction false} AtWord(s: seq<Byte>, c: nat, n: nat)
    requires n < WORD32 && At(s, c, Be32(n))
    ensures c + 4 <= |s| && Read32(s, c) == n
  {
    AtBytes(s, c, Be32(n), 0);
    AtBytes(s, c, Be32(n), 1);
    AtBytes(s, c, Be32(n), 2);
    AtBytes(s, c, Be32(n), 3);
    ReadBe32(n, s, c);
  }

  lemma {:induction false} StrLenIs(s: seq<Byte>, i: nat, n: nat)
    requires i + n < |s| && s[i + n] == 0 && forall k :: i <= k < i + n ==> s[k] != 0
    ensures StrLen(s, i) == n
    decreases n
  {
    if n > 0 {
      StrLenIs(s, i + 1, n - 1);
    }
  }

  // A padded, NUL-terminated name is read back.
  lemma {:induction false} AtName(s: seq<Byte>, c: nat, name: seq<Byte>)
    requires 0 !in name && At(s, c, Padded(name + [0]))
    ensures Terminated(s, c) && CStr(s, c) == name
  {
    var x := Padded(name + [0]);
    assert name + [0] <= x;
    forall i: nat | i <= |name|
      ensures c + i < |s| && s[c + i] == (name + [0])[i]
    {
      AtBytes(s, c, x, i);
    }
    assert forall k :: c <= k < c + |name| ==> s[k] == name[k - c];
    StrLenIs(s, c, |name|);
    assert s[c..c + |name|] == name;
  }

  // A begin token and its name.
  lemma {:induction false} AtBegin(s: seq<Byte>, c: nat, name: seq<Byte>, rest: seq<Byte>)
    requires 0 !in name && c % 4 == 0 && At(s, c, EncodeBegin(name) + rest)
    ensures c + 4 <= |s| && Read32(s, c) == BEGIN_NODE
    ensures Terminated(s, c + 4) && CStr(s, c + 4) == name
    ensures Align4(c + 4 + |name| + 1) == c + BeginLen(name) && At(s, c + BeginLen(name), rest)
  {
    AtSplit(s, c, EncodeBegin(name), rest);
    AtSplit(s, c, Be32(BEGIN_NODE), Padded(name + [0]));
    AtWord(s, c, BEGIN_NODE);
    AtName(s, c + 4, name);
    AlignShift(c + 4, |name| + 1);
  }

  // A property token, its length, name offset and value.
  lemma {:induction false} AtProperty(s: seq<Byte>, c: nat, nameoff: nat, value: seq<Byte>, rest: seq<Byte>)
    requires nameoff < WORD32 && |value| < WORD32 && c % 4 == 0
    requires At(s, c, EncodeProperty(nameoff, value) + rest)
    ensures c + 12 + |value| <= |s|
    ensures Read32(s, c) == PROP && Read32(s, c + 4) == |value| && Read32(s, c + 8) == nameoff
    ensures s[c + 12..c + 12 + |value|] == value
    ensures Align4(c + 12 + |value|) == c + PropertyLen(value) && At(s, c + PropertyLen(value), rest)
  {
    AtSplit(s, c, EncodeProperty(nameoff, value), rest);
    AtSplit(s, c, Be32(PROP) + Be32(|value|) + Be32(nameoff), Padded(value));
    AtSplit(s, c, Be32(PROP) + Be32(|value|), Be32(nameoff));
    AtSplit(s, c, Be32(PROP), Be32(|value|));
    AtWord(s, c, PROP);
    AtWord(s, c + 4, |value|);
    AtWord(s, c + 8, nameoff);
    AtPadded(s, c + 12, value);
    AlignShift(c + 12, |value|);
  }

  lemma {:induction false} AtPadded(s: seq<Byte>, c: nat, value: seq<Byte>)
    requires At(s, c, Padded(value))
    ensures c + |value| <= |s| && s[c..c + |value|] == value
  {
    assert Padded(value) == value + Padded(value)[|value|..];
    AtSplit(s, c, value, Padded(value)[|value|..]);
    assert s[c..][..|value|] == s[c..c + |value|];
  }

  lemma {:induction false} AtToken(s: seq<Byte>, c: nat, token: nat, rest: seq<Byte>)
    requires token < WORD32 && At(s, c, Be32(token) + rest)
    ensures c + 4 <= |s| && Read32(s, c) == token && At(s, c + 4, rest)
  {
    AtSplit(s, c, Be32(token), rest);
    AtWord(s, c, token);
  }

  // ---- How much of a tree the walker can report ----

  // The nodes seen among some items, and whether the scan has got past all of them.
  datatype Seen = Seen(visits: seq<Visit>, whole: bool)

  // The walker takes a property inside a node, unless it is a cell count that is not one word.
  predicate PropertyFits(strings: seq<Byte>, depth: nat, nameoff: nat, len: nat) {
    depth > 0 && nameoff <= |strings| && !BadCells(strings, nameoff, len)
  }

  predicate NodeFits(depth: nat, path: seq<Byte>, name: seq<Byte>) {
    depth < MAX_DEPTH && |ChildPath(depth, path, name)| < MAX_PATH
  }

  // The nodes in preorder, up to the first item that does not fit.
  function Taken(strings: seq<Byte>, t: Items, off: nat, depth: nat, path: seq<Byte>, c: Cells): Seen
    requires Sized(t)
    decreases t
  {
    match t
    case Done => Seen([], true)
    case Nop(r) => Taken(strings, r, off + 4, depth, path, c)
    case Property(no, v, r) =>
      if !PropertyFits(strings, depth, no, |v|) then Seen([], false)
      else Taken(strings, r, off + PropertyLen(v), depth, path, SetCells(strings, c, no, v))
    case Node(n, b, r) =>
      if !NodeFits(depth, path, n) then Seen([], false)
      else
        var p := ChildPath(depth, path, n);
        var inside := off + BeginLen(n);
        TakeNode(Visit(off, p, c), Taken(strings, b, inside, depth + 1, p, DEFAULT_CELLS),
                 Taken(strings, r, inside + |Encode(b)| + 4, depth, path, c))
  }

  // They are a beginning of the preorder, and all of it if everything fits.
  lemma {:induction false} TakenPrefix(strings: seq<Byte>, t: Items, off: nat, depth: nat, path: seq<Byte>, c: Cells)
    requires Sized(t)
    ensures Starts(Taken(strings, t, off, depth, path, c), Preorder(strings, t, off, depth, path, c))
    decreases t, 1
  {
    match t
    case Done =>
    case Nop(r) => TakenPrefix(strings, r, off + 4, depth, path, c);
    case Property(no, v, r) =>
      if PropertyFits(strings, depth, no, |v|) {
        TakenPrefix(strings, r, off + PropertyLen(v), depth, path, SetCells(strings, c, no, v));
      }
    case Node(n, _, _) =>
      if NodeFits(depth, path, n) {
        TakenNodePrefix(strings, t, off, depth, path, c);
      }
  }

  lemma {:induction false} TakenNodePrefix(strings: seq<Byte>, t: Items, off: nat, depth: nat, path: seq<Byte>, c: Cells)
    requires Sized(t) && t.Node? && NodeFits(depth, path, t.name)
    ensures Starts(Taken(strings, t, off, depth, path, c), Preorder(strings, t, off, depth, path, c))
    decreases t, 0
  {
    var p, inside := ChildPath(depth, path, t.name), off + BeginLen(t.name);
    var next := inside + |Encode(t.body)| + 4;
    TakenPrefix(strings, t.body, inside, depth + 1, p, DEFAULT_CELLS);
    TakenPrefix(strings, t.rest, next, depth, path, c);
    NodePrefix(strings, t, off, depth, path, c, p, inside, next);
  }

  // The nodes seen are a beginning of these, or all of them if the scan gets past them.
  ghost predicate Starts(seen: Seen, all: seq<Visit>) {
    seen.visits <= all && (seen.whole ==> seen.visits == all)
  }

  lemma {:induction false} NodePrefix(strings: seq<Byte>, t: Items, off: nat, depth: nat, path: seq<Byte>, c: Cells,
                                      p: seq<Byte>, inside: nat, next: nat)
    requires t.Node? && Sized(t) && NodeFits(depth, path, t.name)
    requires p == ChildPath(depth, path, t.name) && inside == off + BeginLen(t.name) && next == inside + |Encode(t.body)| + 4
    requires Starts(Taken(strings, t.body, inside, depth + 1, p, DEFAULT_CELLS), Preorder(strings, t.body, inside, depth + 1, p, DEFAULT_CELLS))
    requires Starts(Taken(strings, t.rest, next, depth, path, c), Preorder(strings, t.rest, next, depth, path, c))
    ensures Starts(Taken(strings, t, off, depth, path, c), Preorder(strings, t, off, depth, path, c))
  {
    GluePrefix(Visit(off, p, c), Taken(strings, t.body, inside, depth + 1, p, DEFAULT_CELLS),
               Taken(strings, t.rest, next, depth, path, c),
               Preorder(strings, t.body, inside, depth + 1, p, DEFAULT_CELLS),
               Preorder(strings, t.rest, next, depth, path, c));
  }

  // A node's own visit, those inside it and those after it.
  function TakeNode(visit: Visit, inner: Seen, after: Seen): Seen {
    if !inner.whole then Seen([visit] + inner.visits, false)
    else Seen([visit] + inner.visits + after.visits, after.whole)
  }

  lemma {:induction false} GluePrefix(visit: Visit, inner: Seen, after: Seen, x: seq<Visit>, y: seq<Visit>)
    requires Starts(inner, x) && Starts(after, y)
    ensures Starts(TakeNode(visit, inner, after), [visit] + x + y)
  {
  }

  // And that is so exactly when the tree keeps the walker's limits.
  lemma {:induction false} TakenWhole(strings: seq<Byte>, t: Items, off: nat, depth: nat, path: seq<Byte>, c: Cells)
    requires Clean(strings, t) && Sized(t)
    ensures Taken(strings, t, off, depth, path, c).whole <==> Fits(strings, t, depth, path, 32, 256)
    decreases t
  {
    match t
    case Done =>
    case Nop(r) => TakenWhole(strings, r, off + 4, depth, path, c);
    case Property(no, v, r) =>
      if PropertyFits(strings, depth, no, |v|) {
        TakenWhole(strings, r, off + PropertyLen(v), depth, path, SetCells(strings, c, no, v));
      }
    case Node(n, b, r) =>
      if NodeFits(depth, path, n) {
        var p, inside := ChildPath(depth, path, n), off + BeginLen(n);
        TakenWhole(strings, b, inside, depth + 1, p, DEFAULT_CELLS);
        TakenWhole(strings, r, inside + |Encode(b)| + 4, depth, path, c);
      }
  }

  // ---- What is left of the tree at a point of the scan ----

  // The items still to come in each open node, innermost first.
  datatype Stack =
    | Outer(items: Items)
    | Inner(items: Items, path: seq<Byte>, cells: Cells, up: Stack)

  function Depth(k: Stack): nat {
    match k
    case Outer(_) => 0
    case Inner(_, _, _, up) => 1 + Depth(up)
  }

  function PathOf(k: Stack): seq<Byte> {
    if k.Outer? then [] else k.path
  }

  function CellsOf(k: Stack): Cells {
    if k.Outer? then DEFAULT_CELLS else k.cells
  }

  function FramesOf(k: Stack): (r: seq<Frame>)
    ensures |r| == Depth(k)
  {
    match k
    case Outer(_) => []
    case Inner(_, _, c, up) => FramesOf(up) + [Frame(|PathOf(up)|, c)]
  }

  ghost predicate StackOk(strings: seq<Byte>, k: Stack) {
    && Clean(strings, k.items) && Sized(k.items)
    && |PathOf(k)| < MAX_PATH && Depth(k) <= MAX_DEPTH
    && (k.Inner? ==> PathOf(k.up) <= k.path && StackOk(strings, k.up))
  }

  // The bytes still to come.
  function Flatten(strings: seq<Byte>, k: Stack): seq<Byte>
    requires StackOk(strings, k)
    decreases k, 1
  {
    Encode(k.items) + After(strings, k)
  }

  function After(strings: seq<Byte>, k: Stack): seq<Byte>
    requires StackOk(strings, k)
    decreases k, 0
  {
    if k.Outer? then Be32(END) else Be32(END_NODE) + Flatten(strings, k.up)
  }

  // The nodes still to come, up to the first item that does not fit.
  function Pending(strings: seq<Byte>, k: Stack, off: nat): seq<Visit>
    requires StackOk(strings, k)
    decreases k, 1
  {
    Then(Taken(strings, k.items, off, Depth(k), PathOf(k), CellsOf(k)), Later(strings, k, off + |Encode(k.items)|))
  }

  function Then(seen: Seen, later: seq<Visit>): seq<Visit> {
    if seen.whole then seen.visits + later else seen.visits
  }

  function Later(strings: seq<Byte>, k: Stack, off: nat): seq<Visit>
    requires StackOk(strings, k)
    decreases k, 0
  {
    if k.Outer? then [] else Pending(strings, k.up, off + 4)
  }

  // The walker is at the point of the scan that k describes.
  ghost predicate Tracks(f: Blocks, w: WalkState, k: Stack) {
    && StackOk(f.strings, k)
    && w.frames == FramesOf(k) && w.path == PathOf(k)
    && At(f.structure, w.cursor, Flatten(f.strings, k))
  }

  // ---- One token ----

  lemma {:induction false} Assoc<T>(a: seq<T>, b: seq<T>, c: seq<T>)
    ensures (a + b) + c == a + (b + c)
  {
  }

  // Two stacks with the same nodes open have the same bytes and nodes after the items.
  lemma {:induction false} SameAfter(strings: seq<Byte>, k: Stack, k': Stack, off: nat)
    requires StackOk(strings, k) && StackOk(strings, k')
    requires k.Outer? <==> k'.Outer?
    requires k.Inner? ==> k'.up == k.up
    ensures After(strings, k') == After(strings, k) && Later(strings, k', off) == Later(strings, k, off)
  {
  }

  lemma {:induction false} NopOk(strings: seq<Byte>, k: Stack)
    requires StackOk(strings, k) && k.items.Nop?
    ensures var k' := k.(items := k.items.rest);
            StackOk(strings, k') && FramesOf(k') == FramesOf(k) && PathOf(k') == PathOf(k)
            && Depth(k') == Depth(k) && CellsOf(k') == CellsOf(k)
  {
  }

  lemma {:induction false} PeelNop(strings: seq<Byte>, k: Stack, off: nat)
    requires StackOk(strings, k) && k.items.Nop?
    ensures var k' := k.(items := k.items.rest);
            && StackOk(strings, k') && FramesOf(k') == FramesOf(k) && PathOf(k') == PathOf(k)
            && Flatten(strings, k) == Be32(NOP) + Flatten(strings, k')
            && Pending(strings, k', off + 4) == Pending(strings, k, off)
  {
    NopOk(strings, k);
    var k' := k.(items := k.items.rest);
    SameAfter(strings, k, k', off + |Encode(k.items)|);
    Assoc(Be32(NOP), Encode(k'.items), After(strings, k));
  }

  lemma {:induction false} StepNop(f: Blocks, w: WalkState, k: Stack)
    requires GoodWalk(f, w) && Tracks(f, w, k) && k.items.Nop?
    ensures w.cursor < |f.structure|
    ensures var k' := k.(items := k.items.rest);
            && TokenStep(f, w) == Goto(w.(cursor := w.cursor + 4))
            && Tracks(f, w.(cursor := w.cursor + 4), k')
            && Pending(f.strings, k', w.cursor + 4) == Pending(f.strings, k, w.cursor)
  {
    PeelNop(f.strings, k, w.cursor);
    AtToken(f.structure, w.cursor, NOP, Flatten(f.strings, k.(items := k.items.rest)));
  }

  function AfterProperty(strings: seq<Byte>, k: Stack): Stack
    requires k.items.Property? && k.Inner? && k.items.nameoff <= |strings|
  {
    k.(items := k.items.rest, cells := SetCells(strings, k.cells, k.items.nameoff, k.items.value))
  }

  // The next item can be taken.
  predicate NextFits(strings: seq<Byte>, k: Stack) {
    match k.items
    case Property(no, v, _) => PropertyFits(strings, Depth(k), no, |v|)
    case Node(n, _, _) => NodeFits(Depth(k), PathOf(k), n)
    case _ => true
  }

  lemma {:induction false} PropertyOk(strings: seq<Byte>, k: Stack)
    requires StackOk(strings, k) && k.items.Property? && NextFits(strings, k)
    ensures k.Inner? && k.items.nameoff < |strings| && Terminated(strings, k.items.nameoff)
    ensures |k.items.value| < WORD32 && k.items.nameoff < WORD32
    ensures !BadCells(strings, k.items.nameoff, |k.items.value|)
    ensures var k' := AfterProperty(strings, k);
            StackOk(strings, k') && PathOf(k') == PathOf(k) && Depth(k') == Depth(k)
  {
  }

  lemma {:induction false} PeelProperty(strings: seq<Byte>, k: Stack)
    requires StackOk(strings, k) && k.items.Property? && k.Inner? && k.items.nameoff < |strings|
    requires k.items.nameoff < WORD32 && |k.items.value| < WORD32
    requires StackOk(strings, AfterProperty(strings, k))
    ensures Flatten(strings, k) ==
            EncodeProperty(k.items.nameoff, k.items.value) + Flatten(strings, AfterProperty(strings, k))
  {
    var k' := AfterProperty(strings, k);
    SameAfter(strings, k, k', 0);
    var x := EncodeProperty(k.items.nameoff, k.items.value);
    assert Encode(k.items) == x + Encode(k'.items);
    Assoc(x, Encode(k'.items), After(strings, k));
  }

  lemma {:induction false} PeelPropertyVisits(strings: seq<Byte>, k: Stack, off: nat)
    requires StackOk(strings, k) && k.items.Property? && k.Inner? && k.items.nameoff < |strings| && NextFits(strings, k)
    requires StackOk(strings, AfterProperty(strings, k)) && Depth(AfterProperty(strings, k)) == Depth(k)
    ensures Pending(strings, AfterProperty(strings, k), off + PropertyLen(k.items.value)) == Pending(strings, k, off)
  {
    var k' := AfterProperty(strings, k);
    assert |Encode(k.items)| == PropertyLen(k.items.value) + |Encode(k'.items)|;
    SameAfter(strings, k, k', off + |Encode(k.items)|);
  }

  lemma {:induction false} NotedFrames(strings: seq<Byte>, k: Stack)
    requires k.items.Property? && k.Inner? && k.items.nameoff <= |strings|
    ensures Noted(strings, FramesOf(k), k.items.nameoff, k.items.value) == FramesOf(AfterProperty(strings, k))
  {
    assert FramesOf(k)[..|FramesOf(k)| - 1] == FramesOf(k.up);
  }

  // The walker's state after the property at the point k describes.
  function PastProperty(strings: seq<Byte>, w: WalkState, k: Stack): WalkState
    requires k.items.Property? && k.Inner? && k.items.nameoff <= |strings|
  {
    WalkState(w.cursor + PropertyLen(k.items.value), w.path, FramesOf(AfterProperty(strings, k)))
  }

  lemma {:induction false} StepProperty(f: Blocks, w: WalkState, k: Stack)
    requires GoodWalk(f, w) && Tracks(f, w, k) && k.items.Property? && NextFits(f.strings, k)
    ensures w.cursor < |f.structure| && k.Inner? && k.items.nameoff <= |f.strings|
    ensures TokenStep(f, w) == Goto(PastProperty(f.strings, w, k))
    ensures At(f.structure, w.cursor + PropertyLen(k.items.value), Flatten(f.strings, AfterProperty(f.strings, k)))
  {
    PropertyOk(f.strings, k);
    PeelProperty(f.strings, k);
    NoteStep(f, w, k.items.nameoff, k.items.value, Flatten(f.strings, AfterProperty(f.strings, k)));
    NotedFrames(f.strings, k);
  }

  lemma {:induction false} TracksProperty(f: Blocks, w: WalkState, k: Stack)
    requires Tracks(f, w, k) && k.items.Property? && k.Inner? && k.items.nameoff < |f.strings|
    requires StackOk(f.strings, AfterProperty(f.strings, k))
    requires At(f.structure, w.cursor + PropertyLen(k.items.value), Flatten(f.strings, AfterProperty(f.strings, k)))
    ensures Tracks(f, PastProperty(f.strings, w, k), AfterProperty(f.strings, k))
  {
  }

  // The scanner reads a property back.
  lemma {:induction false} NoteStep(f: Blocks, w: WalkState, nameoff: nat, value: seq<Byte>, rest: seq<Byte>)
    requires GoodWalk(f, w) && w.frames != [] && nameoff < WORD32 && |value| < WORD32
    requires Terminated(f.strings, nameoff) && !BadCells(f.strings, nameoff, |value|)
    requires At(f.structure, w.cursor, EncodeProperty(nameoff, value) + rest)
    ensures w.cursor < |f.structure|
    ensures TokenStep(f, w) ==
            Goto(WalkState(w.cursor + PropertyLen(value), w.path, Noted(f.strings, w.frames, nameoff, value)))
    ensures At(f.structure, w.cursor + PropertyLen(value), rest)
  {
    AtProperty(f.structure, w.cursor, nameoff, value, rest);
  }

  lemma {:induction false} PeelDone(strings: seq<Byte>, k: Stack, off: nat)
    requires StackOk(strings, k) && k.items.Done? && k.Inner?
    ensures Flatten(strings, k) == Be32(END_NODE) + Flatten(strings, k.up)
    ensures Pending(strings, k, off) == Pending(strings, k.up, off + 4)
    ensures FramesOf(k)[..|FramesOf(k)| - 1] == FramesOf(k.up)
    ensures FramesOf(k)[|FramesOf(k)| - 1].pathLen == |PathOf(k.up)| <= |k.path|
    ensures k.path[..|PathOf(k.up)|] == PathOf(k.up)
  {
    assert Encode(k.items) == [];
    assert Taken(strings, k.items, off, Depth(k), PathOf(k), CellsOf(k)) == Seen([], true);
  }

  lemma {:induction false} StepLeave(f: Blocks, w: WalkState, k: Stack)
    requires GoodWalk(f, w) && Tracks(f, w, k) && k.items.Done? && k.Inner?
    ensures w.cursor < |f.structure|
    ensures var w' := WalkState(w.cursor + 4, PathOf(k.up), FramesOf(k.up));
            && TokenStep(f, w) == Goto(w')
            && Tracks(f, w', k.up)
            && Pending(f.strings, k.up, w'.cursor) == Pending(f.strings, k, w.cursor)
  {
    PeelDone(f.strings, k, w.cursor);
    AtToken(f.structure, w.cursor, END_NODE, Flatten(f.strings, k.up));
  }

  lemma {:induction false} StepEnd(f: Blocks, w: WalkState, k: Stack)
    requires GoodWalk(f, w) && Tracks(f, w, k) && k.items.Done? && k.Outer?
    ensures w.cursor < |f.structure| && TokenStep(f, w) == Halt && Pending(f.strings, k, w.cursor) == []
  {
    assert Flatten(f.strings, k) == Be32(END) + [];
    AtToken(f.structure, w.cursor, END, []);
  }

  // Where the scan goes on after a node has been reported.
  function Opened(k: Stack): Stack
    requires k.items.Node?
  {
    Inner(k.items.body, ChildPath(Depth(k), PathOf(k), k.items.name), DEFAULT_CELLS, k.(items := k.items.rest))
  }

  lemma {:induction false} OpenedOk(strings: seq<Byte>, k: Stack)
    requires StackOk(strings, k) && k.items.Node? && NextFits(strings, k)
    ensures StackOk(strings, Opened(k))
    ensures 0 !in k.items.name && Depth(k) < MAX_DEPTH && |PathOf(Opened(k))| < MAX_PATH
    ensures Depth(Opened(k)) == Depth(k) + 1
  {
    var k' := Opened(k);
    assert Depth(k'.up) == Depth(k);
    assert k.Outer? ==> PathOf(k) == [];
    assert PathOf(k) <= k'.path;
  }

  lemma {:induction false} PeelNodeBytes(strings: seq<Byte>, k: Stack)
    requires StackOk(strings, k) && k.items.Node? && StackOk(strings, Opened(k))
    ensures Flatten(strings, k) == EncodeBegin(k.items.name) + Flatten(strings, Opened(k))
  {
    var n, b, r := k.items.name, k.items.body, k.items.rest;
    var up := k.(items := r);
    assert StackOk(strings, up) && Opened(k).up == up;
    SameAfter(strings, k, up, 0);
    var x, y, z := EncodeBegin(n), Encode(b), Be32(END_NODE);
    assert Flatten(strings, up) == Encode(r) + After(strings, k);
    assert After(strings, Opened(k)) == z + Flatten(strings, up);
    assert Flatten(strings, Opened(k)) == y + After(strings, Opened(k));
    assert Encode(k.items) == x + y + z + Encode(r);
    Assoc(x + y + z, Encode(r), After(strings, k));
    Assoc(x + y, z, Encode(r) + After(strings, k));
    Assoc(x, y, z + (Encode(r) + After(strings, k)));
  }

  lemma {:induction false} PeelNodeVisits(strings: seq<Byte>, k: Stack, off: nat)
    requires StackOk(strings, k) && k.items.Node? && StackOk(strings, Opened(k)) && NextFits(strings, k)
    ensures var k' := Opened(k);
            Pending(strings, k, off) ==
            [Visit(off, PathOf(k'), CellsOf(k))] + Pending(strings, k', off + BeginLen(k.items.name))
  {
    var visit, inside := Visit(off, PathOf(Opened(k)), CellsOf(k)), off + BeginLen(k.items.name);
    var inner, after, later := NodeParts(strings, k, off, inside, visit);
    Regroup(visit, inner, after, later);
  }

  // What is to come at a node: its visit, those inside it, those after it, those further up.
  lemma {:induction false} NodeParts(strings: seq<Byte>, k: Stack, off: nat, inside: nat, visit: Visit)
    returns (inner: Seen, after: Seen, later: seq<Visit>)
    requires StackOk(strings, k) && k.items.Node? && StackOk(strings, Opened(k)) && NextFits(strings, k)
    requires inside == off + BeginLen(k.items.name) && visit == Visit(off, PathOf(Opened(k)), CellsOf(k))
    ensures Pending(strings, k, off) == Then(TakeNode(visit, inner, after), later)
    ensures Pending(strings, Opened(k), inside) == Then(inner, Then(after, later))
  {
    var next := inside + |Encode(k.items.body)| + 4;
    NodeLength(k.items.name, k.items.body, k.items.rest);
    var depth, end := Depth(k) + 1, off + |Encode(k.items)|;
    inner := Taken(strings, k.items.body, inside, depth, PathOf(Opened(k)), DEFAULT_CELLS);
    after := Taken(strings, k.items.rest, next, Depth(k), PathOf(k), CellsOf(k));
    later := Later(strings, k, end);
    NodeTaken(strings, k, off, inside, next, depth, inner, after);
    OpenedPending(strings, k, inside, next, end, depth, inner, after, later);
    PendingIs(strings, k, off, TakeNode(visit, inner, after), later);
  }

  lemma {:induction false} Regroup(visit: Visit, inner: Seen, after: Seen, later: seq<Visit>)
    ensures Then(TakeNode(visit, inner, after), later) == [visit] + Then(inner, Then(after, later))
  {
  }

  lemma {:induction false} NodeTaken(strings: seq<Byte>, k: Stack, off: nat, inside: nat, next: nat, depth: nat,
                                     inner: Seen, after: Seen)
    requires StackOk(strings, k) && k.items.Node? && NextFits(strings, k) && depth == Depth(k) + 1
    requires inside == off + BeginLen(k.items.name) && next == inside + |Encode(k.items.body)| + 4
    requires inner == Taken(strings, k.items.body, inside, depth, PathOf(Opened(k)), DEFAULT_CELLS)
    requires after == Taken(strings, k.items.rest, next, Depth(k), PathOf(k), CellsOf(k))
    ensures Taken(strings, k.items, off, Depth(k), PathOf(k), CellsOf(k))
         == TakeNode(Visit(off, PathOf(Opened(k)), CellsOf(k)), inner, after)
  {
  }

  lemma {:induction false} OpenedPending(strings: seq<Byte>, k: Stack, inside: nat, next: nat, end: nat, depth: nat,
                                         inner: Seen, after: Seen, later: seq<Visit>)
    requires StackOk(strings, k) && k.items.Node? && StackOk(strings, Opened(k)) && depth == Depth(k) + 1
    requires next == inside + |Encode(k.items.body)| + 4
    requires inner == Taken(strings, k.items.body, inside, depth, PathOf(Opened(k)), DEFAULT_CELLS)
    requires after == Taken(strings, k.items.rest, next, Depth(k), PathOf(k), CellsOf(k))
    requires end == next + |Encode(k.items.rest)| && later == Later(strings, k, end)
    ensures Pending(strings, Opened(k), inside) == Then(inner, Then(after, later))
  {
    var k' := Opened(k);
    UpperIs(k);
    SameAfter(strings, k, k'.up, end);
    PendingIs(strings, k'.up, next, after, later);
    PendingIs(strings, k', inside, inner, Pending(strings, k'.up, next));
  }

  // The node above the one just opened goes on with its remaining items.
  lemma {:induction false} UpperIs(k: Stack)
    requires k.items.Node?
    ensures var up := Opened(k).up;
            && up.items == k.items.rest && Depth(up) == Depth(k) && PathOf(up) == PathOf(k) && CellsOf(up) == CellsOf(k)
  {
  }

  lemma {:induction false} PendingIs(strings: seq<Byte>, k: Stack, off: nat, here: Seen, later: seq<Visit>)
    requires StackOk(strings, k)
    requires here == Taken(strings, k.items, off, Depth(k), PathOf(k), CellsOf(k))
    requires later == Later(strings, k, off + |Encode(k.items)|)
    ensures Pending(strings, k, off) == Then(here, later)
  {
  }

  lemma {:induction false} NodeLength(n: seq<Byte>, b: Items, r: Items)
    requires Sized(b) && Sized(r)
    ensures |Encode(Node(n, b, r))| == BeginLen(n) + |Encode(b)| + 4 + |Encode(r)|
  {
  }

  lemma {:induction false} FramesOpened(k: Stack)
    requires k.items.Node?
    ensures FramesOf(Opened(k)) == FramesOf(k) + [Frame(|PathOf(k)|, DEFAULT_CELLS)]
  {
  }

  // The walker's state after reporting the node at the point k describes.
  function Entered(w: WalkState, k: Stack): WalkState
    requires k.items.Node?
  {
    WalkState(w.cursor + BeginLen(k.items.name), PathOf(Opened(k)), FramesOf(Opened(k)))
  }

  lemma {:induction false} StepEnter(f: Blocks, w: WalkState, k: Stack)
    requires GoodWalk(f, w) && Tracks(f, w, k) && k.items.Node? && StackOk(f.strings, Opened(k)) && NextFits(f.strings, k)
    ensures w.cursor < |f.structure|
    ensures TokenStep(f, w) == Report(Entered(w, k), Visit(w.cursor, PathOf(Opened(k)), CellsOf(k)))
    ensures At(f.structure, w.cursor + BeginLen(k.items.name), Flatten(f.strings, Opened(k)))
  {
    OpenedOk(f.strings, k);
    PeelNodeBytes(f.strings, k);
    EnterStep(f, w, k.items.name, Flatten(f.strings, Opened(k)));
    EnteredIs(w, k);
  }

  lemma {:induction false} TracksEnter(f: Blocks, w: WalkState, k: Stack)
    requires k.items.Node? && StackOk(f.strings, Opened(k))
    requires At(f.structure, w.cursor + BeginLen(k.items.name), Flatten(f.strings, Opened(k)))
    ensures Tracks(f, Entered(w, k), Opened(k))
  {
  }

  // The cell counts a child sees are those of the innermost open node.
  lemma {:induction false} CellsOfTop(k: Stack)
    ensures CellsOf(k) == if FramesOf(k) == [] then DEFAULT_CELLS else FramesOf(k)[|FramesOf(k)| - 1].cells
  {
  }

  // The scanner reads a begin token back.
  lemma {:induction false} EnterStep(f: Blocks, w: WalkState, name: seq<Byte>, rest: seq<Byte>)
    requires GoodWalk(f, w) && 0 !in name && |w.frames| < MAX_DEPTH
    requires At(f.structure, w.cursor, EncodeBegin(name) + rest)
    ensures w.cursor < |f.structure| && TokenStep(f, w) == EnterNamed(w, name)
    ensures At(f.structure, w.cursor + BeginLen(name), rest)
  {
    AtBegin(f.structure, w.cursor, name, rest);
  }

  lemma {:induction false} EnteredIs(w: WalkState, k: Stack)
    requires k.items.Node? && w.frames == FramesOf(k) && w.path == PathOf(k) && |PathOf(Opened(k))| < MAX_PATH
    ensures EnterNamed(w, k.items.name) == Report(Entered(w, k), Visit(w.cursor, PathOf(Opened(k)), CellsOf(k)))
  {
    FramesOpened(k);
    CellsOfTop(k);
  }

  // ---- The whole walk ----

  lemma {:induction false} GotoWalk(f: Blocks, w: WalkState, v: WalkState)
    requires GoodWalk(f, w) && w.cursor < |f.structure| && TokenStep(f, w) == Goto(v)
    ensures WalkAll(f, w) == WalkAll(f, v) && Next(f, w) == Next(f, v)
  {
    assert Next(f, w) == Next(f, v);
  }

  // A token that reports nothing leads to v and leaves k' to come.
  ghost predicate Silently(f: Blocks, w: WalkState, k: Stack, v: WalkState, k': Stack)
    requires GoodWalk(f, w) && Tracks(f, w, k)
  {
    && w.cursor < |f.structure| && TokenStep(f, w) == Goto(v) && Tracks(f, v, k')
    && Pending(f.strings, k', v.cursor) == Pending(f.strings, k, w.cursor)
  }

  lemma {:induction false} PropertyPoint(f: Blocks, w: WalkState, k: Stack)
    requires GoodWalk(f, w) && Tracks(f, w, k) && k.items.Property? && k.Inner? && k.items.nameoff < |f.strings|
    requires NextFits(f.strings, k)
    requires StackOk(f.strings, AfterProperty(f.strings, k)) && Depth(AfterProperty(f.strings, k)) == Depth(k)
    ensures Silently(f, w, k, PastProperty(f.strings, w, k), AfterProperty(f.strings, k))
  {
    StepProperty(f, w, k);
    TracksProperty(f, w, k);
    PropertyPending(f.strings, w, k);
  }

  lemma {:induction false} PropertyPending(strings: seq<Byte>, w: WalkState, k: Stack)
    requires StackOk(strings, k) && k.items.Property? && k.Inner? && k.items.nameoff < |strings| && NextFits(strings, k)
    requires StackOk(strings, AfterProperty(strings, k)) && Depth(AfterProperty(strings, k)) == Depth(k)
    ensures Pending(strings, AfterProperty(strings, k), PastProperty(strings, w, k).cursor) == Pending(strings, k, w.cursor)
  {
    PeelPropertyVisits(strings, k, w.cursor);
  }

  lemma {:induction false} NopPoint(f: Blocks, w: WalkState, k: Stack)
    requires GoodWalk(f, w) && Tracks(f, w, k) && k.items.Nop?
    ensures Silently(f, w, k, w.(cursor := w.cursor + 4), k.(items := k.items.rest))
  {
    StepNop(f, w, k);
  }

  lemma {:induction false} LeavePoint(f: Blocks, w: WalkState, k: Stack)
    requires GoodWalk(f, w) && Tracks(f, w, k) && k.items.Done? && k.Inner?
    ensures Silently(f, w, k, WalkState(w.cursor + 4, PathOf(k.up), FramesOf(k.up)), k.up)
  {
    StepLeave(f, w, k);
  }

  lemma {:induction false} AdvanceNode(f: Blocks, w: WalkState, k: Stack)
    requires GoodWalk(f, w) && Tracks(f, w, k) && k.items.Node? && NextFits(f.strings, k)
    ensures GoodWalk(f, Entered(w, k)) && Entered(w, k).cursor > w.cursor
    ensures Tracks(f, Entered(w, k), Opened(k))
    ensures var visit := Visit(w.cursor, PathOf(Opened(k)), CellsOf(k));
            && WalkAll(f, w) == [visit] + WalkAll(f, Entered(w, k))
            && Pending(f.strings, k, w.cursor) == [visit] + Pending(f.strings, Opened(k), Entered(w, k).cursor)
  {
    NodePoint(f, w, k);
    NodePending(f.strings, w, k);
  }

  lemma {:induction false} NodePending(strings: seq<Byte>, w: WalkState, k: Stack)
    requires StackOk(strings, k) && k.items.Node? && NextFits(strings, k)
    ensures StackOk(strings, Opened(k))
    ensures Pending(strings, k, w.cursor) == [Visit(w.cursor, PathOf(Opened(k)), CellsOf(k))]
                                             + Pending(strings, Opened(k), Entered(w, k).cursor)
  {
    OpenedOk(strings, k);
    PeelNodeVisits(strings, k, w.cursor);
  }

  lemma {:induction false} NodePoint(f: Blocks, w: WalkState, k: Stack)
    requires GoodWalk(f, w) && Tracks(f, w, k) && k.items.Node? && NextFits(f.strings, k)
    ensures GoodWalk(f, Entered(w, k)) && Entered(w, k).cursor > w.cursor
    ensures Tracks(f, Entered(w, k), Opened(k))
    ensures WalkAll(f, w) == [Visit(w.cursor, PathOf(Opened(k)), CellsOf(k))] + WalkAll(f, Entered(w, k))
  {
    OpenedOk(f.strings, k);
    StepEnter(f, w, k);
    TracksEnter(f, w, k);
    ReportWalk(f, w, Entered(w, k), Visit(w.cursor, PathOf(Opened(k)), CellsOf(k)));
  }

  lemma {:induction false} ReportWalk(f: Blocks, w: WalkState, v: WalkState, visit: Visit)
    requires GoodWalk(f, w) && w.cursor < |f.structure| && TokenStep(f, w) == Report(v, visit)
    ensures GoodWalk(f, v) && v.cursor > w.cursor
    ensures WalkAll(f, w) == [visit] + WalkAll(f, v)
  {
    assert Next(f, w) == Found(v, visit);
  }

  predicate SilentOk(strings: seq<Byte>, k: Stack) {
    match k.items
    case Nop(_) => true
    case Property(no, _, _) => k.Inner? && no <= |strings|
    case Done => k.Inner?
    case Node(_, _, _) => false
  }

  // What is left after such a token, and how long the token is.
  function SilentStack(strings: seq<Byte>, k: Stack): Stack
    requires SilentOk(strings, k)
  {
    match k.items
    case Nop(r) => k.(items := r)
    case Property(_, _, _) => AfterProperty(strings, k)
    case Done => k.up
  }

  function SilentLen(k: Stack): nat {
    if k.items.Property? then PropertyLen(k.items.value) else 4
  }

  lemma {:induction false} AdvanceSilently(f: Blocks, w: WalkState, k: Stack) returns (v: WalkState, k': Stack)
    requires GoodWalk(f, w) && Tracks(f, w, k) && !k.items.Node? && !(k.items.Done? && k.Outer?) && NextFits(f.strings, k)
    ensures Silently(f, w, k, v, k')
    ensures SilentOk(f.strings, k) && k' == SilentStack(f.strings, k) && v.cursor == w.cursor + SilentLen(k)
  {
    if k.items.Nop? {
      NopPoint(f, w, k);
      v, k' := w.(cursor := w.cursor + 4), k.(items := k.items.rest);
    } else if k.items.Property? {
      PropertyOk(f.strings, k);
      PropertyPoint(f, w, k);
      v, k' := PastProperty(f.strings, w, k), AfterProperty(f.strings, k);
    } else {
      LeavePoint(f, w, k);
      v, k' := WalkState(w.cursor + 4, PathOf(k.up), FramesOf(k.up)), k.up;
    }
  }

  // An item that does not fit ends the walk.
  lemma {:induction false} Refuses(f: Blocks, w: WalkState, k: Stack)
    requires GoodWalk(f, w) && Tracks(f, w, k) && !NextFits(f.strings, k)
    ensures w.cursor < |f.structure| && TokenStep(f, w) == Halt && Pending(f.strings, k, w.cursor) == []
  {
    NothingPending(f.strings, k, w.cursor);
    if k.items.Node? {
      RefusesNode(f, w, k);
    } else {
      RefusesProperty(f, w, k);
    }
  }

  lemma {:induction false} NothingPending(strings: seq<Byte>, k: Stack, off: nat)
    requires StackOk(strings, k) && !NextFits(strings, k)
    ensures Pending(strings, k, off) == []
  {
    PendingIs(strings, k, off, Seen([], false), Later(strings, k, off + |Encode(k.items)|));
  }

  lemma {:induction false} RefusesNode(f: Blocks, w: WalkState, k: Stack)
    requires GoodWalk(f, w) && Tracks(f, w, k) && k.items.Node? && !NextFits(f.strings, k)
    ensures w.cursor < |f.structure| && TokenStep(f, w) == Halt
  {
    var rest := Encode(k.items.body) + Be32(END_NODE) + (Encode(k.items.rest) + After(f.strings, k));
    NodeAhead(f.strings, k, rest);
    NodeRefused(f, w, k.items.name, rest);
  }

  lemma {:induction false} RefusesProperty(f: Blocks, w: WalkState, k: Stack)
    requires GoodWalk(f, w) && Tracks(f, w, k) && k.items.Property? && !NextFits(f.strings, k)
    ensures w.cursor < |f.structure| && TokenStep(f, w) == Halt
  {
    var x, rest := EncodeProperty(k.items.nameoff, k.items.value), Encode(k.items.rest) + After(f.strings, k);
    assert Encode(k.items) == x + Encode(k.items.rest);
    Assoc(x, Encode(k.items.rest), After(f.strings, k));
    PropertyRefused(f, w, k.items.nameoff, k.items.value, rest);
  }

  lemma {:induction false} NodeAhead(strings: seq<Byte>, k: Stack, rest: seq<Byte>)
    requires StackOk(strings, k) && k.items.Node?
    requires rest == Encode(k.items.body) + Be32(END_NODE) + (Encode(k.items.rest) + After(strings, k))
    ensures Flatten(strings, k) == EncodeBegin(k.items.name) + rest
  {
    var x, y, z, r := EncodeBegin(k.items.name), Encode(k.items.body), Be32(END_NODE), Encode(k.items.rest);
    assert Encode(k.items) == x + y + z + r;
    Assoc(x + y + z, r, After(strings, k));
    Assoc(x + y, z, r + After(strings, k));
    Assoc(x, y, z + (r + After(strings, k)));
    Assoc(y, z, r + After(strings, k));
  }

  lemma {:induction false} NodeRefused(f: Blocks, w: WalkState, name: seq<Byte>, rest: seq<Byte>)
    requires GoodWalk(f, w) && 0 !in name && !NodeFits(|w.frames|, w.path, name)
    requires At(f.structure, w.cursor, EncodeBegin(name) + rest)
    ensures w.cursor < |f.structure| && TokenStep(f, w) == Halt
  {
    AtBegin(f.structure, w.cursor, name, rest);
    if |w.frames| < MAX_DEPTH {
      EnterIs(f, w, name);
    }
  }

  lemma {:induction false} PropertyRefused(f: Blocks, w: WalkState, nameoff: nat, value: seq<Byte>, rest: seq<Byte>)
    requires GoodWalk(f, w) && nameoff < WORD32 && |value| < WORD32 && Terminated(f.strings, nameoff)
    requires !PropertyFits(f.strings, |w.frames|, nameoff, |value|)
    requires At(f.structure, w.cursor, EncodeProperty(nameoff, value) + rest)
    ensures w.cursor < |f.structure| && TokenStep(f, w) == Halt
  {
    AtProperty(f.structure, w.cursor, nameoff, value, rest);
  }

  // From a point of the scan that k describes, the walker reports exactly the pending nodes.
  lemma {:induction false} WalkPending(f: Blocks, w: WalkState, k: Stack)
    requires GoodWalk(f, w) && Tracks(f, w, k)
    ensures WalkAll(f, w) == Pending(f.strings, k, w.cursor)
    decreases |f.structure| - w.cursor
  {
    if k.items.Done? && k.Outer? {
      StepEnd(f, w, k);
      assert Next(f, w) == Stop;
    } else if !NextFits(f.strings, k) {
      Refuses(f, w, k);
      assert Next(f, w) == Stop;
    } else if k.items.Node? {
      AdvanceNode(f, w, k);
      WalkPending(f, Entered(w, k), Opened(k));
    } else {
      var v, k' := AdvanceSilently(f, w, k);
      GotoWalk(f, w, v);
      WalkPending(f, v, k');
    }
  }

  // The structure block begins with the flattened form of t.
  ghost predicate Begins(f: Blocks, t: Items) {
    |f.structure| % 4 == 0 && Clean(f.strings, t) && Sized(t) && Encode(t) + Be32(END) <= f.structure
  }

  // And t keeps the walker's limits.
  ghost predicate Holds(f: Blocks, t: Items) {
    && |f.structure| % 4 == 0
    && Fits(f.strings, t, 0, [], MAX_DEPTH, MAX_PATH) && Sized(t)
    && Encode(t) + Be32(END) <= f.structure
  }

  // On any tree the walker reports the nodes in preorder up to the first item that does not
  // fit, and then stops.
  lemma {:induction false} WalkerTakes(f: Blocks, t: Items)
    requires Begins(f, t)
    ensures WalkAll(f, START) == Taken(f.strings, t, 0, 0, [], DEFAULT_CELLS).visits
    ensures WalkAll(f, START) <= Preorder(f.strings, t, 0, 0, [], DEFAULT_CELLS)
  {
    var k := Outer(t);
    assert f.structure[0..] == f.structure;
    var seen := Taken(f.strings, t, 0, 0, [], DEFAULT_CELLS);
    PendingIs(f.strings, k, 0, seen, []);
    assert Then(seen, []) == seen.visits;
    WalkPending(f, START, k);
    TakenPrefix(f.strings, t, 0, 0, [], DEFAULT_CELLS);
  }

  // The walker refines the tree: on a tree within the limits repeated calls report exactly
  // the nodes in preorder, each with its offset, its full path and its parent's cell counts,
  // and then stop.
  lemma {:induction false} WalkerRefinesTree(f: Blocks, t: Items)
    requires Holds(f, t)
    ensures WalkAll(f, START) == Preorder(f.strings, t, 0, 0, [], DEFAULT_CELLS)
  {
    FitsClean(f.strings, t, 0, [], MAX_DEPTH, MAX_PATH);
    WalkerTakes(f, t);
    TakenWhole(f.strings, t, 0, 0, [], DEFAULT_CELLS);
    TakenPrefix(f.strings, t, 0, 0, [], DEFAULT_CELLS);
  }

  // ---- After the walk ----

  // The state after calling until nothing more is found.
  function WalkEnd(f: Blocks, w: WalkState): (r: WalkState)
    requires GoodWalk(f, w)
    ensures GoodWalk(f, r)
    decreases |f.structure| - w.cursor
  {
    match Next(f, w)
    case Stop => Stopped(f, w)
    case Found(v, visit) => WalkEnd(f, v)
  }

  // Everything still to come fits.
  ghost predicate StackFits(strings: seq<Byte>, k: Stack) {
    && Fits(strings, k.items, Depth(k), PathOf(k), MAX_DEPTH, MAX_PATH)
    && (k.Inner? ==> StackFits(strings, k.up))
  }

  lemma {:induction false} FitsNext(strings: seq<Byte>, k: Stack)
    requires StackOk(strings, k) && StackFits(strings, k)
    ensures NextFits(strings, k)
    ensures k.items.Node? ==> StackFits(strings, Opened(k))
    ensures SilentOk(strings, k) ==> StackFits(strings, SilentStack(strings, k))
  {
    if k.items.Node? {
      assert Depth(Opened(k).up) == Depth(k) && PathOf(Opened(k).up) == PathOf(k);
    }
  }

  lemma {:induction false} SilentBytes(strings: seq<Byte>, k: Stack)
    requires StackOk(strings, k) && NextFits(strings, k) && SilentOk(strings, k) && StackOk(strings, SilentStack(strings, k))
    ensures |Flatten(strings, k)| == SilentLen(k) + |Flatten(strings, SilentStack(strings, k))|
  {
    match k.items
    case Nop(_) => PeelNop(strings, k, 0);
    case Property(_, _, _) =>
      PropertyOk(strings, k);
      PeelProperty(strings, k);
    case Done => PeelDone(strings, k, 0);
  }

  lemma {:induction false} GotoEnd(f: Blocks, w: WalkState, v: WalkState)
    requires GoodWalk(f, w) && w.cursor < |f.structure| && TokenStep(f, w) == Goto(v)
    ensures WalkEnd(f, w) == WalkEnd(f, v)
  {
    assert Next(f, w) == Next(f, v);
    assert LastAt(f, w) == LastAt(f, v);
  }

  // If everything fits, the walk uses up all the bytes of the tree and the end token.
  lemma {:induction false} WalkConsumes(f: Blocks, w: WalkState, k: Stack)
    requires GoodWalk(f, w) && Tracks(f, w, k) && StackFits(f.strings, k)
    ensures WalkEnd(f, w).cursor == w.cursor + |Flatten(f.strings, k)|
    decreases |f.structure| - w.cursor
  {
    FitsNext(f.strings, k);
    if k.items.Done? && k.Outer? {
      StepEnd(f, w, k);
      assert Next(f, w) == Stop && LastAt(f, w) == w;
      assert Flatten(f.strings, k) == Be32(END) + [];
      AtToken(f.structure, w.cursor, END, []);
    } else if k.items.Node? {
      NodePoint(f, w, k);
      StepEnter(f, w, k);
      PeelNodeBytes(f.strings, k);
      WalkConsumes(f, Entered(w, k), Opened(k));
      assert Next(f, w) == Found(Entered(w, k), Visit(w.cursor, PathOf(Opened(k)), CellsOf(k)));
    } else {
      var v, k' := AdvanceSilently(f, w, k);
      GotoEnd(f, w, v);
      SilentBytes(f.strings, k);
      WalkConsumes(f, v, k');
    }
  }

  // On a block that is exactly a tree within the limits and its end token, the walk ends at
  // the end of the block, so every further call finds nothing either.
  lemma {:induction false} FurtherCallsStop(f: Blocks, t: Items)
    requires Holds(f, t) && f.structure == Encode(t) + Be32(END)
    ensures WalkEnd(f, START).cursor == |f.structure|
    ensures Next(f, WalkEnd(f, START)) == Stop && Stopped(f, WalkEnd(f, START)) == WalkEnd(f, START)
  {
    FitsClean(f.strings, t, 0, [], MAX_DEPTH, MAX_PATH);
    assert f.structure[0..] == f.structure;
    WalkConsumes(f, START, Outer(t));
  }
}
