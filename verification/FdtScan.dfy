/** The token scanners of kernel/src/dev/fdt.c as functions of the bytes, and what they
    compute on the flattened form of a devicetree. */
module FdtScan {
  import opened DeviceTree

  const MAX_DEPTH: nat := 32
  const MAX_PATH: nat := 256

  // The two blocks of a blob that fdt_init locates.
  datatype Blocks = Blocks(structure: seq<Byte>, strings: seq<Byte>)

  // What the walker remembers of an open node: the length of the path above it, and the
  // cell counts its children see.
  datatype Frame = Frame(pathLen: nat, cells: Cells)

  datatype WalkState = WalkState(cursor: nat, path: seq<Byte>, frames: seq<Frame>)

  // One token: the scan ends, goes on, or reports a node.
  datatype Step = Halt | Goto(w: WalkState) | Report(w: WalkState, visit: Visit)

  datatype Outcome = Stop | Found(next: WalkState, visit: Visit)

  // The lengths saved in the frames shrink towards the root, where the path is empty.
  ghost predicate Nested(frames: seq<Frame>, n: nat) {
    if frames == [] then n == 0
    else
      var last := frames[|frames| - 1];
      last.pathLen <= n && Nested(frames[..|frames| - 1], last.pathLen)
  }

  ghost predicate GoodWalk(f: Blocks, w: WalkState) {
    && |f.structure| % 4 == 0
    && w.cursor % 4 == 0 && w.cursor <= |f.structure|
    && |w.path| < MAX_PATH && 0 !in w.path && |w.frames| <= MAX_DEPTH && Nested(w.frames, |w.path|)
  }

  const START := WalkState(0, [], [])

  // One property token: the walker keeps the counts its children will see.
  function Noted(strings: seq<Byte>, frames: seq<Frame>, nameoff: nat, value: seq<Byte>): (r: seq<Frame>)
    requires frames != [] && nameoff <= |strings|
    ensures |r| == |frames|
  {
    var last := frames[|frames| - 1];
    frames[..|frames| - 1] + [last.(cells := SetCells(strings, last.cells, nameoff, value))]
  }

  // The property is a cell count but is not one word.
  predicate BadCells(strings: seq<Byte>, nameoff: nat, len: nat)
    requires nameoff <= |strings|
  {
    (CStr(strings, nameoff) == ADDRESS_CELLS || CStr(strings, nameoff) == SIZE_CELLS) && len != 4
  }

  // Entering the node with this name, if the path buffer holds its path.
  function EnterNamed(w: WalkState, name: seq<Byte>): Step {
    var path := ChildPath(|w.frames|, w.path, name);
    if |path| >= MAX_PATH then Halt
    else
      Report(WalkState(w.cursor + 4 + Align4(|name| + 1), path, w.frames + [Frame(|w.path|, DEFAULT_CELLS)]),
             Visit(w.cursor, path, CellsAbove(w)))
  }

  function CellsAbove(w: WalkState): Cells {
    if w.frames == [] then DEFAULT_CELLS else w.frames[|w.frames| - 1].cells
  }

  lemma {:induction false} EnterNamedIs(w: WalkState, name: seq<Byte>, cursor: nat, path: seq<Byte>, frames: seq<Frame>)
    requires path == ChildPath(|w.frames|, w.path, name) && |path| < MAX_PATH
    requires frames == w.frames + [Frame(|w.path|, DEFAULT_CELLS)] && cursor == w.cursor + 4 + Align4(|name| + 1)
    ensures EnterNamed(w, name) == Report(WalkState(cursor, path, frames), Visit(w.cursor, path, CellsAbove(w)))
  {
  }

  // BEGIN_NODE at w.cursor.
  function Enter(f: Blocks, w: WalkState): (r: Step)
    requires GoodWalk(f, w) && w.cursor < |f.structure|
    ensures !r.Goto? && (r.Report? ==> GoodWalk(f, r.w) && r.w.cursor > w.cursor && r.w.path == r.visit.path)
  {
    var c := w.cursor + 4;
    if |w.frames| >= MAX_DEPTH || !Terminated(f.structure, c) then Halt
    else
      var name := CStr(f.structure, c);
      StrLenBytes(f.structure, c);
      EnterGood(f, w, name);
      EnterNamed(w, name)
  }

  lemma {:induction false} EnterIs(f: Blocks, w: WalkState, name: seq<Byte>)
    requires GoodWalk(f, w) && w.cursor < |f.structure| && Read32(f.structure, w.cursor) == BEGIN_NODE
    requires |w.frames| < MAX_DEPTH && Terminated(f.structure, w.cursor + 4) && name == CStr(f.structure, w.cursor + 4)
    ensures TokenStep(f, w) == EnterNamed(w, name)
    ensures EnterNamed(w, name).Report? ==> GoodWalk(f, EnterNamed(w, name).w)
  {
    var r := Enter(f, w);
  }

  // Too many open nodes, or a name that does not end.
  lemma {:induction false} EnterRefused(f: Blocks, w: WalkState)
    requires GoodWalk(f, w) && w.cursor < |f.structure| && Read32(f.structure, w.cursor) == BEGIN_NODE
    requires |w.frames| >= MAX_DEPTH || !Terminated(f.structure, w.cursor + 4)
    ensures TokenStep(f, w) == Halt && HaltCursor(f, w) == w.cursor + 4 && !SlashLeft(f, w)
  {
  }

  lemma {:induction false} EnterGood(f: Blocks, w: WalkState, name: seq<Byte>)
    requires GoodWalk(f, w) && |w.frames| < MAX_DEPTH && w.cursor + 4 + |name| < |f.structure| && 0 !in name
    ensures var r := EnterNamed(w, name);
            r.Report? ==> GoodWalk(f, r.w) && r.w.cursor > w.cursor && r.w.path == r.visit.path
  {
    var path := ChildPath(|w.frames|, w.path, name);
    NestedPush(w.frames, |w.path|, Frame(|w.path|, DEFAULT_CELLS), |path|);
    AlignShift(w.cursor + 4, |name| + 1);
    AlignInside(w.cursor + 4 + |name| + 1, |f.structure|);
  }

  lemma {:induction false} AlignShift(c: nat, x: nat)
    requires c % 4 == 0
    ensures Align4(c + x) == c + Align4(x)
  {
  }

  lemma {:induction false} StrLenBytes(s: seq<Byte>, i: nat)
    requires i <= |s|
    ensures forall k :: i <= k < i + StrLen(s, i) ==> s[k] != 0
    ensures Terminated(s, i) ==> s[i + StrLen(s, i)] == 0
    ensures 0 !in CStr(s, i)
    decreases |s| - i
  {
    if i < |s| && s[i] != 0 {
      StrLenBytes(s, i + 1);
    }
  }

  // END_NODE at w.cursor.
  function Leave(f: Blocks, w: WalkState): (r: Step)
    requires GoodWalk(f, w) && w.cursor < |f.structure|
    ensures !r.Report? && (r.Goto? ==> GoodWalk(f, r.w) && r.w.cursor > w.cursor)
  {
    var depth := |w.frames|;
    if depth == 0 then Halt
    else Goto(WalkState(w.cursor + 4, w.path[..w.frames[depth - 1].pathLen], w.frames[..depth - 1]))
  }

  // PROP at w.cursor.
  function Note(f: Blocks, w: WalkState): (r: Step)
    requires GoodWalk(f, w) && w.cursor < |f.structure|
    ensures !r.Report? && (r.Goto? ==> GoodWalk(f, r.w) && r.w.cursor > w.cursor)
  {
    var c := w.cursor + 4;
    if |f.structure| - c < 8 then Halt
    else
      var len, nameoff := Read32(f.structure, c), Read32(f.structure, c + 4);
      if |f.structure| - (c + 8) < len || !Terminated(f.strings, nameoff) || w.frames == [] then Halt
      else if BadCells(f.strings, nameoff, len) then Halt
      else
        var frames := Noted(f.strings, w.frames, nameoff, f.structure[c + 8..c + 8 + len]);
        NestedNoted(w.frames, frames, |w.path|);
        AlignInside(c + 8 + len, |f.structure|);
        Goto(WalkState(Align4(c + 8 + len), w.path, frames))
  }

  // After a property token: the value lies inside the block and the name inside the strings.
  predicate InOrder(f: Blocks, c: nat) {
    && |f.structure| - c >= 8
    && Read32(f.structure, c) <= |f.structure| - (c + 8)
    && Terminated(f.strings, Read32(f.structure, c + 4))
  }

  lemma {:induction false} NoteRefused(f: Blocks, w: WalkState)
    requires GoodWalk(f, w) && w.cursor < |f.structure| && Read32(f.structure, w.cursor) == PROP
    requires !InOrder(f, w.cursor + 4) || w.frames == []
    ensures TokenStep(f, w) == Halt
    ensures HaltCursor(f, w) == if |f.structure| - (w.cursor + 4) < 8 then w.cursor + 4 else w.cursor + 12
  {
  }

  // A property whose bytes and name are in order: what becomes of it.
  lemma {:induction false} NoteIs(f: Blocks, w: WalkState, c: nat, len: nat, nameoff: nat, v: WalkState)
    requires GoodWalk(f, w) && w.cursor < |f.structure| && Read32(f.structure, w.cursor) == PROP
    requires InOrder(f, w.cursor + 4) && w.frames != [] && c == w.cursor + 12
    requires len == Read32(f.structure, w.cursor + 4) && nameoff == Read32(f.structure, w.cursor + 8)
    requires v == WalkState(Align4(c + len), w.path, Noted(f.strings, w.frames, nameoff, f.structure[c..c + len]))
    ensures TokenStep(f, w) == (if BadCells(f.strings, nameoff, len) then Halt else Goto(v))
    ensures HaltCursor(f, w) == Align4(c + len)
    ensures !BadCells(f.strings, nameoff, len) ==> GoodWalk(f, v)
  {
    var r := Note(f, w);
  }

  function TokenStep(f: Blocks, w: WalkState): (r: Step)
    requires GoodWalk(f, w) && w.cursor < |f.structure|
    ensures r.Goto? ==> GoodWalk(f, r.w) && r.w.cursor > w.cursor
    ensures r.Report? ==> GoodWalk(f, r.w) && r.w.cursor > w.cursor && r.w.path == r.visit.path
  {
    var token := Read32(f.structure, w.cursor);
    if token == BEGIN_NODE then Enter(f, w)
    else if token == END_NODE then Leave(f, w)
    else if token == PROP then Note(f, w)
    else if token == NOP then Goto(w.(cursor := w.cursor + 4))
    else Halt
  }

  // The tokens that end the walk: a node too deep, without an end to its name or with too
  // long a path; an end of no node; a property that is cut off, has no name, stands in no
  // node or is a cell count of more or less than one word; and every word that is no token.
  lemma {:induction false} HaltsExactly(f: Blocks, w: WalkState)
    requires GoodWalk(f, w) && w.cursor < |f.structure|
    ensures TokenStep(f, w) == Halt <==>
            var token := Read32(f.structure, w.cursor);
            if token == 1 then
              |w.frames| >= 32 || NoEnd(f.structure, w.cursor + 4)
              || |ChildPath(|w.frames|, w.path, CStr(f.structure, w.cursor + 4))| >= 256
            else if token == 2 then w.frames == []
            else if token == 3 then w.frames == [] || !InOrder(f, w.cursor + 4) || MiscountsCells(f, w.cursor + 4)
            else token != 4
  {
    EndOrNone(f.structure, w.cursor + 4);
    if Read32(f.structure, w.cursor) == 1 {
      if |w.frames| >= 32 || NoEnd(f.structure, w.cursor + 4) {
        EnterRefused(f, w);
      } else {
        EnterIs(f, w, CStr(f.structure, w.cursor + 4));
      }
    } else if Read32(f.structure, w.cursor) == 3 && InOrder(f, w.cursor + 4) && w.frames != [] {
      PropertyHalts(f, w, w.cursor + 12, Read32(f.structure, w.cursor + 4), Read32(f.structure, w.cursor + 8));
    }
  }

  // The name of a property whose bytes are in order is that of a cell count, but its
  // length is not four.
  predicate MiscountsCells(f: Blocks, c: nat)
    requires InOrder(f, c)
  {
    var name := CStr(f.strings, Read32(f.structure, c + 4));
    (name == Ascii("#address-cells") || name == Ascii("#size-cells")) && Read32(f.structure, c) != 4
  }

  lemma {:induction false} PropertyHalts(f: Blocks, w: WalkState, c: nat, len: nat, nameoff: nat)
    requires GoodWalk(f, w) && w.cursor < |f.structure| && Read32(f.structure, w.cursor) == PROP
    requires InOrder(f, w.cursor + 4) && w.frames != [] && c == w.cursor + 12
    requires len == Read32(f.structure, w.cursor + 4) && nameoff == Read32(f.structure, w.cursor + 8)
    ensures TokenStep(f, w) == Halt <==> MiscountsCells(f, w.cursor + 4)
  {
    var v := WalkState(Align4(c + len), w.path, Noted(f.strings, w.frames, nameoff, f.structure[c..c + len]));
    NoteIs(f, w, c, len, nameoff, v);
  }

  predicate NoEnd(s: seq<Byte>, i: nat) {
    forall k :: i <= k < |s| ==> s[k] != 0
  }

  lemma {:induction false} EndOrNone(s: seq<Byte>, i: nat)
    ensures Terminated(s, i) <==> !NoEnd(s, i)
    decreases |s| - i
  {
    if i < |s| && s[i] != 0 {
      EndOrNone(s, i + 1);
    }
  }

  // fdt_walk_next_node: on any bytes, stops or reports a node further on.
  function Next(f: Blocks, w: WalkState): (r: Outcome)
    requires GoodWalk(f, w)
    ensures r.Found? ==> GoodWalk(f, r.next) && r.next.cursor > w.cursor && r.next.path == r.visit.path
    decreases |f.structure| - w.cursor
  {
    if w.cursor >= |f.structure| then Stop
    else
      match TokenStep(f, w)
      case Halt => Stop
      case Goto(v) => Next(f, v)
      case Report(v, visit) => Found(v, visit)
  }

  // Every node the walker reports from w on.
  function WalkAll(f: Blocks, w: WalkState): seq<Visit>
    requires GoodWalk(f, w)
    decreases |f.structure| - w.cursor
  {
    match Next(f, w)
    case Stop => []
    case Found(v, visit) => [visit] + WalkAll(f, v)
  }

  // ---- Where the walk stops ----

  // Where a refused token leaves the cursor: past what has been read.
  function HaltCursor(f: Blocks, w: WalkState): (c: nat)
    requires GoodWalk(f, w) && w.cursor < |f.structure|
    ensures w.cursor < c <= |f.structure| && c % 4 == 0
  {
    var c := w.cursor + 4;
    if Read32(f.structure, w.cursor) != PROP || |f.structure| - c < 8 then c
    else
      var len := Read32(f.structure, c);
      AlignInside(if |f.structure| - (c + 8) < len then 0 else c + 8 + len, |f.structure|);
      if |f.structure| - (c + 8) < len || !Terminated(f.strings, Read32(f.structure, c + 4)) || w.frames == [] then c + 8
      else Align4(c + 8 + len)
  }

  // The state at the token that ends the walk, or at the end of the block.
  function LastAt(f: Blocks, w: WalkState): (r: WalkState)
    requires GoodWalk(f, w)
    ensures GoodWalk(f, r)
    decreases |f.structure| - w.cursor
  {
    if w.cursor >= |f.structure| then w
    else
      match TokenStep(f, w)
      case Halt => w
      case Goto(v) => LastAt(f, v)
      case Report(v, visit) => w
  }

  // The state fdt_walk_next_node leaves when it finds nothing more.
  function Stopped(f: Blocks, w: WalkState): (r: WalkState)
    requires GoodWalk(f, w)
    ensures GoodWalk(f, r)
  {
    var v := LastAt(f, w);
    if v.cursor >= |f.structure| then v else v.(cursor := HaltCursor(f, v))
  }

  // A child node whose name does not fit the path buffer although a slash after its
  // parent's path does: the slash has been written over the terminator.
  predicate SlashLeft(f: Blocks, w: WalkState)
    requires GoodWalk(f, w)
  {
    && w.cursor < |f.structure| && Read32(f.structure, w.cursor) == BEGIN_NODE
    && 0 < |w.frames| < MAX_DEPTH && Terminated(f.structure, w.cursor + 4)
    && SlashOnly(w.path, StrLen(f.structure, w.cursor + 4))
  }

  predicate SlashOnly(path: seq<Byte>, nameLen: nat) {
    && (path == [] || path[|path| - 1] != SLASH)
    && |path| + 1 < MAX_PATH <= |path| + 1 + nameLen
  }

  lemma {:induction false} NestedPush(frames: seq<Frame>, n: nat, top: Frame, m: nat)
    requires Nested(frames, n) && top.pathLen == n <= m
    ensures Nested(frames + [top], m)
  {
    assert (frames + [top])[..|frames|] == frames;
  }

  lemma {:induction false} NestedNoted(frames: seq<Frame>, r: seq<Frame>, n: nat)
    requires Nested(frames, n) && frames != [] && |r| == |frames|
    requires r[..|r| - 1] == frames[..|r| - 1] && r[|r| - 1].pathLen == frames[|r| - 1].pathLen
    ensures Nested(r, n)
  {
  }

  lemma {:induction false} AlignInside(x: nat, n: nat)
    requires x <= n && n % 4 == 0
    ensures Align4(x) <= n
  {
  }
}
