/** The flattened-devicetree reader of kernel/src/dev/fdt.c: the walker with its path
    buffer and frame stack, and the string helpers of kernel/src/lib/string.c it calls. */
module Fdt {
  import opened DeviceTree
  import opened FdtScan

  // strnlen
  method StrNLen(s: seq<Byte>, from: nat, maxLen: nat) returns (len: nat)
    requires from + maxLen <= |s|
    ensures len <= maxLen
    ensures forall k :: from <= k < from + len ==> s[k] != 0
    ensures len < maxLen ==> s[from + len] == 0
  {
    len := 0;
    while len < maxLen && s[from + len] != 0
      invariant len <= maxLen
      invariant forall k :: from <= k < from + len ==> s[k] != 0
    {
      len := len + 1;
    }
  }

  lemma {:induction false} StrLenUpTo(s: seq<Byte>, i: nat, n: nat)
    requires i + n <= |s| && forall k :: i <= k < i + n ==> s[k] != 0
    requires i + n < |s| ==> s[i + n] == 0
    ensures StrLen(s, i) == n
    decreases n
  {
    if n > 0 {
      StrLenUpTo(s, i + 1, n - 1);
    }
  }

  // fdt_bounded_strlen: the limit is the end of s.
  method BoundedStrLen(s: seq<Byte>, from: nat) returns (ok: bool, len: nat)
    requires from <= |s|
    ensures ok == Terminated(s, from) && len == StrLen(s, from)
  {
    len := StrNLen(s, from, |s| - from);
    StrLenUpTo(s, from, len);
    ok := from + len < |s|;
  }

  // fdt_prop_name_valid
  method PropNameValid(strings: seq<Byte>, nameoff: nat) returns (ok: bool)
    ensures ok == Terminated(strings, nameoff)
  {
    if nameoff >= |strings| {
      return false;
    }
    var idx := nameoff;
    while idx < |strings|
      invariant nameoff <= idx <= |strings|
      invariant forall k :: nameoff <= k < idx ==> strings[k] != 0
    {
      if strings[idx] == 0 {
        StrLenUpTo(strings, nameoff, idx - nameoff);
        return true;
      }
      idx := idx + 1;
    }
    StrLenUpTo(strings, nameoff, idx - nameoff);
    ok := false;
  }

  // The lexicographic order of strings by their bytes.
  ghost predicate Precedes(a: seq<Byte>, b: seq<Byte>) {
    exists n: nat :: DiffersAt(a, b, n)
  }

  // They agree up to n, where a ends or has the smaller byte.
  ghost predicate DiffersAt(a: seq<Byte>, b: seq<Byte>, n: nat) {
    n <= |a| && n < |b| && a[..n] == b[..n] && (n == |a| || a[n] < b[n])
  }

  lemma {:induction false} PrecedesOneWay(a: seq<Byte>, b: seq<Byte>, n: nat)
    requires DiffersAt(a, b, n)
    ensures Precedes(a, b) && !Precedes(b, a) && a != b
  {
    forall m: nat
      ensures !DiffersAt(b, a, m)
    {
      if m < n && m < |b| {
        assert a[..n][m] == b[..n][m];
      } else if n < m && m <= |b| {
        assert b[..m][n] == b[n];
      }
    }
  }

  // strcmp, on strings that end inside their buffers.
  method StrCmp(a: seq<Byte>, i: nat, b: seq<Byte>, j: nat) returns (r: int)
    requires Terminated(a, i) && Terminated(b, j)
    ensures r == 0 <==> CStr(a, i) == CStr(b, j)
    ensures r == -1 <==> Precedes(CStr(a, i), CStr(b, j))
    ensures r == 1 <==> Precedes(CStr(b, j), CStr(a, i))
  {
    var k := 0;
    StrLenBytes(a, i);
    StrLenBytes(b, j);
    while a[i + k] != 0 && b[j + k] != 0
      invariant k <= StrLen(a, i) && k <= StrLen(b, j)
      invariant a[i..i + k] == b[j..j + k]
      decreases |a| - k
    {
      if a[i + k] != b[j + k] {
        assert CStr(a, i)[..k] == a[i..i + k] && CStr(b, j)[..k] == b[j..j + k];
        assert CStr(a, i)[k] == a[i + k] && CStr(b, j)[k] == b[j + k];
        Ordered(CStr(a, i), CStr(b, j), k);
        return if a[i + k] < b[j + k] then -1 else 1;
      }
      assert a[i..i + k + 1] == a[i..i + k] + [a[i + k]];
      assert b[j..j + k + 1] == b[j..j + k] + [b[j + k]];
      k := k + 1;
    }
    if a[i + k] == b[j + k] {
      assert k == StrLen(a, i) == StrLen(b, j);
      assert CStr(a, i) == CStr(b, j);
      NoneFirst(CStr(a, i));
      return 0;
    }
    assert CStr(a, i)[..k] == a[i..i + k] && CStr(b, j)[..k] == b[j..j + k];
    Ordered(CStr(a, i), CStr(b, j), k);
    r := if a[i + k] == 0 then -1 else 1;
  }

  lemma {:induction false} NoneFirst(a: seq<Byte>)
    ensures !Precedes(a, a)
  {
  }

  lemma {:induction false} Ordered(a: seq<Byte>, b: seq<Byte>, k: nat)
    requires k <= |a| && k <= |b| && a[..k] == b[..k]
    requires k < |a| && k < |b| ==> a[k] != b[k]
    requires k < |a| || k < |b|
    ensures a != b
    ensures if k < |b| && (k == |a| || a[k] < b[k]) then Precedes(a, b) && !Precedes(b, a)
            else Precedes(b, a) && !Precedes(a, b)
  {
    if k < |b| && (k == |a| || a[k] < b[k]) {
      PrecedesOneWay(a, b, k);
    } else {
      PrecedesOneWay(b, a, k);
    }
  }

  // memcpy into the path buffer
  method CopyBytes(dest: array<Byte>, at: nat, src: seq<Byte>, from: nat, n: nat)
    requires at + n <= dest.Length && from + n <= |src|
    modifies dest
    ensures dest[..] == old(dest[..at]) + src[from..from + n] + old(dest[at + n..])
  {
    ghost var before := dest[..];
    for i := 0 to n
      invariant forall k :: 0 <= k < dest.Length ==> dest[k] == if at <= k < at + i then src[from + k - at] else before[k]
    {
      dest[at + i] := src[from + i];
    }
  }

  // fdt_prop_get_u32 on a value inside the structure block
  function PropU32(value: seq<Byte>): (r: nat)
    requires |value| == 4
  {
    Read32(value, 0)
  }

  class Walker {
    const f: Blocks
    var cursor: nat
    const path: array<Byte>
    const frames: array<Frame>
    var depth: nat
    var pathLen: nat

    ghost predicate Shape()
      reads this
    {
      path.Length == MAX_PATH && frames.Length == MAX_DEPTH && depth <= MAX_DEPTH && pathLen < MAX_PATH
    }

    ghost function State(): WalkState
      requires Shape()
      reads this, path, frames
    {
      WalkState(cursor, path[..pathLen], frames[..depth])
    }

    // The path buffer holds a NUL-terminated path.
    ghost predicate Valid()
      reads this, path, frames
    {
      Shape() && path[pathLen] == 0 && GoodWalk(f, State())
    }

    // The walker has read the token at w.
    ghost predicate Past(w: WalkState)
      reads this, path, frames
    {
      Shape() && path[pathLen] == 0 && GoodWalk(f, w) && w.cursor < |f.structure|
      && State() == w.(cursor := w.cursor + 4)
    }

    // The walk has ended at the token at w: the path is still that of the open nodes, and
    // its terminator is there unless a slash has been left in its place.
    ghost predicate Ended(w: WalkState)
      reads this, path, frames
    {
      && Shape() && GoodWalk(f, w) && w.cursor < |f.structure| && TokenStep(f, w) == Halt
      && State() == w.(cursor := HaltCursor(f, w))
      && (path[pathLen] == 0 <==> !SlashLeft(f, w))
    }

    // fdt_walk_init
    constructor (blocks: Blocks)
      requires |blocks.structure| % 4 == 0
      ensures Valid() && f == blocks && State() == START && fresh(path) && fresh(frames)
    {
      f := blocks;
      cursor, depth, pathLen := 0, 0, 0;
      path := new Byte[MAX_PATH](_ => 0);
      frames := new Frame[MAX_DEPTH](_ => Frame(0, Cells(0, 0)));
    }

    // Appends a name to the path buffer, after a slash unless one is there already.
    method AppendName(name: nat, nameLen: nat) returns (ok: bool)
      requires Shape() && path[pathLen] == 0 && name + nameLen <= |f.structure|
      requires depth > 0
      modifies path, this`pathLen
      ensures Shape()
      ensures var p := ChildPath(depth, old(path[..pathLen]), f.structure[name..name + nameLen]);
              && (ok <==> |p| < MAX_PATH)
              && (ok ==> pathLen == |p| && path[..pathLen] == p && path[pathLen] == 0)
      ensures !ok ==> pathLen == old(pathLen) && path[..pathLen] == old(path[..pathLen])
      ensures !ok ==> (path[pathLen] == 0 <==> !SlashOnly(old(path[..pathLen]), nameLen))
    {
      var newLen := pathLen;
      if newLen == 0 || path[newLen - 1] != SLASH {
        if newLen + 1 >= MAX_PATH {
          return false;
        }
        path[newLen] := SLASH;
        newLen := newLen + 1;
      }
      if newLen + nameLen >= MAX_PATH {
        return false;
      }
      ghost var upTo := path[..newLen];
      CopyBytes(path, newLen, f.structure, name, nameLen);
      newLen := newLen + nameLen;
      assert path[..newLen] == upTo + f.structure[name..name + nameLen];
      path[newLen] := 0;
      assert path[..newLen] == upTo + f.structure[name..name + nameLen];
      pathLen := newLen;
      ok := true;
    }

    // The path on entering a node: "/" for the outermost.
    method EnterPath(name: nat, nameLen: nat) returns (ok: bool)
      requires Shape() && path[pathLen] == 0 && name + nameLen <= |f.structure|
      modifies path, this`pathLen
      ensures Shape()
      ensures var p := ChildPath(depth, old(path[..pathLen]), f.structure[name..name + nameLen]);
              && (ok <==> |p| < MAX_PATH)
              && (ok ==> pathLen == |p| && path[..pathLen] == p && path[pathLen] == 0)
      ensures !ok ==> depth > 0 && pathLen == old(pathLen) && path[..pathLen] == old(path[..pathLen])
      ensures !ok ==> (path[pathLen] == 0 <==> !SlashOnly(old(path[..pathLen]), nameLen))
    {
      if depth == 0 {
        path[0] := SLASH;
        path[1] := 0;
        pathLen := 1;
        ok := true;
      } else {
        ok := AppendName(name, nameLen);
      }
    }

    // The FDT_BEGIN_NODE case.
    method EnterNode(ghost w: WalkState) returns (ok: bool, visit: Visit)
      requires Past(w) && Read32(f.structure, w.cursor) == BEGIN_NODE
      modifies this, path, frames
      ensures ok ==> Valid() && TokenStep(f, w) == Report(State(), visit)
      ensures !ok ==> Ended(w)
    {
      visit := Visit(0, [], DEFAULT_CELLS);
      if depth >= MAX_DEPTH {
        EnterRefused(f, w);
        return false, visit;
      }
      var bounded, nameLen := BoundedStrLen(f.structure, cursor);
      if !bounded {
        EnterRefused(f, w);
        return false, visit;
      }
      ghost var name := f.structure[cursor..cursor + nameLen];
      EnterIs(f, w, name);
      ok, visit := OpenNode(nameLen, w, name);
    }

    // Saves the frame, extends the path and moves past a name of known length.
    method OpenNode(nameLen: nat, ghost w: WalkState, ghost name: seq<Byte>) returns (ok: bool, visit: Visit)
      requires Shape() && path[pathLen] == 0 && depth < MAX_DEPTH && w.cursor % 4 == 0
      requires State() == w.(cursor := w.cursor + 4) && cursor + nameLen <= |f.structure|
      requires name == f.structure[cursor..cursor + nameLen]
      modifies this, path, frames
      ensures Shape()
      ensures EnterNamed(w, name) == if ok then Report(State(), visit) else Halt
      ensures ok ==> path[pathLen] == 0
      ensures !ok ==> State() == old(State()) && depth > 0
                      && (path[pathLen] == 0 <==> !SlashOnly(w.path, nameLen))
    {
      var cells := if depth > 0 then frames[depth - 1].cells else DEFAULT_CELLS;
      var token := cursor - 4;
      SaveFrame();
      visit := Visit(0, [], DEFAULT_CELLS);
      ok := EnterPath(cursor, nameLen);
      if !ok {
        return;
      }
      depth := depth + 1;
      AlignShift(cursor, nameLen + 1);
      EnterNamedIs(w, name, Align4(cursor + nameLen + 1), path[..pathLen], frames[..depth]);
      cursor := Align4(cursor + nameLen + 1);
      visit := Visit(token, path[..pathLen], cells);
    }

    method SaveFrame()
      requires Shape() && depth < MAX_DEPTH
      modifies frames
      ensures frames[..depth] == old(frames[..depth])
      ensures frames[..depth + 1] == old(frames[..depth]) + [Frame(pathLen, DEFAULT_CELLS)]
    {
      frames[depth] := Frame(pathLen, DEFAULT_CELLS);
    }

    // The FDT_END_NODE case.
    method LeaveNode(ghost w: WalkState) returns (ok: bool)
      requires Past(w) && Read32(f.structure, w.cursor) == END_NODE
      modifies this, path
      ensures ok ==> Valid() && TokenStep(f, w) == Goto(State())
      ensures !ok ==> Ended(w)
    {
      if depth == 0 {
        return false;
      }
      depth := depth - 1;
      pathLen := frames[depth].pathLen;
      path[pathLen] := 0;
      assert frames[..depth] == w.frames[..depth];
      assert path[..pathLen] == w.path[..pathLen];
      ok := true;
    }

    // The FDT_PROP case.
    method NoteProperty(ghost w: WalkState) returns (ok: bool)
      requires Past(w) && Read32(f.structure, w.cursor) == PROP
      modifies this`cursor, frames
      ensures ok ==> Valid() && TokenStep(f, w) == Goto(State())
      ensures !ok ==> Ended(w)
    {
      var len, nameoff;
      ok, len, nameoff := ReadProperty();
      if !ok {
        NoteRefused(f, w);
        return;
      }
      ghost var v := WalkState(Align4(cursor + len), w.path,
                               Noted(f.strings, w.frames, nameoff, f.structure[cursor..cursor + len]));
      NoteIs(f, w, cursor, len, nameoff, v);
      ok := PassValue(len, nameoff);
      assert ok ==> State() == v;
    }

    // The length and name offset of a property, and the tests on them.
    method ReadProperty() returns (ok: bool, len: nat, nameoff: nat)
      requires cursor <= |f.structure|
      modifies this`cursor
      ensures ok <==> InOrder(f, old(cursor)) && depth > 0
      ensures ok ==> len == Read32(f.structure, old(cursor)) && nameoff == Read32(f.structure, old(cursor) + 4)
      ensures cursor == if |f.structure| - old(cursor) < 8 then old(cursor) else old(cursor) + 8
    {
      len, nameoff := 0, 0;
      if |f.structure| - cursor < 8 {
        return false, len, nameoff;
      }
      len := Read32(f.structure, cursor);
      nameoff := Read32(f.structure, cursor + 4);
      cursor := cursor + 8;
      if |f.structure| - cursor < len {
        return false, len, nameoff;
      }
      var named := PropNameValid(f.strings, nameoff);
      ok := named && depth != 0;
    }

    // Moves past the value, recording it if it is a cell count.
    method PassValue(len: nat, nameoff: nat) returns (ok: bool)
      requires Shape() && cursor + len <= |f.structure| && depth > 0 && Terminated(f.strings, nameoff)
      modifies this`cursor, frames
      ensures Shape() && cursor == Align4(old(cursor) + len)
      ensures ok <==> !BadCells(f.strings, nameoff, len)
      ensures frames[..depth] == if ok then Noted(f.strings, old(frames[..depth]), nameoff, f.structure[old(cursor)..old(cursor) + len])
                                 else old(frames[..depth])
    {
      var value := f.structure[cursor..cursor + len];
      cursor := Align4(cursor + len);
      ok := NoteCells(nameoff, value);
    }

    // Records a cell count of the innermost open node.
    method NoteCells(nameoff: nat, value: seq<Byte>) returns (ok: bool)
      requires Shape() && depth > 0 && Terminated(f.strings, nameoff)
      modifies frames
      ensures ok <==> !BadCells(f.strings, nameoff, |value|)
      ensures frames[..depth] == if ok then Noted(f.strings, old(frames[..depth]), nameoff, value) else old(frames[..depth])
    {
      ghost var before := frames[..depth];
      var isAddress := NameIs(nameoff, "#address-cells");
      if isAddress {
        if |value| != 4 {
          return false;
        }
        frames[depth - 1] := frames[depth - 1].(cells := frames[depth - 1].cells.(address := PropU32(value)));
      } else {
        var isSize := NameIs(nameoff, "#size-cells");
        if isSize {
          if |value| != 4 {
            return false;
          }
          frames[depth - 1] := frames[depth - 1].(cells := frames[depth - 1].cells.(size := PropU32(value)));
        }
      }
      assert frames[..depth] == before[..depth - 1] + [frames[depth - 1]];
      ok := true;
    }

    // strcmp(prop_name, name) == 0
    method NameIs(nameoff: nat, name: string) returns (same: bool)
      requires Terminated(f.strings, nameoff) && forall i :: 0 <= i < |name| ==> 0 < name[i] as int < 256
      ensures same == (CStr(f.strings, nameoff) == Ascii(name))
    {
      CStrOfLiteral(name);
      var r := StrCmp(f.strings, nameoff, Ascii(name) + [0], 0);
      same := r == 0;
    }

    // fdt_walk_next_node
    method NextNode() returns (ok: bool, visit: Visit)
      requires Valid()
      modifies this, path, frames
      ensures ok <==> Next(f, old(State())).Found?
      ensures ok ==> Valid() && Next(f, old(State())) == Found(State(), visit)
      // Finding nothing more, it leaves the path of the open nodes, which has lost its
      // terminator exactly when the walk ended in a name that did not fit.
      ensures !ok ==> Shape() && State() == Stopped(f, old(State()))
      ensures !ok ==> (path[pathLen] == 0 <==> !SlashLeft(f, LastAt(f, old(State()))))
    {
      visit := Visit(0, [], DEFAULT_CELLS);
      while cursor < |f.structure|
        invariant Valid() && SameWalk(f, State(), old(State()))
        decreases |f.structure| - cursor
      {
        if |f.structure| - cursor < 4 {
          return false, visit;
        }
        ghost var w := State();
        var token := Read32(f.structure, cursor);
        cursor := cursor + 4;
        if token == BEGIN_NODE {
          ok, visit := EnterNode(w);
          WalkEnds(f, w, old(State()));
          return;
        } else if token == END_NODE {
          ok := LeaveNode(w);
        } else if token == PROP {
          ok := NoteProperty(w);
        } else if token == NOP {
          ok := true;
        } else {
          ok := false;
        }
        if !ok {
          WalkEnds(f, w, old(State()));
          return;
        }
        WalkGoesOn(f, w, State(), old(State()));
      }
      ok := false;
    }
  }

  // Nothing is reported between v and w.
  ghost predicate SameWalk(f: Blocks, w: WalkState, v: WalkState)
    requires GoodWalk(f, w)
  {
    GoodWalk(f, v) && Next(f, w) == Next(f, v) && LastAt(f, w) == LastAt(f, v)
  }

  lemma {:induction false} WalkGoesOn(f: Blocks, w: WalkState, v: WalkState, start: WalkState)
    requires GoodWalk(f, w) && SameWalk(f, w, start) && w.cursor < |f.structure| && TokenStep(f, w) == Goto(v)
    ensures SameWalk(f, v, start)
  {
  }

  lemma {:induction false} WalkEnds(f: Blocks, w: WalkState, start: WalkState)
    requires GoodWalk(f, w) && SameWalk(f, w, start) && w.cursor < |f.structure| && !TokenStep(f, w).Goto?
    ensures LastAt(f, start) == w
    ensures TokenStep(f, w).Halt? ==> Next(f, start) == Stop && Stopped(f, start) == w.(cursor := HaltCursor(f, w))
    ensures TokenStep(f, w).Report? ==> Next(f, start) == Found(TokenStep(f, w).w, TokenStep(f, w).visit)
  {
  }

  lemma {:induction false} CStrOfLiteral(name: string)
    requires forall i :: 0 <= i < |name| ==> 0 < name[i] as int < 256
    ensures Terminated(Ascii(name) + [0], 0) && CStr(Ascii(name) + [0], 0) == Ascii(name)
  {
    StrLenUpTo(Ascii(name) + [0], 0, |name|);
  }
}
