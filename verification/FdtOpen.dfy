/** The walker's path on arbitrary bytes: always the join of the names of the open nodes. */
module FdtOpen {
  import opened DeviceTree
  import opened FdtScan
  import opened FdtWalk
  import opened FdtTree

  // The path of a node from the names on the way to it, the root's own name first. A slash
  // goes between two names unless the first already ends with one.
  function OpenPath(names: seq<Name>): seq<Byte> {
    if names == [] then []
    else ChildPath(|names| - 1, OpenPath(names[..|names| - 1]), names[|names| - 1])
  }

  // These nodes are open: the path is theirs and each frame knows where its own part began.
  ghost predicate OpenAre(w: WalkState, names: seq<Name>) {
    && |names| == |w.frames| && w.path == OpenPath(names)
    && forall i :: 0 <= i < |names| ==> w.frames[i].pathLen == |OpenPath(names[..i])|
  }

  // What one token does to the stack of open nodes: a begin token puts its name on it, an
  // end token takes the last one off.
  function NamesAfter(f: Blocks, c: nat, names: seq<Name>): seq<Name>
    requires c + 4 <= |f.structure|
  {
    var token := Read32(f.structure, c);
    if token == BEGIN_NODE then names + [CStr(f.structure, c + 4)]
    else if token == END_NODE && names != [] then names[..|names| - 1]
    else names
  }

  // The open nodes at each place where the scan reports.
  function OpenNames(f: Blocks, w: WalkState, names: seq<Name>): seq<seq<Name>>
    requires GoodWalk(f, w)
    decreases |f.structure| - w.cursor
  {
    if w.cursor >= |f.structure| then []
    else
      var after := NamesAfter(f, w.cursor, names);
      match TokenStep(f, w)
      case Halt => []
      case Goto(v) => OpenNames(f, v, after)
      case Report(v, visit) => [after] + OpenNames(f, v, after)
  }

  lemma {:induction false} OpenPathGrows(names: seq<Name>)
    requires names != []
    ensures OpenPath(names[..|names| - 1]) <= OpenPath(names)
  {
    if |names| == 1 {
      assert names[..0] == [];
    }
  }

  lemma {:induction false} EnterKeeps(w: WalkState, name: Name, names: seq<Name>)
    requires OpenAre(w, names) && EnterNamed(w, name).Report?
    ensures OpenAre(EnterNamed(w, name).w, names + [name])
  {
    var more := names + [name];
    var v := EnterNamed(w, name).w;
    assert more[..|more| - 1] == names;
    forall i | 0 <= i < |more|
      ensures v.frames[i].pathLen == |OpenPath(more[..i])|
    {
      if i < |names| {
        assert more[..i] == names[..i];
      } else {
        assert more[..i] == names;
      }
    }
  }

  lemma {:induction false} LeaveKeeps(f: Blocks, w: WalkState, names: seq<Name>)
    requires GoodWalk(f, w) && w.cursor < |f.structure| && OpenAre(w, names) && names != []
    ensures Leave(f, w).Goto? && OpenAre(Leave(f, w).w, names[..|names| - 1])
  {
    var up := names[..|names| - 1];
    OpenPathGrows(names);
    forall i | 0 <= i < |up|
      ensures up[..i] == names[..i]
    {
    }
  }

  lemma {:induction false} NoteKeeps(f: Blocks, w: WalkState, names: seq<Name>)
    requires GoodWalk(f, w) && w.cursor < |f.structure| && OpenAre(w, names) && Note(f, w).Goto?
    ensures OpenAre(Note(f, w).w, names)
  {
  }

  lemma {:induction false} TokenKeeps(f: Blocks, w: WalkState, names: seq<Name>)
    requires GoodWalk(f, w) && w.cursor < |f.structure| && OpenAre(w, names) && !TokenStep(f, w).Halt?
    ensures OpenAre(TokenStep(f, w).w, NamesAfter(f, w.cursor, names))
  {
    var token := Read32(f.structure, w.cursor);
    if token == BEGIN_NODE {
      EnterKeeps(w, CStr(f.structure, w.cursor + 4), names);
    } else if token == END_NODE {
      LeaveKeeps(f, w, names);
    } else if token == PROP {
      NoteKeeps(f, w, names);
    }
  }

  // On any bytes, every reported path is the join of the names of the nodes open there.
  lemma {:induction false} PathsAreJoins(f: Blocks, w: WalkState, names: seq<Name>)
    requires GoodWalk(f, w) && OpenAre(w, names)
    ensures var visits, stacks := WalkAll(f, w), OpenNames(f, w, names);
            |stacks| == |visits| && forall i :: 0 <= i < |visits| ==> visits[i].path == OpenPath(stacks[i])
    decreases |f.structure| - w.cursor
  {
    if w.cursor < |f.structure| && !TokenStep(f, w).Halt? {
      TokenKeeps(f, w, names);
      var step := TokenStep(f, w);
      PathsAreJoins(f, step.w, NamesAfter(f, w.cursor, names));
      assert step.Goto? ==> Next(f, w) == Next(f, step.w);
    }
  }

  lemma {:induction false} ReportedPaths(f: Blocks)
    requires |f.structure| % 4 == 0
    ensures var visits, stacks := WalkAll(f, START), OpenNames(f, START, []);
            |stacks| == |visits| && forall i :: 0 <= i < |visits| ==> visits[i].path == OpenPath(stacks[i])
  {
    PathsAreJoins(f, START, []);
  }

  // Below the root, names without slashes join to the full path.
  lemma {:induction false} OpenPathIsFull(names: seq<Name>)
    requires names != [] && AllPlain(names[1..])
    ensures OpenPath(names) == FullPath(names[1..])
  {
    var n := |names| - 1;
    if n > 0 {
      assert names[..n][1..] == names[1..][..n - 1];
      OpenPathIsFull(names[..n]);
      ChildPathIsFull(n, names[1..n], names[n]);
      assert names[1..n] + [names[n]] == names[1..];
    }
  }

  // ---- The path after every call ----

  // The open nodes after one call of the walker.
  function CallNames(f: Blocks, w: WalkState, names: seq<Name>): seq<Name>
    requires GoodWalk(f, w)
    decreases |f.structure| - w.cursor
  {
    if w.cursor >= |f.structure| then names
    else
      match TokenStep(f, w)
      case Halt => names
      case Goto(v) => CallNames(f, v, NamesAfter(f, w.cursor, names))
      case Report(v, visit) => NamesAfter(f, w.cursor, names)
  }

  // On any bytes, whether or not it finds a node, a call leaves the path of the open nodes.
  lemma {:induction false} PathAfterCall(f: Blocks, w: WalkState, names: seq<Name>)
    requires GoodWalk(f, w) && OpenAre(w, names)
    ensures var v := if Next(f, w).Found? then Next(f, w).next else Stopped(f, w);
            OpenAre(v, CallNames(f, w, names))
    decreases |f.structure| - w.cursor
  {
    if w.cursor < |f.structure| && !TokenStep(f, w).Halt? {
      TokenKeeps(f, w, names);
      if TokenStep(f, w).Goto? {
        PathAfterCall(f, TokenStep(f, w).w, NamesAfter(f, w.cursor, names));
        assert LastAt(f, w) == LastAt(f, TokenStep(f, w).w);
      }
    }
  }

  // ---- Where the walk ends badly ----

  // A root, a child "a" and in it a child whose name is 254 bytes long: the walk ends at the
  // last one with the terminator of "/a" gone.
  lemma {:induction false} SlashLeftExample()
    ensures var long := seq(254, _ => 97 as Byte);
            var f := Blocks(EncodeBegin([]) + (EncodeBegin([97]) + (EncodeBegin(long) + [])), []);
            && GoodWalk(f, START) && Next(f, START).Found?
            && Next(f, Next(f, START).next).Found?
            && var w := Next(f, Next(f, START).next).next;
               w.path == [SLASH, 97] && Next(f, w) == Stop && SlashLeft(f, LastAt(f, w))
  {
    var long := seq(254, _ => 97 as Byte);
    var b2 := EncodeBegin(long) + [];
    var b1 := EncodeBegin([97]) + b2;
    var f := Blocks(EncodeBegin([]) + b1, []);
    assert f.structure[0..] == f.structure;
    Multiples(BeginLen(long), 0);
    Multiples(BeginLen([97]), BeginLen(long));
    Multiples(BeginLen([]), BeginLen([97]) + BeginLen(long));
    assert ChildPath(0, [], []) == [SLASH] && ChildPath(1, [SLASH], [97]) == [SLASH, 97];
    var w1 := Opens(f, START, [], b1);
    var w2 := Opens(f, w1, [97], b2);
    LeavesSlash(f, w2, long, []);
  }

  // A child node whose path does not fit although the slash does ends the walk badly.
  lemma {:induction false} LeavesSlash(f: Blocks, w: WalkState, name: Name, rest: seq<Byte>)
    requires GoodWalk(f, w) && 0 !in name && 0 < |w.frames| < MAX_DEPTH && SlashOnly(w.path, |name|)
    requires At(f.structure, w.cursor, EncodeBegin(name) + rest)
    ensures Next(f, w) == Stop && LastAt(f, w) == w && SlashLeft(f, w)
  {
    AtBegin(f.structure, w.cursor, name, rest);
    EnterIs(f, w, name);
    StrLenBytes(f.structure, w.cursor + 4);
  }

  // A begin token whose path fits is reported.
  lemma {:induction false} Opens(f: Blocks, w: WalkState, name: Name, rest: seq<Byte>) returns (v: WalkState)
    requires GoodWalk(f, w) && 0 !in name && |w.frames| < MAX_DEPTH
    requires At(f.structure, w.cursor, EncodeBegin(name) + rest)
    requires |ChildPath(|w.frames|, w.path, name)| < MAX_PATH
    ensures v == WalkState(w.cursor + BeginLen(name), ChildPath(|w.frames|, w.path, name),
                           w.frames + [Frame(|w.path|, DEFAULT_CELLS)])
    ensures GoodWalk(f, v) && Next(f, w) == Found(v, Visit(w.cursor, v.path, CellsAbove(w)))
    ensures At(f.structure, v.cursor, rest)
  {
    EnterStep(f, w, name, rest);
    v := TokenStep(f, w).w;
  }

  // A call after the last one would read on behind the token that ended the walk.
  lemma {:induction false} RefusalIsNotFinal()
    ensures var f := Blocks(Be32(END) + (EncodeBegin([]) + []), []);
            GoodWalk(f, START) && Next(f, START) == Stop && Next(f, Stopped(f, START)).Found?
  {
    var rest := EncodeBegin([]) + [];
    var f := Blocks(Be32(END) + rest, []);
    assert f.structure[0..] == f.structure;
    Multiples(4, BeginLen([]));
    AtToken(f.structure, 0, END, rest);
    var v := Opens(f, Stopped(f, START), [], []);
  }
}
