/** The queries of kernel/src/dev/fdt.c: properties, nodes by path or compatible string,
    and reg entries. */
module FdtQueries {
  import opened DeviceTree
  import opened FdtScan
  import opened FdtWalk
  import opened FdtLookup
  import opened Fdt
  import Paths = FdtPaths
  import Reg = FdtReg

  const REG := Ascii("reg")
  const COMPATIBLE := Ascii("compatible")

  // fdt_init on a blob held whole: the blocks the header describes, if they lie inside it.
  method Init(blob: seq<Byte>) returns (ok: bool, f: Blocks)
    requires |blob| >= 40 && Read32(blob, 4) <= |blob|
    ensures ok <==> && Read32(blob, 0) == 0xd00dfeed
                    && Read32(blob, 8) + Read32(blob, 36) <= Read32(blob, 4)
                    && Read32(blob, 12) + Read32(blob, 32) <= Read32(blob, 4)
    ensures ok ==> && f.structure == blob[Read32(blob, 8)..][..Read32(blob, 36)]
                   && f.strings == blob[Read32(blob, 12)..][..Read32(blob, 32)]
  {
    f := Blocks([], []);
    if Read32(blob, 0) != 0xd00dfeed {
      return false, f;
    }
    var total := Read32(blob, 4);
    var offStruct, offStrings := Read32(blob, 8), Read32(blob, 12);
    var sizeStruct, sizeStrings := Read32(blob, 36), Read32(blob, 32);
    if !RangeValid(total, offStruct, sizeStruct) || !RangeValid(total, offStrings, sizeStrings) {
      return false, f;
    }
    f := Blocks(blob[offStruct..offStruct + sizeStruct], blob[offStrings..offStrings + sizeStrings]);
    assert f.structure == blob[offStruct..][..sizeStruct];
    assert f.strings == blob[offStrings..][..sizeStrings];
    ok := true;
  }

  predicate RangeValid(total: nat, offset: nat, size: nat) {
    offset <= total && size <= total - offset
  }

  // fdt_node_payload
  method NodePayload(f: Blocks, off: nat) returns (ok: bool, payload: nat)
    requires |f.structure| % 4 == 0
    ensures Payload(f, off) == if ok then Some(payload) else None
  {
    payload := 0;
    if off + 4 > |f.structure| || Read32(f.structure, off) != BEGIN_NODE {
      return false, payload;
    }
    var bounded, nameLen := BoundedStrLen(f.structure, off + 4);
    if !bounded {
      return false, payload;
    }
    ok, payload := true, Align4(off + 4 + nameLen + 1);
  }

  // fdt_get_property, for a name that is a C string.
  method GetProperty(f: Blocks, off: nat, name: seq<Byte>) returns (r: Option<Extent>)
    requires |f.structure| % 4 == 0 && Terminated(name, 0)
    ensures r == FdtLookup.GetProperty(f, off, CStr(name, 0))
  {
    var ok, cursor := NodePayload(f, off);
    if !ok {
      return None;
    }
    ghost var start, want := cursor, CStr(name, 0);
    var depth := 0;
    while cursor < |f.structure|
      invariant Aligned4(f, cursor)
      invariant Scan(f, cursor, depth, want) == Scan(f, start, 0, want)
      decreases |f.structure| - cursor
    {
      var token := Read32(f.structure, cursor);
      if token == BEGIN_NODE {
        var bounded, childLen := BoundedStrLen(f.structure, cursor + 4);
        if !bounded {
          return None;
        }
        PastName(f, cursor, depth, want);
        cursor := NameEnd(f, cursor + 4);
        depth := depth + 1;
      } else if token == END_NODE {
        if depth == 0 {
          return None;
        }
        PastWord(f, cursor, depth, want);
        cursor := cursor + 4;
        depth := depth - 1;
      } else if token == PROP {
        var found, past;
        r, found, past := AtProperty(f, cursor, depth, name);
        if found {
          return r;
        }
        cursor := past;
      } else if token == NOP {
        PastWord(f, cursor, depth, want);
        cursor := cursor + 4;
      } else {
        return None;
      }
    }
    r := None;
  }

  lemma {:induction false} PastName(f: Blocks, c: nat, depth: nat, want: seq<Byte>)
    requires Aligned4(f, c) && c < |f.structure| && Read32(f.structure, c) == BEGIN_NODE && Terminated(f.structure, c + 4)
    ensures Aligned4(f, NameEnd(f, c + 4)) && NameEnd(f, c + 4) > c
    ensures Scan(f, c, depth, want) == Scan(f, NameEnd(f, c + 4), depth + 1, want)
  {
  }

  lemma {:induction false} PastWord(f: Blocks, c: nat, depth: nat, want: seq<Byte>)
    requires Aligned4(f, c) && c < |f.structure|
    requires Read32(f.structure, c) == NOP || (Read32(f.structure, c) == END_NODE && depth > 0)
    ensures Aligned4(f, c + 4)
    ensures Scan(f, c, depth, want) ==
            if Read32(f.structure, c) == NOP then Scan(f, c + 4, depth, want) else Scan(f, c + 4, depth - 1, want)
  {
  }

  // The FDT_PROP case: an answer, or the place of the next token.
  method AtProperty(f: Blocks, c: nat, depth: nat, name: seq<Byte>) returns (r: Option<Extent>, done: bool, past: nat)
    requires Aligned4(f, c) && c < |f.structure| && Terminated(name, 0)
    ensures done ==> r == ScanProperty(f, c, depth, CStr(name, 0))
    ensures !done ==> Aligned4(f, past) && past > c
                      && ScanProperty(f, c, depth, CStr(name, 0)) == Scan(f, past, depth, CStr(name, 0))
  {
    r, done, past := None, true, c;
    if |f.structure| - (c + 4) < 8 {
      return;
    }
    var len, nameoff := Read32(f.structure, c + 4), Read32(f.structure, c + 8);
    if |f.structure| - (c + 12) < len {
      return;
    }
    var named := PropNameValid(f.strings, nameoff);
    if !named {
      return;
    }
    if depth == 0 {
      var same := StrCmp(f.strings, nameoff, name, 0);
      if same == 0 {
        r := Some(Extent(c + 12, len));
        return;
      }
    }
    done, past := false, ValueEnd(f, c + 12, len);
  }

  // fdt_find_node_by_path
  method FindNodeByPath(f: Blocks, path: seq<Byte>) returns (r: Option<Visit>)
    requires |f.structure| % 4 == 0 && Terminated(path, 0)
    ensures r == Paths.FirstWithPath(WalkAll(f, START), CStr(path, 0))
  {
    var w := new Walker(f);
    while true
      invariant w.f == f && w.Valid() && fresh(w) && fresh(w.path) && fresh(w.frames)
      invariant Paths.FirstWithPath(WalkAll(f, w.State()), CStr(path, 0)) == Paths.FirstWithPath(WalkAll(f, START), CStr(path, 0))
      decreases |f.structure| - w.cursor
    {
      var ok, visit := w.NextNode();
      if !ok {
        return None;
      }
      BufferHolds(w.path[..], visit.path);
      var same := StrCmp(w.path[..], 0, path, 0);
      if same == 0 {
        return Some(visit);
      }
    }
  }

  // The NUL-terminated buffer is the path as a C string.
  lemma {:induction false} BufferHolds(buffer: seq<Byte>, path: seq<Byte>)
    requires |path| < |buffer| && buffer[..|path|] == path && buffer[|path|] == 0 && 0 !in path
    ensures Terminated(buffer, 0) && CStr(buffer, 0) == path
  {
    forall k | 0 <= k < |path|
      ensures buffer[k] != 0
    {
      assert buffer[k] == buffer[..|path|][k];
    }
    StrLenUpTo(buffer, 0, |path|);
  }

  function Slice(f: Blocks, e: Extent): seq<Byte>
    requires e.start + e.len <= |f.structure|
  {
    f.structure[e.start..e.start + e.len]
  }

  // What a node's own reg property holds at an index, given its parent's cell counts.
  function RegOf(f: Blocks, off: nat, c: Cells, index: nat): Reg.RegAnswer
    requires |f.structure| % 4 == 0
  {
    match FdtLookup.GetProperty(f, off, REG)
    case None => Reg.NoEntry
    case Some(e) => Reg.RegEntry(Slice(f, e), c, index)
  }

  // A query is refused exactly for a missing property or for what its value does not hold.
  lemma {:induction false} RegRefused(f: Blocks, off: nat, c: Cells, index: nat)
    requires |f.structure| % 4 == 0 && index < 0x1_0000_0000
    ensures var prop, n := FdtLookup.GetProperty(f, off, Ascii("reg")), c.address + c.size;
            RegOf(f, off, c, index) == Reg.NoEntry <==>
            || prop == None || c.address > 2 || c.size > 2 || n == 0 || prop.value.len % 4 != 0
            || ((index + 1) * n) % 0x1_0000_0000 > prop.value.len / 4
  {
    var prop := FdtLookup.GetProperty(f, off, REG);
    if prop.Some? {
      Reg.RefusedExactly(Slice(f, prop.value), c, index);
    }
  }

  // fdt_get_reg
  method GetReg(f: Blocks, off: nat, c: Cells, index: nat) returns (r: Reg.RegAnswer)
    requires |f.structure| % 4 == 0 && index < WORD32
    ensures r == RegOf(f, off, c, index)
  {
    CStrOfLiteral("reg");
    var prop := GetProperty(f, off, REG + [0]);
    if prop == None || c.address > 2 || c.size > 2 {
      return Reg.NoEntry;
    }
    r := RegEntryAt(Slice(f, prop.value), c, index);
  }

  // The rest of fdt_get_reg, on the property's value. The code has no test for Stray: it
  // reads whatever memory is there.
  method RegEntryAt(v: seq<Byte>, c: Cells, index: nat) returns (r: Reg.RegAnswer)
    requires c.address <= 2 && c.size <= 2 && index < WORD32
    ensures r == Reg.RegEntry(v, c, index)
  {
    var entryCells := c.address + c.size;
    if entryCells == 0 || |v| % 4 != 0 {
      return Reg.NoEntry;
    }
    var cellCount := |v| / 4;
    var needed := ((index + 1) % WORD32 * entryCells) % WORD32;
    if needed > cellCount {
      return Reg.NoEntry;
    }
    var at := Reg.EntryOffset(index, entryCells);
    if at + 4 * entryCells > |v| {
      return Reg.Stray(at);
    }
    var addr := ReadCells(v, at, c.address);
    var size := ReadCells(v, at + 4 * c.address, c.size);
    r := Reg.Entry((addr, size));
  }

  // One of the two accumulating loops of fdt_get_reg.
  method ReadCells(v: seq<Byte>, at: nat, n: nat) returns (x: nat)
    requires at + 4 * n <= |v|
    ensures x == Reg.ReadNumber(v, at, n)
  {
    x := 0;
    var cells := at;
    for i := 0 to n
      invariant cells == at + 4 * i && x == Reg.ReadNumber(v, at, i)
    {
      x := (x % WORD32) * WORD32 + Read32(v, cells);
      cells := cells + 4;
    }
  }

  // The compatible value of the node, if it has one, ends with a NUL.
  ghost predicate CompatibleEnds(f: Blocks, off: nat)
    requires |f.structure| % 4 == 0
  {
    match FdtLookup.GetProperty(f, off, COMPATIBLE)
    case None => true
    case Some(e) => e.len > 0 ==> f.structure[e.start + e.len - 1] == 0
  }

  function IsCompatible(f: Blocks, off: nat, want: seq<Byte>): bool
    requires |f.structure| % 4 == 0
  {
    match FdtLookup.GetProperty(f, off, COMPATIBLE)
    case None => false
    case Some(e) => Reg.HasString(Slice(f, e), 0, want)
  }

  // fdt_node_has_compatible
  method NodeHasCompatible(f: Blocks, off: nat, compatible: seq<Byte>) returns (r: bool)
    requires |f.structure| % 4 == 0 && Terminated(compatible, 0) && CompatibleEnds(f, off)
    ensures r == IsCompatible(f, off, CStr(compatible, 0))
  {
    CStrOfLiteral("compatible");
    var prop := GetProperty(f, off, COMPATIBLE + [0]);
    if prop == None {
      return false;
    }
    r := ValueHasString(f, prop.value, compatible);
  }

  // The loop over the strings of the value.
  method ValueHasString(f: Blocks, e: Extent, compatible: seq<Byte>) returns (r: bool)
    requires e.start + e.len <= |f.structure| && Terminated(compatible, 0)
    requires e.len > 0 ==> f.structure[e.start + e.len - 1] == 0
    ensures r == Reg.HasString(Slice(f, e), 0, CStr(compatible, 0))
  {
    ghost var v, want := Slice(f, e), CStr(compatible, 0);
    var offset := 0;
    while offset < e.len
      invariant offset <= e.len
      invariant Reg.HasString(v, offset, want) == Reg.HasString(v, 0, want)
    {
      SliceString(f, e, offset);
      var ended, len := BoundedStrLen(f.structure, e.start + offset);
      if offset + len >= e.len {
        return false;
      }
      var same := StrCmp(f.structure, e.start + offset, compatible, 0);
      if same == 0 {
        return true;
      }
      offset := offset + len + 1;
    }
    r := false;
  }

  // strlen from inside a NUL-terminated value stops inside the value.
  lemma {:induction false} SliceString(f: Blocks, e: Extent, offset: nat)
    requires e.start + e.len <= |f.structure| && offset < e.len && f.structure[e.start + e.len - 1] == 0
    ensures Terminated(f.structure, e.start + offset) && Terminated(Slice(f, e), offset)
    ensures StrLen(f.structure, e.start + offset) == StrLen(Slice(f, e), offset)
    ensures CStr(f.structure, e.start + offset) == CStr(Slice(f, e), offset)
  {
    var v := Slice(f, e);
    NulAhead(v, offset, e.len - 1);
    var n := StrLen(v, offset);
    StrLenBytes(v, offset);
    forall k | e.start + offset <= k < e.start + offset + n
      ensures f.structure[k] != 0
    {
      assert f.structure[k] == v[k - e.start];
    }
    assert f.structure[e.start + offset + n] == v[offset + n];
    StrLenUpTo(f.structure, e.start + offset, n);
    SliceOfSlice(f.structure, e.start, e.len, offset, n);
  }

  lemma {:induction false} SliceOfSlice(s: seq<Byte>, start: nat, len: nat, i: nat, n: nat)
    requires start + len <= |s| && i + n <= len
    ensures s[start..start + len][i..i + n] == s[start + i..start + i + n]
  {
    var x, y := s[start..start + len][i..i + n], s[start + i..start + i + n];
    forall k | 0 <= k < n
      ensures x[k] == y[k]
    {
    }
  }

  lemma {:induction false} NulAhead(s: seq<Byte>, i: nat, z: nat)
    requires i <= z < |s| && s[z] == 0
    ensures i + StrLen(s, i) <= z
    decreases z - i
  {
    if s[i] != 0 {
      NulAhead(s, i + 1, z);
    }
  }

  // The first reported node that is compatible.
  function FirstCompatible(f: Blocks, visits: seq<Visit>, want: seq<Byte>): Option<Visit>
    requires |f.structure| % 4 == 0
  {
    if visits == [] then None
    else if IsCompatible(f, visits[0].offset, want) then Some(visits[0])
    else FirstCompatible(f, visits[1..], want)
  }

  // Node k is compatible and none before it.
  ghost predicate IsFirst(f: Blocks, visits: seq<Visit>, want: seq<Byte>, k: nat)
    requires |f.structure| % 4 == 0
  {
    && k < |visits| && IsCompatible(f, visits[k].offset, want)
    && forall j :: 0 <= j < k ==> !IsCompatible(f, visits[j].offset, want)
  }

  // It is none exactly when no node is compatible, and otherwise the first one that is.
  lemma {:induction false} FirstCompatibleIsFirst(f: Blocks, visits: seq<Visit>, want: seq<Byte>)
    requires |f.structure| % 4 == 0
    ensures var r := FirstCompatible(f, visits, want);
            && (r == None <==> forall k :: 0 <= k < |visits| ==> !IsCompatible(f, visits[k].offset, want))
            && (forall v :: r == Some(v) <==> exists k: nat :: IsFirst(f, visits, want, k) && visits[k] == v)
  {
    var n := FirstCompatibleAt(f, visits, want);
    if n < |visits| {
      assert IsFirst(f, visits, want, n);
    }
  }

  lemma {:induction false} FirstCompatibleAt(f: Blocks, visits: seq<Visit>, want: seq<Byte>) returns (n: nat)
    requires |f.structure| % 4 == 0
    ensures n <= |visits| && forall j :: 0 <= j < n ==> !IsCompatible(f, visits[j].offset, want)
    ensures if n < |visits| then IsCompatible(f, visits[n].offset, want) && FirstCompatible(f, visits, want) == Some(visits[n])
            else FirstCompatible(f, visits, want) == None
  {
    n := 0;
    if visits != [] && !IsCompatible(f, visits[0].offset, want) {
      var k := FirstCompatibleAt(f, visits[1..], want);
      n := k + 1;
      forall j | 0 < j < n
        ensures !IsCompatible(f, visits[j].offset, want)
      {
        assert visits[j] == visits[1..][j - 1];
      }
    }
  }

  // fdt_find_compatible
  method FindCompatible(f: Blocks, compatible: seq<Byte>) returns (r: Option<Visit>)
    requires |f.structure| % 4 == 0 && Terminated(compatible, 0)
    requires forall v :: v in WalkAll(f, START) ==> CompatibleEnds(f, v.offset)
    ensures r == FirstCompatible(f, WalkAll(f, START), CStr(compatible, 0))
  {
    var w := new Walker(f);
    while true
      invariant w.f == f && w.Valid() && fresh(w) && fresh(w.path) && fresh(w.frames)
      invariant FirstCompatible(f, WalkAll(f, w.State()), CStr(compatible, 0)) == FirstCompatible(f, WalkAll(f, START), CStr(compatible, 0))
      invariant forall v :: v in WalkAll(f, w.State()) ==> CompatibleEnds(f, v.offset)
      decreases |f.structure| - w.cursor
    {
      ghost var before := WalkAll(f, w.State());
      var ok, visit := w.NextNode();
      if !ok {
        return None;
      }
      assert before == [visit] + WalkAll(f, w.State());
      var found := NodeHasCompatible(f, visit.offset, compatible);
      if found {
        return Some(visit);
      }
      assert before[1..] == WalkAll(f, w.State());
    }
  }

  // ---- Against the tree ----

  // On a flattened tree, the reg entries read at a reported node are the pairs its reg
  // property lists, in order and no more.
  lemma {:induction false} RegOfTree(f: Blocks, t: Items, k: nat, c: Cells, pairs: seq<(nat, nat)>, i: nat)
    requires Holds(f, t) && k < |WalkAll(f, START)| && k < |Paths.Sites(t, 0)|
    requires c.address <= 2 && c.size <= 2 && c.address + c.size > 0
    requires forall j :: 0 <= j < |pairs| ==> Reg.PairFits(pairs[j], c)
    requires Lookup(f.strings, Paths.Sites(t, 0)[k].body, REG) == Some(Reg.EncodeReg(pairs, c))
    requires (i + 1) * (c.address + c.size) < WORD32
    ensures RegOf(f, WalkAll(f, START)[k].offset, c, i) == Reg.PairAt(pairs, i)
  {
    Paths.ReportedNodeLookup(f, t, k, REG);
    Reg.RegRoundTrip(pairs, c, i);
    RegOfValue(f, WalkAll(f, START)[k].offset, c, i, Reg.EncodeReg(pairs, c));
  }

  lemma {:induction false} RegOfValue(f: Blocks, off: nat, c: Cells, i: nat, v: seq<Byte>)
    requires |f.structure| % 4 == 0 && Agrees(f, FdtLookup.GetProperty(f, off, REG), Some(v))
    ensures RegOf(f, off, c, i) == Reg.RegEntry(v, c, i)
  {
  }

  // And a reported node is compatible with a string exactly when its compatible list has it.
  lemma {:induction false} CompatibleOfTree(f: Blocks, t: Items, k: nat, list: seq<seq<Byte>>, want: seq<Byte>)
    requires Holds(f, t) && k < |WalkAll(f, START)| && k < |Paths.Sites(t, 0)|
    requires Lookup(f.strings, Paths.Sites(t, 0)[k].body, COMPATIBLE) == Some(Reg.EncodeStrings(list)) && Reg.NoNuls(list)
    ensures IsCompatible(f, WalkAll(f, START)[k].offset, want) <==> want in list
  {
    Paths.ReportedNodeLookup(f, t, k, COMPATIBLE);
    var v := Reg.EncodeStrings(list);
    assert v[0..] == v;
    Reg.HasStringIsMember(v, 0, list, want);
  }

  // Node k of the tree has these compatible strings, or no compatible property.
  ghost predicate HasList(strings: seq<Byte>, body: Items, list: Option<seq<seq<Byte>>>) {
    match list
    case None => Lookup(strings, body, COMPATIBLE) == None
    case Some(l) => Reg.NoNuls(l) && Lookup(strings, body, COMPATIBLE) == Some(Reg.EncodeStrings(l))
  }

  predicate Listed(list: Option<seq<seq<Byte>>>, want: seq<Byte>) {
    list.Some? && want in list.value
  }

  // On a flattened tree, the node found is the first in preorder that lists the string.
  lemma {:induction false} FindCompatibleOfTree(f: Blocks, t: Items, lists: seq<Option<seq<seq<Byte>>>>, want: seq<Byte>, v: Visit)
    requires Holds(f, t) && |lists| == |Paths.Sites(t, 0)|
    requires forall k :: 0 <= k < |lists| ==> HasList(f.strings, Paths.Sites(t, 0)[k].body, lists[k])
    ensures var visits := Preorder(f.strings, t, 0, 0, [], DEFAULT_CELLS);
            && |visits| == |lists|
            && (FirstCompatible(f, WalkAll(f, START), want) == None <==> forall k :: 0 <= k < |lists| ==> !Listed(lists[k], want))
            && (FirstCompatible(f, WalkAll(f, START), want) == Some(v) <==>
                exists k: nat :: k < |lists| && visits[k] == v && Listed(lists[k], want)
                                 && forall j :: 0 <= j < k ==> !Listed(lists[j], want))
  {
    var visits := WalkAll(f, START);
    WalkerRefinesTree(f, t);
    Paths.SitesOfPreorder(f.strings, t, 0, 0, [], DEFAULT_CELLS);
    forall k | 0 <= k < |lists|
      ensures IsCompatible(f, visits[k].offset, want) <==> Listed(lists[k], want)
    {
      CompatibleIfListed(f, t, k, lists[k], want);
    }
    FirstCompatibleIsFirst(f, visits, want);
    forall k: nat | k < |lists|
      ensures IsFirst(f, visits, want, k) <==> Listed(lists[k], want) && forall j :: 0 <= j < k ==> !Listed(lists[j], want)
    {
    }
  }

  lemma {:induction false} CompatibleIfListed(f: Blocks, t: Items, k: nat, list: Option<seq<seq<Byte>>>, want: seq<Byte>)
    requires Holds(f, t) && k < |WalkAll(f, START)| && k < |Paths.Sites(t, 0)|
    requires HasList(f.strings, Paths.Sites(t, 0)[k].body, list)
    ensures IsCompatible(f, WalkAll(f, START)[k].offset, want) <==> Listed(list, want)
  {
    if list.Some? {
      CompatibleOfTree(f, t, k, list.value, want);
    } else {
      Paths.ReportedNodeLookup(f, t, k, COMPATIBLE);
    }
  }
}
