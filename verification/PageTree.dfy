/** The radix tree of page tables: every table has one place in it, and what linking a
    table or writing a leaf does to translation. */
module PageTree {
  import opened Bits
  import opened Sv

  // A table's place: its level, and the digits of the page numbers that lead to it.
  datatype Place = Place(level: nat, prefix: nat)

  type Places = map<nat, Place>

  ghost predicate EntryOk(e: nat, places: Places, p: Place, i: nat) {
    Bit(e, V) ==>
      && e < PTE_LIMIT
      && (Leaf(e) || Bit(e, W) ==> GoodLeaf(e, p.level))
      && (!Leaf(e) && !Bit(e, W) && p.level > 0 ==>
            Pointer(e) && Ppn(e) in places && places[Ppn(e)] == Place(p.level - 1, p.prefix * 512 + i))
  }

  ghost predicate SlotOk(mem: Memory, places: Places, t: nat, i: nat)
    requires t in places && t in mem && |mem[t]| == PT_ENTRIES
  {
    i < PT_ENTRIES ==> EntryOk(mem[t][i], places, places[t], i)
  }

  ghost predicate TableOk(mem: Memory, places: Places, t: nat) {
    t in places ==>
      && t in mem && |mem[t]| == PT_ENTRIES
      && forall i: nat :: SlotOk(mem, places, t, i)
  }

  // Pointers lead to tables one level down, at the place the pointer's own place says.
  ghost predicate TreeOk(mem: Memory, places: Places, root: nat, levels: nat) {
    && 3 <= levels <= 5
    && root in places && places[root] == Place(levels - 1, 0)
    && forall t: nat :: TableOk(mem, places, t)
  }

  // Table t, at the given level, is on the walk of vpn.
  ghost predicate OnPath(places: Places, t: nat, level: nat, vpn: nat) {
    t in places && places[t] == Place(level, Prefix(vpn, level + 1))
  }

  // The walk of vpn from table s at level from comes to table t at level to.
  ghost predicate Reaches(mem: Memory, s: nat, from: nat, vpn: nat, t: nat, to: nat)
    decreases from
  {
    if from == to then s == t
    else
      && from > to && s in mem && |mem[s]| == PT_ENTRIES
      && Pointer(mem[s][Digit(vpn, from)])
      && Reaches(mem, Ppn(mem[s][Digit(vpn, from)]), from - 1, vpn, t, to)
  }

  lemma {:induction false} PointerIsNoLeaf(e: nat, level: nat)
    ensures Pointer(e) ==> !GoodLeaf(e, level)
  {
  }

  lemma {:induction false} ReachesWalk(mem: Memory, s: nat, from: nat, vpn: nat, t: nat, to: nat)
    requires Reaches(mem, s, from, vpn, t, to)
    ensures Walk(mem, s, from, vpn) == Walk(mem, t, to, vpn)
    decreases from
  {
    if from != to {
      PointerIsNoLeaf(mem[s][Digit(vpn, from)], from);
      ReachesWalk(mem, Ppn(mem[s][Digit(vpn, from)]), from - 1, vpn, t, to);
    }
  }

  lemma {:induction false} ReachesNext(mem: Memory, s: nat, from: nat, vpn: nat, t: nat, to: nat)
    requires Reaches(mem, s, from, vpn, t, to) && to > 0
    requires t in mem && |mem[t]| == PT_ENTRIES && Pointer(mem[t][Digit(vpn, to)])
    ensures Reaches(mem, s, from, vpn, Ppn(mem[t][Digit(vpn, to)]), to - 1)
    decreases from
  {
    if from != to {
      ReachesNext(mem, Ppn(mem[s][Digit(vpn, from)]), from - 1, vpn, t, to);
    }
  }

  // A pointer on the path leads to the next table on the path.
  lemma {:induction false} PathStep(mem: Memory, places: Places, t: nat, level: nat, vpn: nat)
    requires OnPath(places, t, level, vpn) && TableOk(mem, places, t) && level > 0
    requires Pointer(mem[t][Digit(vpn, level)])
    ensures OnPath(places, Ppn(mem[t][Digit(vpn, level)]), level - 1, vpn)
  {
    var i := Digit(vpn, level);
    assert SlotOk(mem, places, t, i);
    PrefixNext(vpn, level);
  }

  lemma {:induction false} RootOnPath(mem: Memory, places: Places, root: nat, levels: nat, vpn: nat)
    requires TreeOk(mem, places, root, levels) && vpn < Pow512(levels)
    ensures OnPath(places, root, levels - 1, vpn)
  {
    PrefixOfSmall(vpn, levels);
  }

  // ---- Writing one entry ----

  function WriteEntry(mem: Memory, t: nat, i: nat, e: nat): Memory
    requires t in mem && i < |mem[t]|
  {
    var table: seq<nat> := mem[t][i := e];
    mem[t := table]
  }

  // A write at one level does not disturb the walk above that level.
  lemma {:induction false} ReachesWrite(mem: Memory, mem': Memory, places: Places, s: nat, from: nat, vpn: nat, t: nat, to: nat)
    requires OnPath(places, s, from, vpn)
    requires forall u: nat :: TableOk(mem, places, u)
    requires forall u :: u in places && places[u].level > to ==>
               u in mem && u in mem' && mem'[u] == mem[u]
    requires Reaches(mem, s, from, vpn, t, to)
    ensures Reaches(mem', s, from, vpn, t, to)
    decreases from
  {
    if from != to {
      PathStep(mem, places, s, from, vpn);
      ReachesWrite(mem, mem', places, Ppn(mem[s][Digit(vpn, from)]), from - 1, vpn, t, to);
    }
  }

  // Writing a level-0 entry changes the walk of one page number only.
  lemma {:induction false} LeafFrame(mem: Memory, places: Places, t: nat, i: nat, e: nat, s: nat, level: nat, vpn: nat)
    requires forall u: nat :: TableOk(mem, places, u)
    requires t in places && TableOk(mem, places, t) && places[t].level == 0 && i < PT_ENTRIES
    requires OnPath(places, s, level, vpn) && vpn != places[t].prefix * 512 + i
    ensures Walk(WriteEntry(mem, t, i, e), s, level, vpn) == Walk(mem, s, level, vpn)
    decreases level
  {
    PrefixNext(vpn, 0);
    assert TableOk(mem, places, s);
    var pte := mem[s][Digit(vpn, level)];
    if level > 0 && Pointer(pte) {
      PathStep(mem, places, s, level, vpn);
      PointerIsNoLeaf(pte, level);
      LeafFrame(mem, places, t, i, e, Ppn(pte), level - 1, vpn);
    }
  }

  function EmptyTable(): seq<nat> {
    seq(PT_ENTRIES, _ => 0)
  }

  // Linking an empty table where there was no entry changes no walk.
  lemma {:induction false} LinkFrame(mem: Memory, places: Places, t: nat, i: nat, n: nat, e: nat, s: nat, level: nat, vpn: nat)
    requires forall u: nat :: TableOk(mem, places, u)
    requires t in places && TableOk(mem, places, t) && i < PT_ENTRIES && !Bit(mem[t][i], V)
    requires n !in places && Pointer(e) && Ppn(e) == n
    requires OnPath(places, s, level, vpn)
    ensures Walk(WriteEntry(mem[n := EmptyTable()], t, i, e), s, level, vpn) == Walk(mem, s, level, vpn)
    decreases level
  {
    assert TableOk(mem, places, s);
    var pte := mem[s][Digit(vpn, level)];
    ZeroBit(V);
    if level > 0 && Pointer(pte) {
      PathStep(mem, places, s, level, vpn);
      PointerIsNoLeaf(pte, level);
      LinkFrame(mem, places, t, i, n, e, Ppn(pte), level - 1, vpn);
    }
  }

  lemma {:induction false} TreeOkLeaf(mem: Memory, places: Places, root: nat, levels: nat, t: nat, i: nat, e: nat)
    requires TreeOk(mem, places, root, levels)
    requires t in places && TableOk(mem, places, t) && places[t].level == 0 && i < PT_ENTRIES && GoodLeaf(e, 0)
    ensures TreeOk(WriteEntry(mem, t, i, e), places, root, levels)
  {
    var mem' := WriteEntry(mem, t, i, e);
    forall u: nat
      ensures TableOk(mem', places, u)
    {
      assert TableOk(mem, places, u);
      if u in places {
        forall j: nat
          ensures SlotOk(mem', places, u, j)
        {
          assert SlotOk(mem, places, u, j);
        }
      }
    }
  }

  lemma {:induction false} TreeOkLink(mem: Memory, places: Places, root: nat, levels: nat, t: nat, i: nat, n: nat, e: nat)
    requires TreeOk(mem, places, root, levels)
    requires t in places && TableOk(mem, places, t) && places[t].level > 0 && i < PT_ENTRIES
    requires n !in places && Pointer(e) && Ppn(e) == n
    ensures TreeOk(WriteEntry(mem[n := EmptyTable()], t, i, e),
                   places[n := Place(places[t].level - 1, places[t].prefix * 512 + i)], root, levels)
  {
    var mem' := WriteEntry(mem[n := EmptyTable()], t, i, e);
    var places' := places[n := Place(places[t].level - 1, places[t].prefix * 512 + i)];
    ZeroBit(V);
    forall u: nat
      ensures TableOk(mem', places', u)
    {
      assert TableOk(mem, places, u);
      if u in places {
        forall j: nat
          ensures SlotOk(mem', places', u, j)
        {
          assert SlotOk(mem, places, u, j);
        }
      }
    }
  }

  // ---- Every table is referenced once ----

  // Table t holds the pointer to u, in the slot u's place says.
  ghost predicate LinksTo(mem: Memory, places: Places, t: nat, u: nat) {
    && t in places && u in places && t in mem && |mem[t]| == PT_ENTRIES
    && places[t] == Place(places[u].level + 1, places[u].prefix / 512)
    && Pointer(mem[t][places[u].prefix % 512]) && Ppn(mem[t][places[u].prefix % 512]) == u
  }

  ghost predicate OwnPlace(places: Places, t: nat, u: nat) {
    t in places && u in places && places[t] == places[u] ==> t == u
  }

  ghost predicate HasParent(mem: Memory, places: Places, root: nat, u: nat) {
    u in places && u != root ==> exists t :: LinksTo(mem, places, t, u)
  }

  // No two tables share a place, and every table but the root is linked from another.
  ghost predicate Rooted(mem: Memory, places: Places, root: nat) {
    && (forall t: nat, u: nat :: OwnPlace(places, t, u))
    && forall u: nat :: HasParent(mem, places, root, u)
  }

  // Entry i of table t is a pointer to u.
  ghost predicate PointsTo(mem: Memory, places: Places, t: nat, i: nat, u: nat) {
    && t in places && t in mem && |mem[t]| == PT_ENTRIES && i < PT_ENTRIES && places[t].level > 0
    && Pointer(mem[t][i]) && Ppn(mem[t][i]) == u
  }

  // So two pointers never lead to the same table.
  lemma {:induction false} SamePointer(mem: Memory, places: Places, root: nat, levels: nat, t: nat, i: nat, u: nat, j: nat, w: nat)
    requires TreeOk(mem, places, root, levels) && Rooted(mem, places, root)
    requires PointsTo(mem, places, t, i, w) && PointsTo(mem, places, u, j, w)
    ensures t == u && i == j
  {
    assert TableOk(mem, places, t) && TableOk(mem, places, u);
    assert SlotOk(mem, places, t, i);
    assert SlotOk(mem, places, u, j);
    assert OwnPlace(places, t, u);
  }

  // No table lies above the root: its parents would never end.
  lemma {:induction false} NoHigherTable(mem: Memory, places: Places, root: nat, levels: nat, u: nat, left: set<nat>)
    requires TreeOk(mem, places, root, levels) && Rooted(mem, places, root)
    requires u in places && forall t :: t in places && places[t].level >= places[u].level ==> t in left
    ensures places[u].level < levels
    decreases left
  {
    if places[u].level >= levels {
      assert HasParent(mem, places, root, u);
      var t :| LinksTo(mem, places, t, u);
      NoHigherTable(mem, places, root, levels, t, left - {u});
    }
  }

  lemma {:induction false} RootUnreferenced(mem: Memory, places: Places, root: nat, levels: nat, t: nat, i: nat)
    requires TreeOk(mem, places, root, levels) && Rooted(mem, places, root)
    ensures !PointsTo(mem, places, t, i, root)
  {
    if PointsTo(mem, places, t, i, root) {
      assert TableOk(mem, places, t);
      assert SlotOk(mem, places, t, i);
      NoHigherTable(mem, places, root, levels, t, places.Keys);
    }
  }

  // Every table but the root is referenced by exactly one entry, and the root by none.
  lemma {:induction false} ReferencedOnce(mem: Memory, places: Places, root: nat, levels: nat, u: nat)
    requires TreeOk(mem, places, root, levels) && Rooted(mem, places, root) && u in places
    ensures u == root ==> forall t: nat, i: nat :: !PointsTo(mem, places, t, i, u)
    ensures u != root ==> exists t: nat, i: nat ::
              && PointsTo(mem, places, t, i, u)
              && forall t': nat, i': nat :: PointsTo(mem, places, t', i', u) ==> t' == t && i' == i
  {
    if u == root {
      forall t: nat, i: nat
        ensures !PointsTo(mem, places, t, i, u)
      {
        RootUnreferenced(mem, places, root, levels, t, i);
      }
    } else {
      assert HasParent(mem, places, root, u);
      var t :| LinksTo(mem, places, t, u);
      var i := places[u].prefix % 512;
      assert PointsTo(mem, places, t, i, u);
      forall t': nat, i': nat | PointsTo(mem, places, t', i', u)
        ensures t' == t && i' == i
      {
        SamePointer(mem, places, root, levels, t', i', t, i, u);
      }
    }
  }

  lemma {:induction false} RootedLeaf(mem: Memory, places: Places, root: nat, t: nat, i: nat, e: nat)
    requires Rooted(mem, places, root)
    requires t in places && TableOk(mem, places, t) && places[t].level == 0 && i < PT_ENTRIES
    ensures Rooted(WriteEntry(mem, t, i, e), places, root)
  {
    forall u: nat
      ensures HasParent(WriteEntry(mem, t, i, e), places, root, u)
    {
      assert HasParent(mem, places, root, u);
      if u in places && u != root {
        var s :| LinksTo(mem, places, s, u);
        assert LinksTo(WriteEntry(mem, t, i, e), places, s, u);
      }
    }
  }

  // A place whose slot is empty is not taken.
  lemma {:induction false} PlaceIsFree(mem: Memory, places: Places, root: nat, levels: nat, t: nat, i: nat, u: nat)
    requires Rooted(mem, places, root) && root in places && places[root].level == levels - 1
    requires t in places && TableOk(mem, places, t) && 0 < places[t].level < levels && i < PT_ENTRIES
    requires !Bit(mem[t][i], V) && u in places
    ensures places[u] != Place(places[t].level - 1, places[t].prefix * 512 + i)
  {
    assert HasParent(mem, places, root, u);
    if u != root {
      var s :| LinksTo(mem, places, s, u);
      assert OwnPlace(places, s, t);
    }
  }

  lemma {:induction false} RootedLink(mem: Memory, places: Places, root: nat, levels: nat, t: nat, i: nat, n: nat, e: nat)
    requires Rooted(mem, places, root) && root in places && places[root].level == levels - 1
    requires t in places && TableOk(mem, places, t) && 0 < places[t].level < levels && i < PT_ENTRIES
    requires !Bit(mem[t][i], V)
    requires n !in places && Pointer(e) && Ppn(e) == n
    ensures Rooted(WriteEntry(mem[n := EmptyTable()], t, i, e),
                   places[n := Place(places[t].level - 1, places[t].prefix * 512 + i)], root)
  {
    var mem' := WriteEntry(mem[n := EmptyTable()], t, i, e);
    var place := Place(places[t].level - 1, places[t].prefix * 512 + i);
    var places' := places[n := place];
    forall u: nat, w: nat
      ensures OwnPlace(places', u, w)
    {
      assert OwnPlace(places, u, w);
      if u in places {
        PlaceIsFree(mem, places, root, levels, t, i, u);
      }
      if w in places {
        PlaceIsFree(mem, places, root, levels, t, i, w);
      }
    }
    forall u: nat
      ensures HasParent(mem', places', root, u)
    {
      assert HasParent(mem, places, root, u);
      if u == n {
        assert LinksTo(mem', places', t, n);
      } else if u in places && u != root {
        var s :| LinksTo(mem, places, s, u);
        assert LinksTo(mem', places', s, u);
      }
    }
  }

  // ---- The tables still missing on a path ----

  // How many tables the walk of vpn lacks below table t.
  function Missing(mem: Memory, t: nat, level: nat, vpn: nat): (n: nat)
    ensures n <= level
    decreases level
  {
    if level == 0 || t !in mem || |mem[t]| != PT_ENTRIES then 0
    else
      var pte := mem[t][Digit(vpn, level)];
      if Pointer(pte) then Missing(mem, Ppn(pte), level - 1, vpn)
      else if Bit(pte, V) then 0
      else level
  }

  lemma {:induction false} ReachesMissing(mem: Memory, s: nat, from: nat, vpn: nat, t: nat, to: nat)
    requires Reaches(mem, s, from, vpn, t, to)
    ensures Missing(mem, s, from, vpn) == Missing(mem, t, to, vpn)
    decreases from
  {
    if from != to {
      ReachesMissing(mem, Ppn(mem[s][Digit(vpn, from)]), from - 1, vpn, t, to);
    }
  }

  // Linking an empty table into the path leaves one table less to link.
  lemma {:induction false} LinkMissing(mem: Memory, mem': Memory, s: nat, from: nat, vpn: nat, t: nat, level: nat)
    requires Reaches(mem, s, from, vpn, t, level) && Reaches(mem', s, from, vpn, t, level) && level > 0
    requires t in mem && |mem[t]| == PT_ENTRIES && !Bit(mem[t][Digit(vpn, level)], V)
    requires t in mem' && |mem'[t]| == PT_ENTRIES && Pointer(mem'[t][Digit(vpn, level)])
    requires var n := Ppn(mem'[t][Digit(vpn, level)]); n in mem' && mem'[n] == EmptyTable()
    ensures Missing(mem, s, from, vpn) == level && Missing(mem', s, from, vpn) == level - 1
  {
    ReachesMissing(mem, s, from, vpn, t, level);
    ReachesMissing(mem', s, from, vpn, t, level);
    ZeroBit(V);
    NothingMissing(mem, t, level, vpn);
  }

  lemma {:induction false} NothingMissing(mem: Memory, t: nat, level: nat, vpn: nat)
    requires level > 0 && t in mem && |mem[t]| == PT_ENTRIES
    ensures Bit(mem[t][Digit(vpn, level)], V) && !Pointer(mem[t][Digit(vpn, level)]) ==> Missing(mem, t, level, vpn) == 0
    ensures !Bit(mem[t][Digit(vpn, level)], V) ==> Missing(mem, t, level, vpn) == level
  {
  }

  // A table linked into the path of vpn lies on that path.
  lemma {:induction false} NewOnPath(places: Places, t: nat, level: nat, vpn: nat, n: nat)
    requires OnPath(places, t, level, vpn) && level > 0
    ensures OnPath(places[n := Place(level - 1, places[t].prefix * 512 + Digit(vpn, level))], n, level - 1, vpn)
  {
    PrefixNext(vpn, level);
  }

  // ---- Both steps together ----

  ghost function WalkRoot(mem: Memory, root: nat, levels: nat, vpn: nat): Translation
    requires levels > 0
  {
    Walk(mem, root, levels - 1, vpn)
  }

  ghost predicate SameWalks(mem: Memory, mem': Memory, root: nat, levels: nat) {
    && levels > 0
    && forall v: nat :: v < Pow512(levels) ==> WalkRoot(mem', root, levels, v) == WalkRoot(mem, root, levels, v)
  }

  ghost predicate SameWalksBut(mem: Memory, mem': Memory, root: nat, levels: nat, vpn: nat) {
    && levels > 0
    && forall v: nat :: v < Pow512(levels) && v != vpn ==>
                          WalkRoot(mem', root, levels, v) == WalkRoot(mem, root, levels, v)
  }

  ghost predicate Tree(mem: Memory, places: Places, root: nat, levels: nat) {
    TreeOk(mem, places, root, levels) && Rooted(mem, places, root)
  }

  lemma {:induction false} LinkKeepsWalks(mem: Memory, places: Places, root: nat, levels: nat, t: nat, i: nat, n: nat, e: nat)
    requires TreeOk(mem, places, root, levels)
    requires t in places && TableOk(mem, places, t) && i < PT_ENTRIES && !Bit(mem[t][i], V)
    requires n !in places && Pointer(e) && Ppn(e) == n
    ensures SameWalks(mem, WriteEntry(mem[n := EmptyTable()], t, i, e), root, levels)
  {
    var mem' := WriteEntry(mem[n := EmptyTable()], t, i, e);
    forall v: nat | v < Pow512(levels)
      ensures WalkRoot(mem', root, levels, v) == WalkRoot(mem, root, levels, v)
    {
      RootOnPath(mem, places, root, levels, v);
      LinkFrame(mem, places, t, i, n, e, root, levels - 1, v);
    }
  }

  lemma {:induction false} StepLink(mem: Memory, places: Places, root: nat, levels: nat, t: nat, level: nat, vpn: nat, n: nat, e: nat)
    requires Tree(mem, places, root, levels) && vpn < Pow512(levels)
    requires 0 < level < levels && OnPath(places, t, level, vpn)
    requires Reaches(mem, root, levels - 1, vpn, t, level)
    requires TableOk(mem, places, t) && !Bit(mem[t][Digit(vpn, level)], V)
    requires n !in places && Pointer(e) && Ppn(e) == n
    ensures var i := Digit(vpn, level);
            var mem' := WriteEntry(mem[n := EmptyTable()], t, i, e);
            var places' := places[n := Place(level - 1, places[t].prefix * 512 + i)];
            && Tree(mem', places', root, levels)
            && SameWalks(mem, mem', root, levels)
            && OnPath(places', t, level, vpn)
            && Reaches(mem', root, levels - 1, vpn, t, level)
  {
    var i := Digit(vpn, level);
    TreeOkLink(mem, places, root, levels, t, i, n, e);
    RootedLink(mem, places, root, levels, t, i, n, e);
    LinkKeepsWalks(mem, places, root, levels, t, i, n, e);
    RootOnPath(mem, places, root, levels, vpn);
    UpperTables(mem, places, t, i, n, e);
    ReachesWrite(mem, WriteEntry(mem[n := EmptyTable()], t, i, e), places, root, levels - 1, vpn, t, level);
  }

  lemma {:induction false} UpperTables(mem: Memory, places: Places, t: nat, i: nat, n: nat, e: nat)
    requires forall u: nat :: TableOk(mem, places, u)
    requires t in places && TableOk(mem, places, t) && i < PT_ENTRIES && n !in places
    ensures var mem' := WriteEntry(mem[n := EmptyTable()], t, i, e);
            forall u :: u in places && places[u].level > places[t].level ==>
                          u in mem && u in mem' && mem'[u] == mem[u]
  {
    forall u | u in places
      ensures u in mem
    {
      assert TableOk(mem, places, u);
    }
  }

  lemma {:induction false} LeafKeepsWalks(mem: Memory, places: Places, root: nat, levels: nat, t: nat, vpn: nat, e: nat)
    requires TreeOk(mem, places, root, levels) && OnPath(places, t, 0, vpn) && TableOk(mem, places, t)
    ensures SameWalksBut(mem, WriteEntry(mem, t, Digit(vpn, 0), e), root, levels, vpn)
  {
    var i := Digit(vpn, 0);
    PrefixNext(vpn, 0);
    var mem' := WriteEntry(mem, t, i, e);
    forall v: nat | v < Pow512(levels) && v != vpn
      ensures WalkRoot(mem', root, levels, v) == WalkRoot(mem, root, levels, v)
    {
      RootOnPath(mem, places, root, levels, v);
      LeafFrame(mem, places, t, i, e, root, levels - 1, v);
    }
  }

  // Writing a leaf at the end of the path maps that page number and no other.
  lemma {:induction false} StepLeaf(mem: Memory, places: Places, root: nat, levels: nat, t: nat, vpn: nat, e: nat)
    requires Tree(mem, places, root, levels) && vpn < Pow512(levels)
    requires OnPath(places, t, 0, vpn) && Reaches(mem, root, levels - 1, vpn, t, 0)
    requires TableOk(mem, places, t) && GoodLeaf(e, 0)
    ensures var mem' := WriteEntry(mem, t, Digit(vpn, 0), e);
            && Tree(mem', places, root, levels)
            && WalkRoot(mem', root, levels, vpn) == Page(Ppn(e), e % 1024, 0)
            && SameWalksBut(mem, mem', root, levels, vpn)
  {
    var i := Digit(vpn, 0);
    TreeOkLeaf(mem, places, root, levels, t, i, e);
    RootedLeaf(mem, places, root, t, i, e);
    LeafKeepsWalks(mem, places, root, levels, t, vpn, e);
    var mem' := WriteEntry(mem, t, i, e);
    RootOnPath(mem, places, root, levels, vpn);
    UpperLeaf(mem, places, t, i, e);
    ReachesWrite(mem, mem', places, root, levels - 1, vpn, t, 0);
    ReachesWalk(mem', root, levels - 1, vpn, t, 0);
    assert Low(vpn, 0) == 0;
  }

  lemma {:induction false} UpperLeaf(mem: Memory, places: Places, t: nat, i: nat, e: nat)
    requires forall u: nat :: TableOk(mem, places, u)
    requires t in places && TableOk(mem, places, t) && places[t].level == 0 && i < PT_ENTRIES
    ensures var mem' := WriteEntry(mem, t, i, e);
            forall u :: u in places && places[u].level > 0 ==>
                          u in mem && u in mem' && mem'[u] == mem[u]
  {
    forall u | u in places
      ensures u in mem
    {
      assert TableOk(mem, places, u);
    }
  }

  // Following a pointer keeps the walk on its path.
  lemma {:induction false} StepDown(mem: Memory, places: Places, root: nat, levels: nat, t: nat, level: nat, vpn: nat)
    requires Tree(mem, places, root, levels)
    requires 0 < level < levels && OnPath(places, t, level, vpn)
    requires Reaches(mem, root, levels - 1, vpn, t, level)
    requires t in places && TableOk(mem, places, t) && Pointer(mem[t][Digit(vpn, level)])
    ensures var u := Ppn(mem[t][Digit(vpn, level)]);
            && OnPath(places, u, level - 1, vpn)
            && Reaches(mem, root, levels - 1, vpn, u, level - 1)
  {
    PathStep(mem, places, t, level, vpn);
    ReachesNext(mem, root, levels - 1, vpn, t, level);
  }
}
