/** The page-table builder of kernel/src/mm/paging.c, on top of the page allocator. */
module PageTables {
  import opened Machine
  import opened Bits
  import opened Sv
  import opened Pte
  import opened PageTree
  import Own = Ownership
  import Alloc = PageAllocator
  import Lists = FreeLists
  import Db = PfnDatabase
  import Runs = Histories

  const PHYS_LIMIT: nat := 0x100_0000_0000_0000  // 2^56

  // Virtual address va reaches physical address pa by a leaf that names the access asked for.
  ghost predicate Maps(mem: Memory, root: nat, levels: nat, va: nat, pa: nat, flags: nat)
    requires 3 <= levels <= 5
  {
    var t := Translate(mem, root, levels, va);
    t.Page? && t.ppn * PAGE_SIZE == pa && Names(t.flags, flags)
  }

  // And the kernel gets that access.
  ghost predicate KernelMaps(mem: Memory, root: nat, levels: nat, va: nat, pa: nat, flags: nat)
    requires 3 <= levels <= 5
  {
    var t := Translate(mem, root, levels, va);
    t.Page? && t.ppn * PAGE_SIZE == pa && Grants(t.flags, flags)
  }

  predicate User(t: Translation) {
    t.Page? && Bit(t.flags, U)
  }

  // The page is mapped as asked, but for user mode.
  ghost predicate UserMaps(mem: Memory, root: nat, levels: nat, va: nat, pa: nat, flags: nat)
    requires 3 <= levels <= 5
  {
    Maps(mem, root, levels, va, pa, flags) && User(Translate(mem, root, levels, va))
  }

  // The page of va is mapped by a leaf of its own with exactly the flags asked for.
  ghost predicate MapsPage(mem: Memory, root: nat, levels: nat, va: nat, pa: nat, flags: nat)
    requires 3 <= levels <= 5
  {
    Translate(mem, root, levels, va) == Page(pa / PAGE_SIZE, LeafFlags(flags), 0)
  }

  // Only the page of va may translate differently.
  ghost predicate SameBut(mem: Memory, mem': Memory, root: nat, levels: nat, va: nat)
    requires 3 <= levels <= 5
  {
    forall b: nat :: b / PAGE_SIZE != va / PAGE_SIZE ==>
                       Translate(mem', root, levels, b) == Translate(mem, root, levels, b)
  }

  ghost predicate SameTranslation(mem: Memory, mem': Memory, root: nat, levels: nat)
    requires 3 <= levels <= 5
  {
    forall b: nat :: Translate(mem', root, levels, b) == Translate(mem, root, levels, b)
  }

  // Table pages are no part of a free block, nor of any live block but their own; and every
  // page the allocator manages is memory a table can live in.
  ghost predicate Separate(o: Own.Frames, places: Places, mem: Memory) {
    && |o| <= PHYS_LIMIT / PAGE_SIZE
    && (forall t :: t in places && t < |o| ==> o[t] == Own.Reserved || o[t] == Own.Block(t, 0, Own.Live))
    && forall p: nat :: p < |o| && o[p] != Own.Reserved ==> p in mem
  }

  lemma {:induction false} WalksToTranslation(mem: Memory, mem': Memory, root: nat, levels: nat)
    requires 3 <= levels <= 5 && SameWalks(mem, mem', root, levels)
    ensures SameTranslation(mem, mem', root, levels)
  {
    forall b: nat
      ensures Translate(mem', root, levels, b) == Translate(mem, root, levels, b)
    {
      var v := Vpn(b, levels);
      assert WalkRoot(mem', root, levels, v) == WalkRoot(mem, root, levels, v);
    }
  }

  lemma {:induction false} WalksButToTranslation(mem: Memory, mem': Memory, root: nat, levels: nat, va: nat)
    requires 3 <= levels <= 5 && Canonical(va, levels) && SameWalksBut(mem, mem', root, levels, Vpn(va, levels))
    ensures SameBut(mem, mem', root, levels, va)
  {
    forall b: nat | b / PAGE_SIZE != va / PAGE_SIZE
      ensures Translate(mem', root, levels, b) == Translate(mem, root, levels, b)
    {
      if Canonical(b, levels) {
        if Vpn(b, levels) == Vpn(va, levels) {
          CanonicalVpn(b, va, levels);
        }
        var v := Vpn(b, levels);
        assert WalkRoot(mem', root, levels, v) == WalkRoot(mem, root, levels, v);
      }
    }
  }

  class Paging {
    const pmm: Alloc.Pmm
    var mem: Memory
    const rootPhys: nat   // g_root_phys, read from satp once
    const levels: nat     // g_levels
    ghost var places: Places

    // The tables the bootloader left, as satp describes them.
    constructor (allocator: Alloc.Pmm, memory: Memory, root: nat, depth: nat, ghost where: Places)
      requires root % PAGE_SIZE == 0 && root < PHYS_LIMIT
      requires Tree(memory, where, root / PAGE_SIZE, depth)
      requires allocator.Valid() && allocator.ready && Separate(allocator.frames, where, memory)
      ensures Valid() && pmm == allocator && mem == memory && rootPhys == root && levels == depth && places == where
    {
      pmm, mem, rootPhys, levels, places := allocator, memory, root, depth, where;
    }

    ghost predicate TreeValid()
      reads this
    {
      && rootPhys % PAGE_SIZE == 0 && rootPhys < PHYS_LIMIT
      && Tree(mem, places, rootPhys / PAGE_SIZE, levels)
    }

    ghost predicate Valid()
      reads this, pmm, pmm.pages, pmm.freeLists
    {
      && pmm.Valid() && pmm.ready
      && TreeValid()
      && Separate(pmm.frames, places, mem)
    }

    // A zeroed page from the page allocator, as a physical address; ok is false when there is none.
    method AllocTable() returns (ok: bool, phys: nat)
      requires Valid()
      modifies this`mem, pmm`freePages, pmm.pages, pmm.freeLists, pmm`lists, pmm`frames
      ensures pmm.Valid() && pmm.ready
      ensures Own.KeepsOthers(old(pmm.frames), pmm.frames)
      ensures !ok ==> mem == old(mem) && pmm.frames == old(pmm.frames) && Own.FreeFrames(pmm.frames) == {}
      ensures ok ==> Own.FreeFrames(pmm.frames) == Own.FreeFrames(old(pmm.frames)) - {phys / PAGE_SIZE}
                     && phys / PAGE_SIZE in Own.FreeFrames(old(pmm.frames))
      ensures ok ==> phys % PAGE_SIZE == 0 && phys < PHYS_LIMIT
                     && phys / PAGE_SIZE !in places && mem == old(mem)[phys / PAGE_SIZE := EmptyTable()]
                     && Own.IsBlock(pmm.frames, phys / PAGE_SIZE, 0, Own.Live)
    {
      var page := OnePage(pmm);
      if page == Lists.Null {
        return false, 0;
      }
      NewTable(old(pmm.frames), pmm.frames, places, mem, page.pfn);
      mem := mem[page.pfn := EmptyTable()];
      ok, phys := true, page.pfn * PAGE_SIZE;
    }

    // Gives an empty slot of a table on the path a pointer to a new, empty table.
    method LinkTable(t: nat, level: nat, index: nat, ghost vpn: nat) returns (ok: bool)
      requires Valid() && At(mem, places, rootPhys / PAGE_SIZE, levels, t, level, vpn)
      requires level > 0 && index == Digit(vpn, level) && !Bit(mem[t][index], V)
      modifies this`mem, this`places, pmm`freePages, pmm.pages, pmm.freeLists, pmm`lists, pmm`frames
      ensures Valid()
      ensures TookTables(old(pmm.frames), pmm.frames, old(places), places)
      ensures |places| == |old(places)| + if ok then 1 else 0
      ensures !ok ==> mem == old(mem) && places == old(places) && Own.FreeFrames(pmm.frames) == {}
      ensures !ok ==> Missing(mem, rootPhys / PAGE_SIZE, levels - 1, vpn) > 0
      ensures LinkedOn(old(mem), mem, old(places), places, rootPhys / PAGE_SIZE, levels, vpn)
      ensures ok ==> SameTranslation(old(mem), mem, rootPhys / PAGE_SIZE, levels)
      ensures ok ==> At(mem, places, rootPhys / PAGE_SIZE, levels, t, level, vpn)
      ensures ok ==> Pointer(mem[t][index])
    {
      EmptySlot(mem, rootPhys / PAGE_SIZE, levels, t, level, vpn);
      var phys;
      ok, phys := AllocTable();
      if !ok {
        LinkedNone(mem, places, rootPhys / PAGE_SIZE, levels, vpn);
        return;
      }
      ghost var m, p := old(mem), places;
      SetPointer(m, t, level, index, phys, vpn);
      SeparateLink(old(pmm.frames), pmm.frames, p, m, phys / PAGE_SIZE, mem, places);
      TookOne(old(pmm.frames), pmm.frames, p, places, phys / PAGE_SIZE);
    }

    // table[index] = paging_table_pte(new_phys)
    method SetPointer(ghost before: Memory, t: nat, level: nat, index: nat, phys: nat, ghost vpn: nat)
      requires Tree(before, places, rootPhys / PAGE_SIZE, levels)
      requires At(before, places, rootPhys / PAGE_SIZE, levels, t, level, vpn)
      requires level > 0 && index == Digit(vpn, level) && !Bit(before[t][index], V)
      requires phys % PAGE_SIZE == 0 && phys < PHYS_LIMIT && phys / PAGE_SIZE !in places
      requires mem == before[phys / PAGE_SIZE := EmptyTable()]
      modifies this`mem, this`places
      ensures Tree(mem, places, rootPhys / PAGE_SIZE, levels)
      ensures SameTranslation(before, mem, rootPhys / PAGE_SIZE, levels)
      ensures At(mem, places, rootPhys / PAGE_SIZE, levels, t, level, vpn)
      ensures Pointer(mem[t][index])
      ensures LinkedOn(before, mem, old(places), places, rootPhys / PAGE_SIZE, levels, vpn)
      ensures Extends(old(places), places) && places.Keys == old(places).Keys + {phys / PAGE_SIZE}
      ensures |places| == |old(places)| + 1
      ensures mem.Keys == old(mem).Keys
    {
      LinkDone(before, mem, places, rootPhys / PAGE_SIZE, levels, t, level, vpn, phys);
      mem := WriteEntry(mem, t, index, TablePte(phys));
      places := places[phys / PAGE_SIZE := Place(level - 1, places[t].prefix * 512 + index)];
    }

    // Writes a level-0 leaf at the end of the path.
    method SetLeaf(t: nat, va: nat, pa: nat, flags: nat)
      requires TreeValid() && Canonical(va, levels) && va % PAGE_SIZE == 0
      requires At(mem, places, rootPhys / PAGE_SIZE, levels, t, 0, Vpn(va, levels))
      requires pa % PAGE_SIZE == 0 && pa < PHYS_LIMIT && Accessible(flags)
      modifies this`mem
      ensures TreeValid() && mem.Keys == old(mem).Keys
      ensures Maps(mem, rootPhys / PAGE_SIZE, levels, va, pa, flags)
      ensures KernelMaps(mem, rootPhys / PAGE_SIZE, levels, va, pa, flags)
      ensures MapsPage(mem, rootPhys / PAGE_SIZE, levels, va, pa, flags)
      ensures SameBut(old(mem), mem, rootPhys / PAGE_SIZE, levels, va)
    {
      var pageIndex := LevelIndex(va, 0);
      LeafDone(mem, places, rootPhys / PAGE_SIZE, levels, t, va, pa, flags);
      mem := WriteEntry(mem, t, pageIndex, LeafPte(pa, flags));
    }

    // Reads the entry of va in a table on its path, linking a new table if there is none.
    method FetchEntry(t: nat, level: nat, va: nat, ghost pa: nat, ghost flags: nat)
      returns (ok: bool, entry: nat, next: nat, ghost below: nat)
      requires Valid() && Canonical(va, levels) && va % PAGE_SIZE == 0 && Accessible(flags)
      requires At(mem, places, rootPhys / PAGE_SIZE, levels, t, level, Vpn(va, levels)) && level > 0
      modifies this`mem, this`places, pmm`freePages, pmm.pages, pmm.freeLists, pmm`lists, pmm`frames
      ensures Valid()
      ensures TookTables(old(pmm.frames), pmm.frames, old(places), places)
      ensures LinkedOn(old(mem), mem, old(places), places, rootPhys / PAGE_SIZE, levels, Vpn(va, levels))
      ensures SameTranslation(old(mem), mem, rootPhys / PAGE_SIZE, levels)
      ensures !ok ==> Exhausted(pmm.frames, old(mem), mem, rootPhys / PAGE_SIZE, levels, va, pa, flags)
      ensures Maps(old(mem), rootPhys / PAGE_SIZE, levels, va, pa, flags) ==> ok && mem == old(mem)
      ensures ok && And(entry, PTE_RWX) == 0 ==>
                below == level - 1 && At(mem, places, rootPhys / PAGE_SIZE, levels, next, below, Vpn(va, levels))
      ensures ok && And(entry, PTE_RWX) != 0 ==> LeafAt(mem, rootPhys / PAGE_SIZE, levels, va, pa, flags, entry, level)
    {
      IndexIsDigit(va, levels, level);
      var index := LevelIndex(va, level);
      entry := mem[t][index];
      if And(entry, PTE_V) == 0 {
        AbsentSlot(mem, places, rootPhys / PAGE_SIZE, levels, t, level, va, pa, flags);
        ok, entry, next, below := LinkEntry(t, level, index, Vpn(va, levels));
        return;
      }
      ok, next, below := true, PteToPhys(entry) / PAGE_SIZE, level - 1;
      PresentSlot(mem, places, rootPhys / PAGE_SIZE, levels, t, level, va, pa, flags, entry, next, below);
    }

    // Links a new table and reads the entry back.
    method LinkEntry(t: nat, level: nat, index: nat, ghost vpn: nat)
      returns (ok: bool, entry: nat, next: nat, ghost below: nat)
      requires Valid() && At(mem, places, rootPhys / PAGE_SIZE, levels, t, level, vpn)
      requires level > 0 && index == Digit(vpn, level) && !Bit(mem[t][index], V)
      modifies this`mem, this`places, pmm`freePages, pmm.pages, pmm.freeLists, pmm`lists, pmm`frames
      ensures Valid()
      ensures TookTables(old(pmm.frames), pmm.frames, old(places), places)
      ensures LinkedOn(old(mem), mem, old(places), places, rootPhys / PAGE_SIZE, levels, vpn)
      ensures SameTranslation(old(mem), mem, rootPhys / PAGE_SIZE, levels)
      ensures !ok ==> Own.FreeFrames(pmm.frames) == {} && Missing(mem, rootPhys / PAGE_SIZE, levels - 1, vpn) > 0
                      && mem == old(mem)
      ensures ok ==> And(entry, PTE_RWX) == 0 && below == level - 1
                     && At(mem, places, rootPhys / PAGE_SIZE, levels, next, below, vpn)
    {
      ok := LinkTable(t, level, index, vpn);
      entry, next, below := 0, 0, level - 1;
      if !ok {
        return;
      }
      entry := mem[t][index];
      PointerTests(entry);
      next := PteToPhys(entry) / PAGE_SIZE;
      FollowPointer(mem, places, rootPhys / PAGE_SIZE, levels, t, level, vpn, next, below);
    }

    // One level of the walk: the entry found there, or a new table linked; what it means, and
    // the table it leads to.
    method EnsureEntry(t: nat, level: nat, va: nat, ghost pa: nat, ghost flags: nat,
                       ghost o: Own.Frames, ghost p: Places, ghost m: Memory)
      returns (ok: bool, entry: nat, next: nat, ghost below: nat)
      requires Valid() && Canonical(va, levels) && va % PAGE_SIZE == 0 && Accessible(flags)
      requires At(mem, places, rootPhys / PAGE_SIZE, levels, t, level, Vpn(va, levels)) && level > 0
      requires Descent(o, pmm.frames, p, places, m, mem, rootPhys / PAGE_SIZE, levels, va, pa, flags)
      modifies this`mem, this`places, pmm`freePages, pmm.pages, pmm.freeLists, pmm`lists, pmm`frames
      ensures Valid()
      ensures !ok ==> Outcome(o, pmm.frames, p, places, m, mem, rootPhys / PAGE_SIZE, levels, va, pa, flags, false)
      ensures ok && And(entry, PTE_RWX) == 0 ==>
                && below == level - 1
                && At(mem, places, rootPhys / PAGE_SIZE, levels, next, below, Vpn(va, levels))
                && Descent(o, pmm.frames, p, places, m, mem, rootPhys / PAGE_SIZE, levels, va, pa, flags)
      ensures ok && And(entry, PTE_RWX) != 0 ==>
                Outcome(o, pmm.frames, p, places, m, mem, rootPhys / PAGE_SIZE, levels, va, pa, flags,
                        EntryCovers(entry, va, pa, flags, level))
    {
      ghost var o1, p1, m1 := pmm.frames, places, mem;
      ok, entry, next, below := FetchEntry(t, level, va, pa, flags);
      DescentMore(o, o1, pmm.frames, p, p1, places, m, m1, mem, rootPhys / PAGE_SIZE, levels, va, pa, flags);
      if !ok {
        NoPageLeft(o, pmm.frames, p, places, m, m1, mem, rootPhys / PAGE_SIZE, levels, va, pa, flags);
      } else if And(entry, PTE_RWX) != 0 {
        LeafMet(o, pmm.frames, p, places, m, mem, rootPhys / PAGE_SIZE, levels, va, pa, flags, entry, level);
      }
    }

    method MapOne(va: nat, pa: nat, flags: nat) returns (ok: bool)
      requires Valid() && Canonical(va, levels) && va % PAGE_SIZE == 0
      requires pa % PAGE_SIZE == 0 && pa < PHYS_LIMIT && Accessible(flags)
      modifies this`mem, this`places, pmm`freePages, pmm.pages, pmm.freeLists, pmm`lists, pmm`frames
      ensures Valid()
      ensures Outcome(old(pmm.frames), pmm.frames, old(places), places, old(mem), mem, rootPhys / PAGE_SIZE, levels, va, pa, flags, ok)
    {
      ghost var o, p, m := pmm.frames, places, mem;
      var table: nat := rootPhys / PAGE_SIZE;
      var level: nat := levels - 1;
      StartAt(mem, places, rootPhys / PAGE_SIZE, levels, Vpn(va, levels));
      NoDescent(o, p, m, rootPhys / PAGE_SIZE, levels, va, pa, flags);
      while level > 0
        invariant Valid()
        invariant At(mem, places, rootPhys / PAGE_SIZE, levels, table, level, Vpn(va, levels))
        invariant Descent(o, pmm.frames, p, places, m, mem, rootPhys / PAGE_SIZE, levels, va, pa, flags)
        decreases level
      {
        var present, entry, next, below := EnsureEntry(table, level, va, pa, flags, o, p, m);
        if !present {
          return false;
        }
        if And(entry, PTE_RWX) != 0 {
          if EntryCovers(entry, va, pa, flags, level) {
            return true;
          }
          return false;
        }
        table := next;
        level := level - 1;
        AtMoved(mem, places, rootPhys / PAGE_SIZE, levels, next, below, table, level, Vpn(va, levels));
      }
      ok := MapLast(table, va, pa, flags, o, p, m);
    }

    // The end of the walk, at a table on the last level.
    method MapLast(t: nat, va: nat, pa: nat, flags: nat, ghost o: Own.Frames, ghost p: Places, ghost m: Memory) returns (ok: bool)
      requires Valid() && Canonical(va, levels) && va % PAGE_SIZE == 0
      requires At(mem, places, rootPhys / PAGE_SIZE, levels, t, 0, Vpn(va, levels))
      requires pa % PAGE_SIZE == 0 && pa < PHYS_LIMIT && Accessible(flags)
      requires Descent(o, pmm.frames, p, places, m, mem, rootPhys / PAGE_SIZE, levels, va, pa, flags)
      modifies this`mem
      ensures Valid() && ok
      ensures Outcome(o, pmm.frames, p, places, m, mem, rootPhys / PAGE_SIZE, levels, va, pa, flags, true)
    {
      ghost var m1 := mem;
      ok := MapLeaf(t, va, pa, flags);
      LeafDoneLast(o, pmm.frames, p, places, m, m1, mem, rootPhys / PAGE_SIZE, levels, t, va, pa, flags);
    }

    // The last level: keep a leaf that already serves, otherwise write one.
    method MapLeaf(t: nat, va: nat, pa: nat, flags: nat) returns (ok: bool)
      requires TreeValid() && Canonical(va, levels) && va % PAGE_SIZE == 0
      requires At(mem, places, rootPhys / PAGE_SIZE, levels, t, 0, Vpn(va, levels))
      requires pa % PAGE_SIZE == 0 && pa < PHYS_LIMIT && Accessible(flags)
      modifies this`mem
      ensures TreeValid() && mem.Keys == old(mem).Keys && ok
      ensures Mapped(old(mem), mem, rootPhys / PAGE_SIZE, levels, va, pa, flags, true)
    {
      var pageIndex := LevelIndex(va, 0);
      IndexIsDigit(va, levels, 0);
      var entry := mem[t][pageIndex];
      SlotCases(mem, places, rootPhys / PAGE_SIZE, levels, t, 0, Vpn(va, levels), va, pa, flags);
      if And(entry, PTE_V) != 0 {
        if EntryCovers(entry, va, pa, flags, 0) {
          return true;
        }
      }
      SetLeaf(t, va, pa, flags);
      ok := true;
    }

    method MapPage(va: nat, pa: nat, flags: nat) returns (ok: bool)
      requires Valid() && Canonical(va, levels) && pa < PHYS_LIMIT && Accessible(flags)
      modifies this`mem, this`places, pmm`freePages, pmm.pages, pmm.freeLists, pmm`lists, pmm`frames
      ensures Valid()
      ensures TookTables(old(pmm.frames), pmm.frames, old(places), places)
      ensures ok <==> && va % PAGE_SIZE == 0 && pa % PAGE_SIZE == 0 && rootPhys != 0
                      && !Conflict(old(mem), rootPhys / PAGE_SIZE, levels, va, pa, flags)
                      && Enough(old(pmm.frames), old(mem), rootPhys / PAGE_SIZE, levels, va)
      ensures places == old(places) || Spent(old(pmm.frames), old(places), places, old(mem), rootPhys / PAGE_SIZE, levels, va)
      ensures NewServe(old(places), places, levels, iset{va})
      ensures ok ==> va % PAGE_SIZE == 0 && Mapped(old(mem), mem, rootPhys / PAGE_SIZE, levels, va, pa, flags, true)
      ensures !ok ==> SameTranslation(old(mem), mem, rootPhys / PAGE_SIZE, levels)
      ensures !ok ==> Obstacle(old(mem), rootPhys, levels, pmm.frames, va, pa, 1, flags)
    {
      if va % PAGE_SIZE != 0 || pa % PAGE_SIZE != 0 || rootPhys == 0 {
        return false;
      }
      ok := MapOne(va, pa, flags);
      SpentServe(old(pmm.frames), old(places), places, old(mem), rootPhys / PAGE_SIZE, levels, va);
      OneObstacle(old(mem), rootPhys, levels, pmm.frames, va, pa, flags, ok);
    }

    // One more page of a run that starts at va0, after n of its pages.
    method MapNextPage(ghost o: Own.Frames, ghost p: Places, ghost m: Memory,
                       ghost va0: nat, ghost pa0: nat, ghost n: nat, ghost area: iset<nat>, va: nat, pa: nat, flags: nat)
      returns (ok: bool)
      requires Valid() && Canonical(va, levels) && pa < PHYS_LIMIT && Accessible(flags)
      requires va == va0 + n * PAGE_SIZE && pa == pa0 + n * PAGE_SIZE && va in area
      requires Progress(o, pmm.frames, p, places, m, mem, rootPhys / PAGE_SIZE, levels, va0, pa0, n, flags, area)
      modifies this`mem, this`places, pmm`freePages, pmm.pages, pmm.freeLists, pmm`lists, pmm`frames
      ensures Valid()
      ensures if ok then Progress(o, pmm.frames, p, places, m, mem, rootPhys / PAGE_SIZE, levels, va0, pa0, n + 1, flags, area)
              else Stalled(o, pmm.frames, p, places, m, mem, rootPhys, levels, va0, pa0, n, flags, area)
    {
      ghost var o1, p1, m1 := pmm.frames, places, mem;
      ok := MapPage(va, pa, flags);
      if ok {
        ProgressMore(o, o1, pmm.frames, p, p1, places, m, m1, mem, rootPhys / PAGE_SIZE, levels, va0, pa0, n, va, pa, flags, area);
      } else {
        ProgressStops(o, o1, pmm.frames, p, p1, places, m, m1, mem, rootPhys, levels, va0, pa0, n, va, pa, flags, area);
      }
    }

    // Maps the pages from va up to PAGE_ALIGN_UP(size) beyond it.
    method MapRange(va: nat, pa: nat, size: nat, flags: nat) returns (ok: bool)
      requires Valid() && Accessible(flags)
      requires pa + RoundUp(size) <= PHYS_LIMIT && va + RoundUp(size) < WORD
      requires forall b: nat :: va <= b < va + RoundUp(size) ==> Canonical(b, levels)
      modifies this`mem, this`places, pmm`freePages, pmm.pages, pmm.freeLists, pmm`lists, pmm`frames
      ensures Valid()
      ensures Grew(old(pmm.frames), pmm.frames, old(places), places, old(mem), mem, rootPhys / PAGE_SIZE, levels, Between(va, va + RoundUp(size)))
      ensures ok ==> MapsRange(mem, rootPhys / PAGE_SIZE, levels, va, pa, RoundUp(size) / PAGE_SIZE, flags)
      ensures ok ==> ForKernel(old(mem), mem, rootPhys / PAGE_SIZE, levels, va, pa, RoundUp(size) / PAGE_SIZE, flags)
      ensures ok ==> size == 0 || va % PAGE_SIZE == 0
      ensures SameOutside(old(mem), mem, rootPhys / PAGE_SIZE, levels, va, va + RoundUp(size))
      ensures !ok ==> Obstacle(old(mem), rootPhys, levels, pmm.frames, va, pa, RoundUp(size) / PAGE_SIZE, flags)
    {
      ghost var o, q, m, root := pmm.frames, places, mem, rootPhys / PAGE_SIZE;
      ghost var area := Between(va, va + RoundUp(size));
      NoProgress(o, q, m, root, levels, va, pa, flags, area);
      if size == 0 {
        return true;
      }
      var end := va + RoundUp(size);
      var v, p := va, pa;
      ghost var n: nat, total: nat := 0, RoundUp(size) / PAGE_SIZE;
      assert end == va + total * PAGE_SIZE;
      while v < end
        invariant Valid() && n <= total && v == va + n * PAGE_SIZE && p == pa + n * PAGE_SIZE
        invariant Progress(o, pmm.frames, q, places, m, mem, root, levels, va, pa, n, flags, area)
      {
        ok := MapNextPage(o, q, m, va, pa, n, area, v, p, flags);
        if !ok {
          StalledInside(o, pmm.frames, q, places, m, mem, rootPhys, levels, va, pa, n, total, end, flags, area);
          return false;
        }
        v := v + PAGE_SIZE;
        p := p + PAGE_SIZE;
        n := n + 1;
      }
      ProgressDone(o, pmm.frames, q, places, m, mem, root, levels, va, pa, total, end, flags, area);
      ok := true;
    }

    // paging_map_hhdm: every memory-map entry, rounded out to pages, at the direct-map offset.
    method MapHhdm(memmap: seq<Db.Entry>, hhdm: nat) returns (ok: bool)
      requires Valid() && HhdmFits(memmap, hhdm, levels)
      modifies this`mem, this`places, pmm`freePages, pmm.pages, pmm.freeLists, pmm`lists, pmm`frames
      ensures Valid()
      ensures Grew(old(pmm.frames), pmm.frames, old(places), places, old(mem), mem, rootPhys / PAGE_SIZE, levels, HhdmArea(memmap, hhdm))
      ensures ok ==> HhdmMapped(mem, rootPhys / PAGE_SIZE, levels, memmap, hhdm, |memmap|)
      ensures SameOffHhdm(old(mem), mem, rootPhys / PAGE_SIZE, levels, memmap, hhdm, |memmap|)
      ensures !ok ==> HhdmObstacle(old(mem), rootPhys, levels, pmm.frames, memmap, hhdm)
    {
      ghost var root := rootPhys / PAGE_SIZE;
      GrewNone(pmm.frames, places, mem, root, levels, HhdmArea(memmap, hhdm));
      for i := 0 to |memmap|
        invariant Valid()
        invariant Grew(old(pmm.frames), pmm.frames, old(places), places, old(mem), mem, root, levels, HhdmArea(memmap, hhdm))
        invariant HhdmMapped(mem, root, levels, memmap, hhdm, i)
        invariant SameOffHhdm(old(mem), mem, root, levels, memmap, hhdm, i)
      {
        ghost var o, q, m := pmm.frames, places, mem;
        assert ExtentOk(memmap[i], hhdm, levels);
        var done := MapExtent(memmap[i], hhdm);
        ExtentInside(memmap, hhdm, i);
        GrewMore(old(pmm.frames), o, pmm.frames, old(places), q, places, old(mem), m, mem, root, levels,
                 HhdmArea(memmap, hhdm), ExtentArea(memmap[i], hhdm));
        OffHhdmNext(old(mem), m, mem, root, levels, memmap, hhdm, i);
        if !done {
          OffHhdmAll(old(mem), mem, root, levels, memmap, hhdm, i + 1);
          ExtentObstacleKept(old(mem), m, rootPhys, levels, pmm.frames, memmap[i], hhdm);
          return false;
        }
        HhdmNext(m, mem, root, levels, memmap, hhdm, i);
      }
      ok := true;
    }

    // One entry of the memory map; an entry without pages is skipped.
    method MapExtent(e: Db.Entry, hhdm: nat) returns (ok: bool)
      requires Valid() && ExtentOk(e, hhdm, levels)
      modifies this`mem, this`places, pmm`freePages, pmm.pages, pmm.freeLists, pmm`lists, pmm`frames
      ensures Valid()
      ensures Grew(old(pmm.frames), pmm.frames, old(places), places, old(mem), mem, rootPhys / PAGE_SIZE, levels, ExtentArea(e, hhdm))
      ensures ok ==> ExtentMapped(mem, rootPhys / PAGE_SIZE, levels, e, hhdm)
      ensures SameOutside(old(mem), mem, rootPhys / PAGE_SIZE, levels, hhdm + PageStart(e), hhdm + PageEnd(e))
      ensures !ok ==> ExtentObstacle(old(mem), rootPhys, levels, pmm.frames, e, hhdm)
    {
      var start, end := PageStart(e), PageEnd(e);
      if start == end {
        GrewNone(pmm.frames, places, mem, rootPhys / PAGE_SIZE, levels, ExtentArea(e, hhdm));
        return true;
      }
      ExtentFits(e, hhdm, levels);
      ghost var o, q, m := pmm.frames, places, mem;
      var va, size := hhdm + start, end - start;
      ok := MapRange(va, start, size, PROT_RWG);
      ExtentGrew(o, pmm.frames, q, places, m, mem, rootPhys / PAGE_SIZE, levels, e, hhdm, va, size);
      ExtentDone(m, mem, rootPhys, levels, pmm.frames, e, hhdm, va, start, size, ok);
    }

    // paging_map_kernel_segment: the pages of one segment, at the kernel's load offset.
    method MapSegment(g: Segment, x: LoadAddress) returns (ok: bool)
      requires Valid() && SegmentOk(g, x, levels)
      modifies this`mem, this`places, pmm`freePages, pmm.pages, pmm.freeLists, pmm`lists, pmm`frames
      ensures Valid()
      ensures Grew(old(pmm.frames), pmm.frames, old(places), places, old(mem), mem, rootPhys / PAGE_SIZE, levels, SegmentArea(g))
      ensures ok && x.Loaded? ==> SegmentMapped(mem, rootPhys / PAGE_SIZE, levels, g, x)
      ensures SameOutside(old(mem), mem, rootPhys / PAGE_SIZE, levels, SegmentStart(g), SegmentEnd(g))
      ensures !ok ==> x.Loaded? && SegmentObstacle(old(mem), rootPhys, levels, pmm.frames, g, x)
    {
      var start, end := SegmentStart(g), SegmentEnd(g);
      if start >= end || x == NotReported {
        GrewNone(pmm.frames, places, mem, rootPhys / PAGE_SIZE, levels, SegmentArea(g));
        return true;
      }
      ghost var o, q, m, root, pa0 := pmm.frames, places, mem, rootPhys / PAGE_SIZE, LoadPhys(x, start);
      ghost var area := SegmentArea(g);
      NoProgress(o, q, m, root, levels, start, pa0, g.flags, area);
      var v: nat := start;
      ghost var n: nat, total: nat := 0, (end - start) / PAGE_SIZE;
      SegmentPages(g, start, end, total);
      while v < end
        invariant Valid() && n <= total && v == start + n * PAGE_SIZE
        invariant Progress(o, pmm.frames, q, places, m, mem, root, levels, start, pa0, n, g.flags, area)
      {
        SegmentPage(g, x, levels, n, v, start);
        var phys := LoadPhys(x, v);
        ok := MapNextPage(o, q, m, start, pa0, n, area, v, phys, g.flags);
        if !ok {
          StalledInside(o, pmm.frames, q, places, m, mem, rootPhys, levels, start, pa0, n, total, end, g.flags, area);
          return false;
        }
        v := v + PAGE_SIZE;
        n := n + 1;
      }
      ProgressDone(o, pmm.frames, q, places, m, mem, root, levels, start, pa0, total, end, g.flags, area);
      ok := true;
    }

    // paging_map_kernel_segments
    method MapSegments(segs: seq<Segment>, x: LoadAddress) returns (ok: bool)
      requires Valid() && forall i :: 0 <= i < |segs| ==> SegmentOk(segs[i], x, levels)
      modifies this`mem, this`places, pmm`freePages, pmm.pages, pmm.freeLists, pmm`lists, pmm`frames
      ensures Valid()
      ensures Grew(old(pmm.frames), pmm.frames, old(places), places, old(mem), mem, rootPhys / PAGE_SIZE, levels, SegmentsArea(segs))
      ensures ok && x.Loaded? ==> SegmentsMapped(mem, rootPhys / PAGE_SIZE, levels, segs, x, |segs|)
      ensures SameOffSegments(old(mem), mem, rootPhys / PAGE_SIZE, levels, segs, |segs|)
      ensures !ok ==> x.Loaded? && SegmentsObstacle(old(mem), rootPhys, levels, pmm.frames, segs, x)
    {
      ghost var root := rootPhys / PAGE_SIZE;
      GrewNone(pmm.frames, places, mem, root, levels, SegmentsArea(segs));
      for i := 0 to |segs|
        invariant Valid()
        invariant Grew(old(pmm.frames), pmm.frames, old(places), places, old(mem), mem, root, levels, SegmentsArea(segs))
        invariant x.Loaded? ==> SegmentsMapped(mem, root, levels, segs, x, i)
        invariant SameOffSegments(old(mem), mem, root, levels, segs, i)
      {
        ghost var o, q, m := pmm.frames, places, mem;
        var done := MapSegment(segs[i], x);
        SegmentInside(segs, i);
        GrewMore(old(pmm.frames), o, pmm.frames, old(places), q, places, old(mem), m, mem, root, levels,
                 SegmentsArea(segs), SegmentArea(segs[i]));
        OffSegmentsNext(old(mem), m, mem, root, levels, segs, i);
        if !done {
          OffSegmentsAll(old(mem), mem, root, levels, segs, i + 1);
          SegmentObstacleKept(old(mem), m, rootPhys, levels, pmm.frames, segs[i], x);
          return false;
        }
        if x.Loaded? {
          SegmentsNext(m, mem, root, levels, segs, x, i);
        }
      }
      ok := true;
    }

    // The mapping part of paging_init: the direct map, then the kernel image.
    method Init(memmap: seq<Db.Entry>, hhdm: nat, segs: seq<Segment>, x: LoadAddress) returns (ok: bool)
      requires Valid() && HhdmFits(memmap, hhdm, levels)
      requires forall i :: 0 <= i < |segs| ==> SegmentOk(segs[i], x, levels)
      requires Apart(memmap, hhdm, segs)
      modifies this`mem, this`places, pmm`freePages, pmm.pages, pmm.freeLists, pmm`lists, pmm`frames
      ensures Valid()
      ensures Grew(old(pmm.frames), pmm.frames, old(places), places, old(mem), mem, rootPhys / PAGE_SIZE, levels, HhdmArea(memmap, hhdm) + SegmentsArea(segs))
      ensures ok ==> x.Loaded? && HhdmMapped(mem, rootPhys / PAGE_SIZE, levels, memmap, hhdm, |memmap|)
      ensures ok ==> SegmentsMapped(mem, rootPhys / PAGE_SIZE, levels, segs, x, |segs|)
      ensures SameElsewhere(old(mem), mem, rootPhys / PAGE_SIZE, levels, memmap, hhdm, segs)
      ensures !ok ==> || x == NotReported
                      || HhdmObstacle(old(mem), rootPhys, levels, pmm.frames, memmap, hhdm)
                      || SegmentsObstacle(old(mem), rootPhys, levels, pmm.frames, segs, x)
    {
      ghost var root := rootPhys / PAGE_SIZE;
      if x == NotReported {
        GrewNone(pmm.frames, places, mem, root, levels, HhdmArea(memmap, hhdm) + SegmentsArea(segs));
        return false;
      }
      var direct := MapHhdm(memmap, hhdm);
      GrewWider(old(pmm.frames), pmm.frames, old(places), places, old(mem), mem, root, levels,
                HhdmArea(memmap, hhdm), HhdmArea(memmap, hhdm) + SegmentsArea(segs));
      if !direct {
        return false;
      }
      ghost var o, q, m := pmm.frames, places, mem;
      ok := MapSegments(segs, x);
      GrewMore(old(pmm.frames), o, pmm.frames, old(places), q, places, old(mem), m, mem, root, levels,
               HhdmArea(memmap, hhdm) + SegmentsArea(segs), SegmentsArea(segs));
      HhdmKept(m, mem, root, levels, memmap, hhdm, segs);
      if !ok {
        SegmentsObstacleKept(old(mem), m, rootPhys, levels, pmm.frames, segs, x);
      }
    }
  }

  const PROT_RWG: nat := 11  // read, write and global

  function PageStart(e: Db.Entry): nat {
    e.base / PAGE_SIZE * PAGE_SIZE
  }

  function PageEnd(e: Db.Entry): (r: nat)
    ensures PageStart(e) <= r && r % PAGE_SIZE == 0
  {
    RoundUp(e.base + e.length)
  }

  ghost function ExtentArea(e: Db.Entry, hhdm: nat): iset<nat> {
    Between(hhdm + PageStart(e), hhdm + PageEnd(e))
  }

  // The addresses of the direct map.
  ghost function HhdmArea(memmap: seq<Db.Entry>, hhdm: nat): iset<nat> {
    iset b: nat | !OffHhdm(memmap, hhdm, |memmap|, b)
  }

  lemma {:induction false} ExtentInside(memmap: seq<Db.Entry>, hhdm: nat, i: nat)
    requires i < |memmap|
    ensures ExtentArea(memmap[i], hhdm) <= HhdmArea(memmap, hhdm)
  {
    forall b | b in ExtentArea(memmap[i], hhdm)
      ensures b in HhdmArea(memmap, hhdm)
    {
      assert InExtent(memmap[i], hhdm, b);
    }
  }

  // The direct map of every entry is canonical and does not wrap.
  ghost predicate HhdmFits(memmap: seq<Db.Entry>, hhdm: nat, levels: nat)
    requires levels <= 5
  {
    forall i: nat :: i < |memmap| ==> ExtentOk(memmap[i], hhdm, levels)
  }

  ghost predicate ExtentOk(e: Db.Entry, hhdm: nat, levels: nat)
    requires levels <= 5
  {
    && PageEnd(e) <= PHYS_LIMIT && hhdm + PageEnd(e) < WORD
    && forall b: nat :: InExtent(e, hhdm, b) ==> Canonical(b, levels)
  }

  predicate InExtent(e: Db.Entry, hhdm: nat, b: nat) {
    hhdm + PageStart(e) <= b < hhdm + PageEnd(e)
  }

  // Every page p of the entry translates from hhdm + p to p, readable and writable.
  ghost predicate ExtentMapped(mem: Memory, root: nat, levels: nat, e: Db.Entry, hhdm: nat)
    requires 3 <= levels <= 5
  {
    && (PageStart(e) < PageEnd(e) ==> hhdm % PAGE_SIZE == 0)
    && MapsRange(mem, root, levels, hhdm + PageStart(e), PageStart(e), (PageEnd(e) - PageStart(e)) / PAGE_SIZE, PROT_RWG)
  }

  ghost predicate OffHhdm(memmap: seq<Db.Entry>, hhdm: nat, n: nat, b: nat) {
    forall i: nat :: i < n && i < |memmap| ==> !InExtent(memmap[i], hhdm, b)
  }

  ghost predicate SameOffHhdm(mem: Memory, mem': Memory, root: nat, levels: nat, memmap: seq<Db.Entry>, hhdm: nat, n: nat)
    requires 3 <= levels <= 5
  {
    forall b: nat :: OffHhdm(memmap, hhdm, n, b) ==> Translate(mem', root, levels, b) == Translate(mem, root, levels, b)
  }

  lemma {:induction false} ExtentFits(e: Db.Entry, hhdm: nat, levels: nat)
    requires levels <= 5 && ExtentOk(e, hhdm, levels)
    ensures var size := PageEnd(e) - PageStart(e);
            && RoundUp(size) == size && PageStart(e) + size <= PHYS_LIMIT && hhdm + PageEnd(e) < WORD
            && forall b: nat :: hhdm + PageStart(e) <= b < hhdm + PageStart(e) + size ==> Canonical(b, levels)
  {
    forall b: nat | hhdm + PageStart(e) <= b < hhdm + PageEnd(e)
      ensures Canonical(b, levels)
    {
      assert InExtent(e, hhdm, b);
    }
  }

  lemma {:induction false} ExtentGrew(o: Own.Frames, r: Own.Frames, p0: Places, p1: Places, m0: Memory, m1: Memory,
                                      root: nat, levels: nat, e: Db.Entry, hhdm: nat, va: nat, size: nat)
    requires 3 <= levels <= 5 && va == hhdm + PageStart(e) && size == PageEnd(e) - PageStart(e)
    requires Grew(o, r, p0, p1, m0, m1, root, levels, Between(va, va + RoundUp(size)))
    ensures Grew(o, r, p0, p1, m0, m1, root, levels, ExtentArea(e, hhdm))
  {
    assert RoundUp(size) == size;
    GrewWider(o, r, p0, p1, m0, m1, root, levels, Between(va, va + RoundUp(size)), ExtentArea(e, hhdm));
  }

  lemma {:induction false} ExtentDone(m: Memory, mem: Memory, rootPhys: nat, levels: nat, r: Own.Frames, e: Db.Entry, hhdm: nat,
                                      va: nat, pa: nat, size: nat, ok: bool)
    requires 3 <= levels <= 5 && va == hhdm + PageStart(e) && pa == PageStart(e) && size == PageEnd(e) - PageStart(e)
    requires ok ==> MapsRange(mem, rootPhys / PAGE_SIZE, levels, va, pa, RoundUp(size) / PAGE_SIZE, PROT_RWG)
    requires ok ==> size == 0 || va % PAGE_SIZE == 0
    requires SameOutside(m, mem, rootPhys / PAGE_SIZE, levels, va, va + RoundUp(size))
    requires !ok ==> Obstacle(m, rootPhys, levels, r, va, pa, RoundUp(size) / PAGE_SIZE, PROT_RWG)
    ensures ok ==> ExtentMapped(mem, rootPhys / PAGE_SIZE, levels, e, hhdm)
    ensures SameOutside(m, mem, rootPhys / PAGE_SIZE, levels, hhdm + PageStart(e), hhdm + PageEnd(e))
    ensures !ok ==> ExtentObstacle(m, rootPhys, levels, r, e, hhdm)
  {
    assert RoundUp(size) == size;
  }

  lemma {:induction false} OffHhdmNext(mem0: Memory, mem: Memory, mem': Memory, root: nat, levels: nat, memmap: seq<Db.Entry>, hhdm: nat, i: nat)
    requires 3 <= levels <= 5 && i < |memmap|
    requires SameOffHhdm(mem0, mem, root, levels, memmap, hhdm, i)
    requires SameOutside(mem, mem', root, levels, hhdm + PageStart(memmap[i]), hhdm + PageEnd(memmap[i]))
    ensures SameOffHhdm(mem0, mem', root, levels, memmap, hhdm, i + 1)
  {
    forall b: nat | OffHhdm(memmap, hhdm, i + 1, b)
      ensures Translate(mem', root, levels, b) == Translate(mem0, root, levels, b)
    {
      assert !InExtent(memmap[i], hhdm, b);
      assert OffHhdm(memmap, hhdm, i, b);
      assert Translate(mem', root, levels, b) == Translate(mem, root, levels, b);
    }
  }

  lemma {:induction false} OffHhdmAll(mem0: Memory, mem: Memory, root: nat, levels: nat, memmap: seq<Db.Entry>, hhdm: nat, n: nat)
    requires 3 <= levels <= 5 && n <= |memmap|
    requires SameOffHhdm(mem0, mem, root, levels, memmap, hhdm, n)
    ensures SameOffHhdm(mem0, mem, root, levels, memmap, hhdm, |memmap|)
  {
    forall b: nat | OffHhdm(memmap, hhdm, |memmap|, b)
      ensures Translate(mem, root, levels, b) == Translate(mem0, root, levels, b)
    {
      assert OffHhdm(memmap, hhdm, n, b);
    }
  }

  ghost predicate HhdmMapped(mem: Memory, root: nat, levels: nat, memmap: seq<Db.Entry>, hhdm: nat, n: nat)
    requires 3 <= levels <= 5
  {
    forall i: nat :: i < n && i < |memmap| ==> ExtentMapped(mem, root, levels, memmap[i], hhdm)
  }

  lemma {:induction false} HhdmNext(mem: Memory, mem': Memory, root: nat, levels: nat, memmap: seq<Db.Entry>, hhdm: nat, i: nat)
    requires 3 <= levels <= 5 && i < |memmap|
    requires HhdmMapped(mem, root, levels, memmap, hhdm, i)
    requires ExtentMapped(mem', root, levels, memmap[i], hhdm)
    requires SameOutside(mem, mem', root, levels, hhdm + PageStart(memmap[i]), hhdm + PageEnd(memmap[i]))
    ensures HhdmMapped(mem', root, levels, memmap, hhdm, i + 1)
  {
    forall j: nat | j < i
      ensures ExtentMapped(mem', root, levels, memmap[j], hhdm)
    {
      ExtentKept(mem, mem', root, levels, memmap[j], memmap[i], hhdm);
    }
  }

  // Mapping another entry at the same offset does not disturb an earlier one, even where they overlap.
  lemma {:induction false} ExtentKept(mem: Memory, mem': Memory, root: nat, levels: nat, e: Db.Entry, d: Db.Entry, hhdm: nat)
    requires 3 <= levels <= 5
    requires ExtentMapped(mem, root, levels, e, hhdm) && ExtentMapped(mem', root, levels, d, hhdm)
    requires SameOutside(mem, mem', root, levels, hhdm + PageStart(d), hhdm + PageEnd(d))
    ensures ExtentMapped(mem', root, levels, e, hhdm)
  {
    var va, pa, n: nat := hhdm + PageStart(e), PageStart(e), (PageEnd(e) - PageStart(e)) / PAGE_SIZE;
    forall k: nat | k < n
      ensures MapsNth(mem', root, levels, va, pa, k, PROT_RWG)
    {
      NthKept(mem, mem', root, levels, d, hhdm, pa, k);
    }
  }

  lemma {:induction false} NthKept(mem: Memory, mem': Memory, root: nat, levels: nat, d: Db.Entry, hhdm: nat, pa: nat, k: nat)
    requires 3 <= levels <= 5 && pa % PAGE_SIZE == 0
    requires MapsNth(mem, root, levels, hhdm + pa, pa, k, PROT_RWG) && ExtentMapped(mem', root, levels, d, hhdm)
    requires SameOutside(mem, mem', root, levels, hhdm + PageStart(d), hhdm + PageEnd(d))
    ensures MapsNth(mem', root, levels, hhdm + pa, pa, k, PROT_RWG)
  {
    var p := pa + k * PAGE_SIZE;
    NthIs(mem, root, levels, hhdm, pa, k, p);
    PageKept(mem, mem', root, levels, d, hhdm, p);
    NthIs(mem', root, levels, hhdm, pa, k, p);
  }

  lemma {:induction false} NthIs(mem: Memory, root: nat, levels: nat, hhdm: nat, pa: nat, k: nat, p: nat)
    requires 3 <= levels <= 5 && pa % PAGE_SIZE == 0 && p == pa + k * PAGE_SIZE
    ensures p % PAGE_SIZE == 0
    ensures MapsNth(mem, root, levels, hhdm + pa, pa, k, PROT_RWG) <==> Maps(mem, root, levels, hhdm + p, p, PROT_RWG)
  {
    assert hhdm + pa + k * PAGE_SIZE == hhdm + p;
  }

  lemma {:induction false} PageKept(mem: Memory, mem': Memory, root: nat, levels: nat, d: Db.Entry, hhdm: nat, p: nat)
    requires 3 <= levels <= 5 && p % PAGE_SIZE == 0
    requires Maps(mem, root, levels, hhdm + p, p, PROT_RWG) && ExtentMapped(mem', root, levels, d, hhdm)
    requires SameOutside(mem, mem', root, levels, hhdm + PageStart(d), hhdm + PageEnd(d))
    ensures Maps(mem', root, levels, hhdm + p, p, PROT_RWG)
  {
    if InExtent(d, hhdm, hhdm + p) {
      PageInExtent(mem', root, levels, d, hhdm, p);
    } else {
      assert Translate(mem', root, levels, hhdm + p) == Translate(mem, root, levels, hhdm + p);
    }
  }

  // A mapped entry maps each of its pages.
  lemma {:induction false} PageInExtent(mem: Memory, root: nat, levels: nat, e: Db.Entry, hhdm: nat, p: nat)
    requires 3 <= levels <= 5 && ExtentMapped(mem, root, levels, e, hhdm)
    requires p % PAGE_SIZE == 0 && InExtent(e, hhdm, hhdm + p)
    ensures Maps(mem, root, levels, hhdm + p, p, PROT_RWG)
  {
    var k := (p - PageStart(e)) / PAGE_SIZE;
    assert p == PageStart(e) + k * PAGE_SIZE;
    assert k < (PageEnd(e) - PageStart(e)) / PAGE_SIZE;
    assert MapsNth(mem, root, levels, hhdm + PageStart(e), PageStart(e), k, PROT_RWG);
  }

  ghost predicate MapsNth(mem: Memory, root: nat, levels: nat, va: nat, pa: nat, k: nat, flags: nat)
    requires 3 <= levels <= 5
  {
    Maps(mem, root, levels, va + k * PAGE_SIZE, pa + k * PAGE_SIZE, flags)
  }

  // The n pages from va translate to the n pages from pa, one to one.
  ghost predicate MapsRange(mem: Memory, root: nat, levels: nat, va: nat, pa: nat, n: nat, flags: nat)
    requires 3 <= levels <= 5
  {
    forall k: nat :: k < n ==> MapsNth(mem, root, levels, va, pa, k, flags)
  }

  ghost predicate SameOutside(mem: Memory, mem': Memory, root: nat, levels: nat, lo: nat, hi: nat)
    requires 3 <= levels <= 5
  {
    forall b: nat :: b < lo || b >= hi ==> Translate(mem', root, levels, b) == Translate(mem, root, levels, b)
  }

  lemma {:induction false} OneMore(mem0: Memory, mem: Memory, mem': Memory, root: nat, levels: nat, va: nat, pa: nat, n: nat, flags: nat)
    requires 3 <= levels <= 5 && va % PAGE_SIZE == 0
    requires MapsRange(mem, root, levels, va, pa, n, flags)
    requires SameOutside(mem0, mem, root, levels, va, va + n * PAGE_SIZE)
    requires Maps(mem', root, levels, va + n * PAGE_SIZE, pa + n * PAGE_SIZE, flags)
    requires SameBut(mem, mem', root, levels, va + n * PAGE_SIZE)
    ensures MapsRange(mem', root, levels, va, pa, n + 1, flags)
    ensures SameOutside(mem0, mem', root, levels, va, va + (n + 1) * PAGE_SIZE)
  {
    var last := va + n * PAGE_SIZE;
    forall k: nat | k < n + 1
      ensures MapsNth(mem', root, levels, va, pa, k, flags)
    {
      if k < n {
        var b := va + k * PAGE_SIZE;
        assert MapsNth(mem, root, levels, va, pa, k, flags);
        assert b / PAGE_SIZE != last / PAGE_SIZE;
        assert Translate(mem', root, levels, b) == Translate(mem, root, levels, b);
      }
    }
  }

  lemma {:induction false} FollowPointer(mem: Memory, places: Places, root: nat, levels: nat, t: nat, level: nat, vpn: nat,
                                         next: nat, below: nat)
    requires Tree(mem, places, root, levels) && At(mem, places, root, levels, t, level, vpn) && level > 0
    requires Pointer(mem[t][Digit(vpn, level)])
    requires next == PteToPhys(mem[t][Digit(vpn, level)]) / PAGE_SIZE && below == level - 1
    ensures At(mem, places, root, levels, next, below, vpn)
  {
    var e := mem[t][Digit(vpn, level)];
    assert TableOk(mem, places, t);
    StepDown(mem, places, root, levels, t, level, vpn);
    PhysOfPointer(e);
    assert TableOk(mem, places, Ppn(e));
  }

  lemma {:induction false} PointerTests(e: nat)
    requires Pointer(e)
    ensures And(e, PTE_RWX) == 0
  {
    AccessTest(e);
  }

  lemma {:induction false} PhysOfPointer(e: nat)
    requires e < PTE_LIMIT
    ensures PteToPhys(e) % PAGE_SIZE == 0 && PteToPhys(e) / PAGE_SIZE == Ppn(e)
  {
    assert (e / 1024) * PAGE_SIZE < WORD;
  }

  // The page is already part of a superpage that does not serve the request.
  ghost predicate Conflict(mem: Memory, root: nat, levels: nat, va: nat, pa: nat, flags: nat)
    requires 3 <= levels <= 5
  {
    var t := Translate(mem, root, levels, va);
    t.Page? && t.level > 0 && !Maps(mem, root, levels, va, pa, flags)
  }

  // What mapping a page does to translation. On success the page is mapped as asked: it was
  // before, and then nothing is written, or it has now a leaf of its own with exactly the
  // flags asked for; other pages translate as before, and a conflicting superpage is not
  // accepted. The kernel gets the access unless the page was already so mapped for user mode.
  // On failure nothing translates differently.
  ghost predicate Mapped(mem: Memory, mem': Memory, root: nat, levels: nat, va: nat, pa: nat, flags: nat, ok: bool)
    requires 3 <= levels <= 5
  {
    if ok then
      && Maps(mem', root, levels, va, pa, flags)
      && SameBut(mem, mem', root, levels, va)
      && !Conflict(mem, root, levels, va, pa, flags)
      && (KernelMaps(mem', root, levels, va, pa, flags) <==> !UserMaps(mem, root, levels, va, pa, flags))
      && (if Maps(mem, root, levels, va, pa, flags) then mem' == mem else MapsPage(mem', root, levels, va, pa, flags))
    else
      SameTranslation(mem, mem', root, levels) && !Maps(mem, root, levels, va, pa, flags)
  }

  // Tables were linked on the way, if the page was not mapped yet.
  ghost predicate OnTheWay(mem: Memory, m: Memory, root: nat, levels: nat, va: nat, pa: nat, flags: nat)
    requires 3 <= levels <= 5
  {
    SameTranslation(mem, m, root, levels) && (Maps(mem, root, levels, va, pa, flags) ==> m == mem)
  }

  // The walk of va has come some way down, linking the tables it lacked.
  ghost predicate Descent(o: Own.Frames, r: Own.Frames, p: Places, places: Places, m: Memory, mem: Memory,
                          root: nat, levels: nat, va: nat, pa: nat, flags: nat)
    requires 3 <= levels <= 5
  {
    && TookTables(o, r, p, places)
    && LinkedOn(m, mem, p, places, root, levels, Vpn(va, levels))
    && OnTheWay(m, mem, root, levels, va, pa, flags)
  }

  lemma {:induction false} NoDescent(o: Own.Frames, places: Places, mem: Memory, root: nat, levels: nat,
                                     va: nat, pa: nat, flags: nat)
    requires 3 <= levels <= 5
    ensures Descent(o, o, places, places, mem, mem, root, levels, va, pa, flags)
  {
  }

  lemma {:induction false} DescentMore(o: Own.Frames, o1: Own.Frames, r: Own.Frames, p: Places, p1: Places, places: Places,
                                       m: Memory, m1: Memory, mem: Memory, root: nat, levels: nat,
                                       va: nat, pa: nat, flags: nat)
    requires 3 <= levels <= 5
    requires Descent(o, o1, p, p1, m, m1, root, levels, va, pa, flags)
    requires TookTables(o1, r, p1, places) && LinkedOn(m1, mem, p1, places, root, levels, Vpn(va, levels))
    requires SameTranslation(m1, mem, root, levels) && (Maps(m1, root, levels, va, pa, flags) ==> mem == m1)
    ensures Descent(o, r, p, places, m, mem, root, levels, va, pa, flags)
  {
    TookMore(o, o1, r, p, p1, places);
    LinkedMore(m, m1, mem, p, p1, places, root, levels, Vpn(va, levels));
    forall b: nat
      ensures Translate(mem, root, levels, b) == Translate(m, root, levels, b)
    {
      assert Translate(m1, root, levels, b) == Translate(m, root, levels, b);
    }
  }

  function Fewer(a: nat, b: nat): nat {
    if a <= b then a else b
  }

  // There are pages enough for the tables the path of va lacks.
  ghost predicate Enough(o: Own.Frames, m: Memory, root: nat, levels: nat, va: nat)
    requires levels > 0
  {
    Missing(m, root, levels - 1, Vpn(va, levels)) <= |Own.FreeFrames(o)|
  }

  // The tables the path of va lacked have been linked, if there were pages enough; otherwise
  // all the pages there were have been used. All of them lie on that path.
  ghost predicate Spent(o: Own.Frames, p: Places, places: Places, m: Memory, root: nat, levels: nat, va: nat)
    requires levels > 0
  {
    && |places| == |p| + Fewer(Missing(m, root, levels - 1, Vpn(va, levels)), |Own.FreeFrames(o)|)
    && forall t: nat :: NewIsOnPath(p, places, Vpn(va, levels), t)
  }

  lemma {:induction false} TookCount(o: Own.Frames, r: Own.Frames, p: Places, places: Places)
    requires TookTables(o, r, p, places)
    ensures |Own.FreeFrames(r)| + |places| == |Own.FreeFrames(o)| + |p|
  {
    SetCount(p.Keys, places.Keys, Own.FreeFrames(o), Own.FreeFrames(r));
    assert |p.Keys| == |p| && |places.Keys| == |places|;
  }

  lemma {:induction false} SetCount(a: set<nat>, b: set<nat>, had: set<nat>, have: set<nat>)
    requires a <= b && b - a <= had && have == had - (b - a)
    ensures |have| + |b| == |had| + |a|
  {
    var added := b - a;
    Own.SizesAdd(a, added);
    Own.SizesAdd(have, added);
    assert b == a + added && had == have + added;
  }

  lemma {:induction false} DescentEnds(o: Own.Frames, r: Own.Frames, p: Places, places: Places, m: Memory, mem: Memory,
                                       root: nat, levels: nat, va: nat, pa: nat, flags: nat)
    requires 3 <= levels <= 5 && Descent(o, r, p, places, m, mem, root, levels, va, pa, flags)
    ensures Missing(mem, root, levels - 1, Vpn(va, levels)) == 0 ==>
              Spent(o, p, places, m, root, levels, va) && Enough(o, m, root, levels, va)
    ensures Missing(mem, root, levels - 1, Vpn(va, levels)) > 0 && Own.FreeFrames(r) == {} ==>
              Spent(o, p, places, m, root, levels, va) && !Enough(o, m, root, levels, va)
  {
    TookCount(o, r, p, places);
    var need, left := Missing(m, root, levels - 1, Vpn(va, levels)), Missing(mem, root, levels - 1, Vpn(va, levels));
    Balance(need, left, |Own.FreeFrames(o)|, |Own.FreeFrames(r)|, |p|, |places|);
  }

  lemma {:induction false} DescentDone(o: Own.Frames, r: Own.Frames, p: Places, places: Places, m: Memory, mem: Memory,
                                       root: nat, levels: nat, t: nat, va: nat, pa: nat, flags: nat)
    requires 3 <= levels <= 5 && Descent(o, r, p, places, m, mem, root, levels, va, pa, flags)
    requires At(mem, places, root, levels, t, 0, Vpn(va, levels))
    ensures Spent(o, p, places, m, root, levels, va) && Enough(o, m, root, levels, va)
  {
    NoneMissing(mem, places, root, levels, t, Vpn(va, levels));
    DescentEnds(o, r, p, places, m, mem, root, levels, va, pa, flags);
  }

  // What one call of MapOne does: on success exactly when there is no conflicting superpage
  // and pages enough for the tables the path lacks.
  ghost predicate Outcome(o: Own.Frames, r: Own.Frames, p: Places, places: Places, m: Memory, mem: Memory,
                          root: nat, levels: nat, va: nat, pa: nat, flags: nat, ok: bool)
    requires 3 <= levels <= 5
  {
    && TookTables(o, r, p, places)
    && Spent(o, p, places, m, root, levels, va)
    && (ok <==> !Conflict(m, root, levels, va, pa, flags) && Enough(o, m, root, levels, va))
    && Mapped(m, mem, root, levels, va, pa, flags, ok)
    && (!ok ==> Own.FreeFrames(r) == {} || Conflict(m, root, levels, va, pa, flags))
  }

  // A table is missing, no page is left for it, and the page was not mapped yet.
  ghost predicate Exhausted(r: Own.Frames, m: Memory, mem: Memory, root: nat, levels: nat, va: nat, pa: nat, flags: nat)
    requires 3 <= levels <= 5
  {
    && Own.FreeFrames(r) == {} && Missing(mem, root, levels - 1, Vpn(va, levels)) > 0
    && !Maps(m, root, levels, va, pa, flags)
  }

  lemma {:induction false} NoPageLeft(o: Own.Frames, r: Own.Frames, p: Places, places: Places, m: Memory, m1: Memory, mem: Memory,
                                      root: nat, levels: nat, va: nat, pa: nat, flags: nat)
    requires 3 <= levels <= 5 && Descent(o, r, p, places, m, mem, root, levels, va, pa, flags)
    requires Exhausted(r, m1, mem, root, levels, va, pa, flags)
    requires SameTranslation(m, m1, root, levels)
    ensures Outcome(o, r, p, places, m, mem, root, levels, va, pa, flags, false)
  {
    assert Translate(m1, root, levels, va) == Translate(m, root, levels, va);
    DescentEnds(o, r, p, places, m, mem, root, levels, va, pa, flags);
    Unmapped(m, mem, root, levels, va, pa, flags);
  }

  lemma {:induction false} LeafMet(o: Own.Frames, r: Own.Frames, p: Places, places: Places, m: Memory, mem: Memory,
                                   root: nat, levels: nat, va: nat, pa: nat, flags: nat, entry: nat, level: nat)
    requires 3 <= levels <= 5 && Descent(o, r, p, places, m, mem, root, levels, va, pa, flags)
    requires LeafAt(mem, root, levels, va, pa, flags, entry, level) && level > 0
    ensures Outcome(o, r, p, places, m, mem, root, levels, va, pa, flags, EntryCovers(entry, va, pa, flags, level))
  {
    DescentEnds(o, r, p, places, m, mem, root, levels, va, pa, flags);
    OnSuperpage(m, mem, root, levels, va, pa, flags);
  }

  lemma {:induction false} LeafDoneLast(o: Own.Frames, r: Own.Frames, p: Places, places: Places, m: Memory, m1: Memory, mem: Memory,
                                        root: nat, levels: nat, t: nat, va: nat, pa: nat, flags: nat)
    requires 3 <= levels <= 5 && Descent(o, r, p, places, m, m1, root, levels, va, pa, flags)
    requires At(m1, places, root, levels, t, 0, Vpn(va, levels))
    requires Mapped(m1, mem, root, levels, va, pa, flags, true)
    ensures Outcome(o, r, p, places, m, mem, root, levels, va, pa, flags, true)
  {
    DescentDone(o, r, p, places, m, m1, root, levels, t, va, pa, flags);
    MappedAfter(m, m1, mem, root, levels, va, pa, flags);
  }

  lemma {:induction false} Balance(need: nat, left: nat, had: nat, have: nat, before: nat, after: nat)
    requires have + after == had + before && left + after == need + before
    ensures left == 0 ==> need <= had && after == before + Fewer(need, had)
    ensures left > 0 && have == 0 ==> need > had && after == before + Fewer(need, had)
  {
  }

  lemma {:induction false} MappedAfter(mem: Memory, m: Memory, mem': Memory, root: nat, levels: nat, va: nat, pa: nat, flags: nat)
    requires 3 <= levels <= 5 && OnTheWay(mem, m, root, levels, va, pa, flags)
    requires Mapped(m, mem', root, levels, va, pa, flags, true)
    ensures Mapped(mem, mem', root, levels, va, pa, flags, true)
  {
    assert Translate(m, root, levels, va) == Translate(mem, root, levels, va);
  }

  // The walk ends in a superpage: either it serves the request or it conflicts with it.
  lemma {:induction false} OnSuperpage(mem: Memory, m: Memory, root: nat, levels: nat, va: nat, pa: nat, flags: nat)
    requires 3 <= levels <= 5 && OnTheWay(mem, m, root, levels, va, pa, flags)
    requires Translate(m, root, levels, va).Page? && Translate(m, root, levels, va).level > 0
    ensures if Maps(m, root, levels, va, pa, flags) then Mapped(mem, m, root, levels, va, pa, flags, true)
            else Mapped(mem, m, root, levels, va, pa, flags, false) && Conflict(mem, root, levels, va, pa, flags)
  {
    assert Translate(m, root, levels, va) == Translate(mem, root, levels, va);
  }

  lemma {:induction false} Unmapped(mem: Memory, m: Memory, root: nat, levels: nat, va: nat, pa: nat, flags: nat)
    requires 3 <= levels <= 5 && SameTranslation(mem, m, root, levels) && !Maps(mem, root, levels, va, pa, flags)
    ensures Mapped(mem, m, root, levels, va, pa, flags, false)
  {
  }

  lemma {:induction false} StartAt(mem: Memory, places: Places, root: nat, levels: nat, vpn: nat)
    requires Tree(mem, places, root, levels) && vpn < Pow512(levels)
    ensures At(mem, places, root, levels, root, levels - 1, vpn)
  {
    RootOnPath(mem, places, root, levels, vpn);
    assert TableOk(mem, places, root);
  }

  lemma {:induction false} LeafDone(mem: Memory, places: Places, root: nat, levels: nat, t: nat, va: nat, pa: nat, flags: nat)
    requires Tree(mem, places, root, levels) && Canonical(va, levels) && va % PAGE_SIZE == 0
    requires At(mem, places, root, levels, t, 0, Vpn(va, levels))
    requires pa % PAGE_SIZE == 0 && pa < PHYS_LIMIT && Accessible(flags)
    ensures LevelIndex(va, 0) < PT_ENTRIES
    ensures var mem' := WriteEntry(mem, t, LevelIndex(va, 0), LeafPte(pa, flags));
            && Tree(mem', places, root, levels)
            && Maps(mem', root, levels, va, pa, flags) && KernelMaps(mem', root, levels, va, pa, flags)
            && MapsPage(mem', root, levels, va, pa, flags)
            && SameBut(mem, mem', root, levels, va)
  {
    IndexIsDigit(va, levels, 0);
    LeafPteMeaning(pa, flags);
    assert TableOk(mem, places, t);
    StepLeaf(mem, places, root, levels, t, Vpn(va, levels), LeafPte(pa, flags));
    WalksButToTranslation(mem, WriteEntry(mem, t, LevelIndex(va, 0), LeafPte(pa, flags)), root, levels, va);
  }

  lemma {:induction false} EmptySlot(mem: Memory, root: nat, levels: nat, t: nat, level: nat, vpn: nat)
    requires levels > 0 && level > 0 && Reaches(mem, root, levels - 1, vpn, t, level) && t in mem && |mem[t]| == PT_ENTRIES
    requires !Bit(mem[t][Digit(vpn, level)], V)
    ensures Missing(mem, root, levels - 1, vpn) > 0
  {
    ReachesMissing(mem, root, levels - 1, vpn, t, level);
    NothingMissing(mem, t, level, vpn);
  }

  lemma {:induction false} SlotMissing(mem: Memory, root: nat, levels: nat, t: nat, level: nat, vpn: nat)
    requires levels > 0 && Reaches(mem, root, levels - 1, vpn, t, level) && t in mem && |mem[t]| == PT_ENTRIES
    ensures var e := mem[t][Digit(vpn, level)];
            level == 0 || (And(e, PTE_V) != 0 && And(e, PTE_RWX) != 0) ==> Missing(mem, root, levels - 1, vpn) == 0
  {
    var e := mem[t][Digit(vpn, level)];
    ReachesMissing(mem, root, levels - 1, vpn, t, level);
    FlagTests(e);
    AccessTest(e);
    if level > 0 {
      NothingMissing(mem, t, level, vpn);
    }
  }

  lemma {:induction false} NoneMissing(mem: Memory, places: Places, root: nat, levels: nat, t: nat, vpn: nat)
    requires At(mem, places, root, levels, t, 0, vpn)
    ensures levels > 0 && Missing(mem, root, levels - 1, vpn) == 0
  {
    ReachesMissing(mem, root, levels - 1, vpn, t, 0);
  }

  // What the code's tests on an entry of the path say about translation.
  lemma {:induction false} SlotCases(mem: Memory, places: Places, root: nat, levels: nat, t: nat, level: nat, vpn: nat,
                  va: nat, pa: nat, flags: nat)
    requires Tree(mem, places, root, levels) && At(mem, places, root, levels, t, level, vpn)
    requires Canonical(va, levels) && va % PAGE_SIZE == 0 && vpn == Vpn(va, levels) && Accessible(flags)
    ensures var e := mem[t][Digit(vpn, level)];
            && (And(e, PTE_V) == 0 <==> !Bit(e, V))
            && (And(e, PTE_V) == 0 ==> Translate(mem, root, levels, va) == Fault)
            && (And(e, PTE_V) != 0 && And(e, PTE_RWX) != 0 ==>
                  Translate(mem, root, levels, va).Page? && Translate(mem, root, levels, va).level == level)
            && (level == 0 ==> !Conflict(mem, root, levels, va, pa, flags))
            && (And(e, PTE_V) != 0 && (level == 0 || And(e, PTE_RWX) != 0) ==>
                  (EntryCovers(e, va, pa, flags, level) <==> Maps(mem, root, levels, va, pa, flags)))
            && (And(e, PTE_V) != 0 && And(e, PTE_RWX) == 0 && level > 0 ==> Pointer(e))
            && (level == 0 || (And(e, PTE_V) != 0 && And(e, PTE_RWX) != 0) ==> Missing(mem, root, levels - 1, vpn) == 0)
  {
    SlotMissing(mem, root, levels, t, level, vpn);
    var i := Digit(vpn, level);
    var e := mem[t][i];
    assert TableOk(mem, places, t);
    assert SlotOk(mem, places, t, i);
    FlagTests(e);
    AccessTest(e);
    ReachesWalk(mem, root, levels - 1, vpn, t, level);
    if Bit(e, V) && (level == 0 || And(e, PTE_RWX) != 0) {
      CoversMeaning(e, va, pa, flags, levels, level);
      LowBits(e, 1);
      LowBits(e, 3);
    }
  }

  // The walk of va ends in this leaf, and the code's test on it is right.
  ghost predicate LeafAt(mem: Memory, root: nat, levels: nat, va: nat, pa: nat, flags: nat, entry: nat, level: nat)
    requires 3 <= levels <= 5
  {
    && Missing(mem, root, levels - 1, Vpn(va, levels)) == 0
    && Translate(mem, root, levels, va).Page? && Translate(mem, root, levels, va).level == level
    && (EntryCovers(entry, va, pa, flags, level) <==> Maps(mem, root, levels, va, pa, flags))
  }

  lemma {:induction false} AbsentSlot(mem: Memory, places: Places, root: nat, levels: nat, t: nat, level: nat, va: nat, pa: nat, flags: nat)
    requires Tree(mem, places, root, levels) && At(mem, places, root, levels, t, level, Vpn(va, levels))
    requires Canonical(va, levels) && va % PAGE_SIZE == 0 && Accessible(flags)
    requires And(mem[t][Digit(Vpn(va, levels), level)], PTE_V) == 0
    ensures !Bit(mem[t][Digit(Vpn(va, levels), level)], V)
    ensures !Maps(mem, root, levels, va, pa, flags)
  {
    SlotCases(mem, places, root, levels, t, level, Vpn(va, levels), va, pa, flags);
  }

  lemma {:induction false} PresentSlot(mem: Memory, places: Places, root: nat, levels: nat, t: nat, level: nat, va: nat, pa: nat, flags: nat,
                                       entry: nat, next: nat, below: nat)
    requires Tree(mem, places, root, levels) && At(mem, places, root, levels, t, level, Vpn(va, levels)) && level > 0
    requires Canonical(va, levels) && va % PAGE_SIZE == 0 && Accessible(flags)
    requires entry == mem[t][Digit(Vpn(va, levels), level)] && And(entry, PTE_V) != 0
    requires next == PteToPhys(entry) / PAGE_SIZE && below == level - 1
    ensures LinkedOn(mem, mem, places, places, root, levels, Vpn(va, levels))
    ensures And(entry, PTE_RWX) == 0 ==> At(mem, places, root, levels, next, below, Vpn(va, levels))
    ensures And(entry, PTE_RWX) != 0 ==> LeafAt(mem, root, levels, va, pa, flags, entry, level)
  {
    LinkedNone(mem, places, root, levels, Vpn(va, levels));
    SlotCases(mem, places, root, levels, t, level, Vpn(va, levels), va, pa, flags);
    if And(entry, PTE_RWX) == 0 {
      FollowPointer(mem, places, root, levels, t, level, Vpn(va, levels), next, below);
    }
  }

  lemma {:induction false} LinkDone(mem: Memory, m: Memory, places: Places, root: nat, levels: nat, t: nat, level: nat, vpn: nat, phys: nat)
    requires Tree(mem, places, root, levels) && At(mem, places, root, levels, t, level, vpn)
    requires level > 0 && !Bit(mem[t][Digit(vpn, level)], V)
    requires phys % PAGE_SIZE == 0 && phys < PHYS_LIMIT && phys / PAGE_SIZE !in places
    requires m == mem[phys / PAGE_SIZE := EmptyTable()]
    ensures t != phys / PAGE_SIZE
    ensures var i, n := Digit(vpn, level), phys / PAGE_SIZE;
            var mem' := WriteEntry(m, t, i, TablePte(phys));
            var places' := places[n := Place(level - 1, places[t].prefix * 512 + i)];
            && Tree(mem', places', root, levels) && SameTranslation(mem, mem', root, levels)
            && At(mem', places', root, levels, t, level, vpn)
            && Pointer(mem'[t][i])
            && LinkedOn(mem, mem', places, places', root, levels, vpn)
  {
    TablePteMeaning(phys);
    assert TableOk(mem, places, t);
    StepLink(mem, places, root, levels, t, level, vpn, phys / PAGE_SIZE, TablePte(phys));
    var mem' := WriteEntry(m, t, Digit(vpn, level), TablePte(phys));
    WalksToTranslation(mem, mem', root, levels);
    LinkMissing(mem, mem', root, levels - 1, vpn, t, level);
    NewOnPath(places, t, level, vpn, phys / PAGE_SIZE);
  }

  // Tables have been linked on the path of vpn only, and as many as the path lacks less now.
  ghost predicate LinkedOn(m: Memory, mem: Memory, p: Places, places: Places, root: nat, levels: nat, vpn: nat) {
    && levels > 0
    && Missing(mem, root, levels - 1, vpn) + |places| == Missing(m, root, levels - 1, vpn) + |p|
    && forall t: nat :: NewIsOnPath(p, places, vpn, t)
  }

  ghost predicate NewIsOnPath(p: Places, places: Places, vpn: nat, t: nat) {
    t in places && t !in p ==> OnPath(places, t, places[t].level, vpn)
  }

  lemma {:induction false} LinkedNone(mem: Memory, places: Places, root: nat, levels: nat, vpn: nat)
    requires levels > 0
    ensures LinkedOn(mem, mem, places, places, root, levels, vpn)
  {
  }

  lemma {:induction false} LinkedMore(m0: Memory, m1: Memory, m2: Memory, p0: Places, p1: Places, p2: Places,
                                      root: nat, levels: nat, vpn: nat)
    requires LinkedOn(m0, m1, p0, p1, root, levels, vpn) && LinkedOn(m1, m2, p1, p2, root, levels, vpn) && Extends(p1, p2)
    ensures LinkedOn(m0, m2, p0, p2, root, levels, vpn)
  {
    forall t: nat
      ensures NewIsOnPath(p0, p2, vpn, t)
    {
      assert NewIsOnPath(p0, p1, vpn, t) && NewIsOnPath(p1, p2, vpn, t);
    }
  }

  // Table t is on the walk of vpn from the root, at the given level.
  ghost predicate At(mem: Memory, places: Places, root: nat, levels: nat, t: nat, level: nat, vpn: nat) {
    && vpn < Pow512(levels) && level < levels
    && OnPath(places, t, level, vpn)
    && Reaches(mem, root, levels - 1, vpn, t, level)
    && t in mem && |mem[t]| == PT_ENTRIES
  }

  lemma {:induction false} AtMoved(mem: Memory, places: Places, root: nat, levels: nat,
                                   t: nat, level: nat, table: nat, l: nat, vpn: nat)
    requires At(mem, places, root, levels, t, level, vpn) && table == t && l == level
    ensures At(mem, places, root, levels, table, l, vpn)
  {
  }

  ghost predicate Extends(places: Places, places': Places) {
    forall t :: t in places ==> t in places' && places'[t] == places[t]
  }

  // The frames that have left the free ones are exactly the new tables, and nothing else
  // has changed hands.
  ghost predicate TookTables(o: Own.Frames, r: Own.Frames, places: Places, places': Places) {
    && Own.KeepsOthers(o, r) && Extends(places, places')
    && places'.Keys - places.Keys <= Own.FreeFrames(o)
    && Own.FreeFrames(r) == Own.FreeFrames(o) - (places'.Keys - places.Keys)
  }

  lemma {:induction false} TookMore(o: Own.Frames, m: Own.Frames, r: Own.Frames, p0: Places, p1: Places, p2: Places)
    requires TookTables(o, m, p0, p1) && TookTables(m, r, p1, p2)
    ensures TookTables(o, r, p0, p2)
  {
    forall t | t in p2 && t !in p0
      ensures t in Own.FreeFrames(o)
    {
      if t in p1 {
        assert t in p1.Keys - p0.Keys;
      } else {
        assert t in p2.Keys - p1.Keys;
      }
    }
    assert p2.Keys - p0.Keys == (p1.Keys - p0.Keys) + (p2.Keys - p1.Keys);
  }

  lemma {:induction false} TookOne(o: Own.Frames, r: Own.Frames, p0: Places, p1: Places, n: nat)
    requires Own.KeepsOthers(o, r) && Extends(p0, p1) && n !in p0 && p1.Keys == p0.Keys + {n}
    requires n in Own.FreeFrames(o) && Own.FreeFrames(r) == Own.FreeFrames(o) - {n}
    ensures TookTables(o, r, p0, p1)
  {
    assert p1.Keys - p0.Keys == {n};
  }

  predicate Super(t: Translation) {
    t.Page? && t.level > 0
  }

  // A page is in a superpage after if it was before, and then the same one; and a leaf that
  // has been written is not for user mode.
  ghost predicate SuperKept(mem: Memory, mem': Memory, root: nat, levels: nat, b: nat)
    requires 3 <= levels <= 5
  {
    var t, t' := Translate(mem, root, levels, b), Translate(mem', root, levels, b);
    t' == t || (!Super(t) && !Super(t') && !User(t'))
  }

  ghost predicate SameSupers(mem: Memory, mem': Memory, root: nat, levels: nat)
    requires 3 <= levels <= 5
  {
    forall b: nat :: b % PAGE_SIZE == 0 ==> SuperKept(mem, mem', root, levels, b)
  }

  // ---- Which paths new tables serve ----

  predicate InBetween(b: nat, lo: nat, hi: nat) {
    lo <= b < hi
  }

  ghost function Between(lo: nat, hi: nat): iset<nat> {
    iset b: nat | InBetween(b, lo, hi)
  }

  // Table t lies on the path of address b.
  ghost predicate Serves(places: Places, t: nat, levels: nat, b: nat) {
    t in places && OnPath(places, t, places[t].level, Vpn(b, levels))
  }

  ghost predicate NewServes(p: Places, places: Places, levels: nat, area: iset<nat>, t: nat) {
    t in places && t !in p ==> exists b: nat :: b in area && Serves(places, t, levels, b)
  }

  // Every new table lies on the path of an address of the area.
  ghost predicate NewServe(p: Places, places: Places, levels: nat, area: iset<nat>) {
    forall t: nat :: NewServes(p, places, levels, area, t)
  }

  lemma {:induction false} SpentServe(o: Own.Frames, p: Places, places: Places, m: Memory, root: nat, levels: nat, va: nat)
    requires levels > 0 && Spent(o, p, places, m, root, levels, va)
    ensures NewServe(p, places, levels, iset{va})
  {
    forall t: nat
      ensures NewServes(p, places, levels, iset{va}, t)
    {
      assert NewIsOnPath(p, places, Vpn(va, levels), t);
      if t in places && t !in p {
        assert Serves(places, t, levels, va);
      }
    }
  }

  lemma {:induction false} ServeMore(p0: Places, p1: Places, p2: Places, levels: nat, a: iset<nat>, b: iset<nat>)
    requires NewServe(p0, p1, levels, a) && NewServe(p1, p2, levels, b) && b <= a && Extends(p1, p2)
    ensures NewServe(p0, p2, levels, a)
  {
    forall t: nat
      ensures NewServes(p0, p2, levels, a, t)
    {
      assert NewServes(p0, p1, levels, a, t) && NewServes(p1, p2, levels, b, t);
      if t in p1 && t !in p0 {
        var c: nat :| c in a && Serves(p1, t, levels, c);
        assert Serves(p2, t, levels, c);
      }
    }
  }

  // What mapping pages does in all: the superpages stay, what leaves the free frames are new
  // tables for addresses of the area, and nothing else changes hands.
  ghost predicate Grew(o: Own.Frames, r: Own.Frames, places: Places, places': Places,
                       mem: Memory, mem': Memory, root: nat, levels: nat, area: iset<nat>)
    requires 3 <= levels <= 5
  {
    && TookTables(o, r, places, places')
    && NewServe(places, places', levels, area)
    && SameSupers(mem, mem', root, levels)
  }

  lemma {:induction false} GrewNone(o: Own.Frames, places: Places, mem: Memory, root: nat, levels: nat, area: iset<nat>)
    requires 3 <= levels <= 5
    ensures Grew(o, o, places, places, mem, mem, root, levels, area)
  {
  }

  lemma {:induction false} GrewWider(o: Own.Frames, r: Own.Frames, p0: Places, p1: Places, m0: Memory, m1: Memory,
                                     root: nat, levels: nat, a: iset<nat>, b: iset<nat>)
    requires 3 <= levels <= 5 && Grew(o, r, p0, p1, m0, m1, root, levels, a) && a <= b
    ensures Grew(o, r, p0, p1, m0, m1, root, levels, b)
  {
    forall t: nat
      ensures NewServes(p0, p1, levels, b, t)
    {
      assert NewServes(p0, p1, levels, a, t);
    }
  }

  lemma {:induction false} GrewMore(o: Own.Frames, oo: Own.Frames, r: Own.Frames, p0: Places, p1: Places, p2: Places,
                                    m0: Memory, m1: Memory, m2: Memory, root: nat, levels: nat, a: iset<nat>, b: iset<nat>)
    requires 3 <= levels <= 5 && b <= a
    requires Grew(o, oo, p0, p1, m0, m1, root, levels, a) && Grew(oo, r, p1, p2, m1, m2, root, levels, b)
    ensures Grew(o, r, p0, p2, m0, m2, root, levels, a)
  {
    TookMore(o, oo, r, p0, p1, p2);
    ServeMore(p0, p1, p2, levels, a, b);
    SupersMore(m0, m1, m2, root, levels);
  }

  lemma {:induction false} SupersMore(m0: Memory, m1: Memory, m2: Memory, root: nat, levels: nat)
    requires 3 <= levels <= 5 && SameSupers(m0, m1, root, levels) && SameSupers(m1, m2, root, levels)
    ensures SameSupers(m0, m2, root, levels)
  {
    forall b: nat | b % PAGE_SIZE == 0
      ensures SuperKept(m0, m2, root, levels, b)
    {
      assert SuperKept(m0, m1, root, levels, b) && SuperKept(m1, m2, root, levels, b);
    }
  }

  lemma {:induction false} MappedGrew(mem: Memory, mem': Memory, root: nat, levels: nat, va: nat, pa: nat, flags: nat)
    requires 3 <= levels <= 5 && va % PAGE_SIZE == 0 && Mapped(mem, mem', root, levels, va, pa, flags, true)
    ensures SameSupers(mem, mem', root, levels)
  {
    forall b: nat | b % PAGE_SIZE == 0
      ensures SuperKept(mem, mem', root, levels, b)
    {
      if b != va {
        assert b / PAGE_SIZE != va / PAGE_SIZE;
      }
    }
  }

  // ---- Why a mapping fails ----

  ghost predicate ConflictNth(mem: Memory, root: nat, levels: nat, va: nat, pa: nat, k: nat, flags: nat)
    requires 3 <= levels <= 5
  {
    Conflict(mem, root, levels, va + k * PAGE_SIZE, pa + k * PAGE_SIZE, flags)
  }

  // The n pages from va cannot all be mapped: an address is not page aligned, there is no
  // root, no page is left for tables, or one of the pages is in a conflicting superpage.
  ghost predicate Obstacle(mem: Memory, rootPhys: nat, levels: nat, r: Own.Frames, va: nat, pa: nat, n: nat, flags: nat)
    requires 3 <= levels <= 5
  {
    || va % PAGE_SIZE != 0 || pa % PAGE_SIZE != 0 || rootPhys == 0
    || Own.FreeFrames(r) == {}
    || exists k: nat :: k < n && ConflictNth(mem, rootPhys / PAGE_SIZE, levels, va, pa, k, flags)
  }

  lemma {:induction false} OneObstacle(mem: Memory, rootPhys: nat, levels: nat, r: Own.Frames, va: nat, pa: nat, flags: nat, ok: bool)
    requires 3 <= levels <= 5
    requires !ok ==> Own.FreeFrames(r) == {} || Conflict(mem, rootPhys / PAGE_SIZE, levels, va, pa, flags)
    ensures !ok ==> Obstacle(mem, rootPhys, levels, r, va, pa, 1, flags)
  {
    if Conflict(mem, rootPhys / PAGE_SIZE, levels, va, pa, flags) {
      assert ConflictNth(mem, rootPhys / PAGE_SIZE, levels, va, pa, 0, flags);
    }
  }

  // On any page that has been mapped, the kernel gets the access if the page was not there
  // for user mode before.
  lemma {:induction false} KernelAccess(mem: Memory, mem': Memory, root: nat, levels: nat, b: nat, pa: nat, flags: nat)
    requires 3 <= levels <= 5 && b % PAGE_SIZE == 0 && SameSupers(mem, mem', root, levels)
    requires Maps(mem', root, levels, b, pa, flags) && !User(Translate(mem, root, levels, b))
    ensures KernelMaps(mem', root, levels, b, pa, flags)
  {
    assert SuperKept(mem, mem', root, levels, b);
  }

  // The same superpages conflict before and after.
  lemma {:induction false} ConflictKept(mem: Memory, mem': Memory, root: nat, levels: nat, b: nat, pa: nat, flags: nat)
    requires 3 <= levels <= 5 && SuperKept(mem, mem', root, levels, b)
    ensures Conflict(mem', root, levels, b, pa, flags) <==> Conflict(mem, root, levels, b, pa, flags)
  {
  }

  // The first n pages of a run have been mapped.
  ghost predicate Progress(o: Own.Frames, r: Own.Frames, p: Places, places: Places, m: Memory, mem: Memory,
                           root: nat, levels: nat, va: nat, pa: nat, n: nat, flags: nat, area: iset<nat>)
    requires 3 <= levels <= 5
  {
    && Grew(o, r, p, places, m, mem, root, levels, area)
    && ForKernel(m, mem, root, levels, va, pa, n, flags)
    && MapsRange(mem, root, levels, va, pa, n, flags)
    && SameOutside(m, mem, root, levels, va, va + n * PAGE_SIZE)
    && (n > 0 ==> va % PAGE_SIZE == 0)
  }

  // The next one could not be.
  ghost predicate Stalled(o: Own.Frames, r: Own.Frames, p: Places, places: Places, m: Memory, mem: Memory,
                          rootPhys: nat, levels: nat, va: nat, pa: nat, n: nat, flags: nat, area: iset<nat>)
    requires 3 <= levels <= 5
  {
    && Grew(o, r, p, places, m, mem, rootPhys / PAGE_SIZE, levels, area)
    && SameOutside(m, mem, rootPhys / PAGE_SIZE, levels, va, va + n * PAGE_SIZE)
    && Obstacle(m, rootPhys, levels, r, va, pa, n + 1, flags)
  }

  // The kernel gets the access on page k, unless the page was mapped so for user mode before.
  ghost predicate KernelNth(m: Memory, mem: Memory, root: nat, levels: nat, va: nat, pa: nat, k: nat, flags: nat)
    requires 3 <= levels <= 5
  {
    KernelMaps(mem, root, levels, va + k * PAGE_SIZE, pa + k * PAGE_SIZE, flags)
    <==> !UserMaps(m, root, levels, va + k * PAGE_SIZE, pa + k * PAGE_SIZE, flags)
  }

  ghost predicate ForKernel(m: Memory, mem: Memory, root: nat, levels: nat, va: nat, pa: nat, n: nat, flags: nat)
    requires 3 <= levels <= 5
  {
    forall k: nat :: k < n ==> KernelNth(m, mem, root, levels, va, pa, k, flags)
  }

  lemma {:induction false} KernelMore(m: Memory, m1: Memory, mem: Memory, root: nat, levels: nat, va: nat, pa: nat, n: nat,
                                      b: nat, c: nat, flags: nat)
    requires 3 <= levels <= 5 && b == va + n * PAGE_SIZE && c == pa + n * PAGE_SIZE && va % PAGE_SIZE == 0
    requires ForKernel(m, m1, root, levels, va, pa, n, flags) && SameOutside(m, m1, root, levels, va, b)
    requires Mapped(m1, mem, root, levels, b, c, flags, true)
    ensures ForKernel(m, mem, root, levels, va, pa, n + 1, flags)
  {
    forall k: nat | k < n + 1
      ensures KernelNth(m, mem, root, levels, va, pa, k, flags)
    {
      var d := va + k * PAGE_SIZE;
      if k < n {
        assert KernelNth(m, m1, root, levels, va, pa, k, flags);
        assert d / PAGE_SIZE != b / PAGE_SIZE;
        assert Translate(mem, root, levels, d) == Translate(m1, root, levels, d);
      } else {
        assert d == b && Translate(m1, root, levels, b) == Translate(m, root, levels, b);
      }
    }
  }

  lemma {:induction false} NoProgress(o: Own.Frames, places: Places, mem: Memory, root: nat, levels: nat, va: nat, pa: nat, flags: nat,
                                      area: iset<nat>)
    requires 3 <= levels <= 5
    ensures Progress(o, o, places, places, mem, mem, root, levels, va, pa, 0, flags, area)
    ensures Grew(o, o, places, places, mem, mem, root, levels, area)
  {
  }

  lemma {:induction false} ProgressMore(o: Own.Frames, o1: Own.Frames, r: Own.Frames, p: Places, p1: Places, places: Places,
                                        m: Memory, m1: Memory, mem: Memory, root: nat, levels: nat,
                                        va: nat, pa: nat, n: nat, b: nat, c: nat, flags: nat, area: iset<nat>)
    requires 3 <= levels <= 5 && b == va + n * PAGE_SIZE && c == pa + n * PAGE_SIZE && b % PAGE_SIZE == 0 && b in area
    requires Progress(o, o1, p, p1, m, m1, root, levels, va, pa, n, flags, area)
    requires TookTables(o1, r, p1, places) && NewServe(p1, places, levels, iset{b})
    requires Mapped(m1, mem, root, levels, b, c, flags, true)
    ensures Progress(o, r, p, places, m, mem, root, levels, va, pa, n + 1, flags, area)
  {
    MappedGrew(m1, mem, root, levels, b, c, flags);
    GrewMore(o, o1, r, p, p1, places, m, m1, mem, root, levels, area, iset{b});
    KernelMore(m, m1, mem, root, levels, va, pa, n, b, c, flags);
    OneMore(m, m1, mem, root, levels, va, pa, n, flags);
  }

  lemma {:induction false} ProgressStops(o: Own.Frames, o1: Own.Frames, r: Own.Frames, p: Places, p1: Places, places: Places,
                                         m: Memory, m1: Memory, mem: Memory, rootPhys: nat, levels: nat,
                                         va: nat, pa: nat, n: nat, b: nat, c: nat, flags: nat, area: iset<nat>)
    requires 3 <= levels <= 5 && b == va + n * PAGE_SIZE && c == pa + n * PAGE_SIZE && b in area
    requires Progress(o, o1, p, p1, m, m1, rootPhys / PAGE_SIZE, levels, va, pa, n, flags, area)
    requires TookTables(o1, r, p1, places) && NewServe(p1, places, levels, iset{b})
    requires SameTranslation(m1, mem, rootPhys / PAGE_SIZE, levels)
    requires Obstacle(m1, rootPhys, levels, r, b, c, 1, flags)
    ensures Stalled(o, r, p, places, m, mem, rootPhys, levels, va, pa, n, flags, area)
  {
    var root := rootPhys / PAGE_SIZE;
    SameSupersStill(m1, mem, root, levels);
    GrewMore(o, o1, r, p, p1, places, m, m1, mem, root, levels, area, iset{b});
    StillOutside(m, m1, mem, root, levels, va, va + n * PAGE_SIZE);
    NthObstacle(m, m1, rootPhys, levels, r, va, pa, n, flags);
  }

  lemma {:induction false} SameSupersStill(mem: Memory, mem': Memory, root: nat, levels: nat)
    requires 3 <= levels <= 5 && SameTranslation(mem, mem', root, levels)
    ensures SameSupers(mem, mem', root, levels)
  {
    forall b: nat | b % PAGE_SIZE == 0
      ensures SuperKept(mem, mem', root, levels, b)
    {
      assert Translate(mem', root, levels, b) == Translate(mem, root, levels, b);
    }
  }

  lemma {:induction false} StillOutside(m: Memory, mem: Memory, mem': Memory, root: nat, levels: nat, lo: nat, hi: nat)
    requires 3 <= levels <= 5 && SameTranslation(mem, mem', root, levels) && SameOutside(m, mem, root, levels, lo, hi)
    ensures SameOutside(m, mem', root, levels, lo, hi)
  {
  }

  lemma {:induction false} ProgressDone(o: Own.Frames, r: Own.Frames, p: Places, places: Places, m: Memory, mem: Memory,
                                        root: nat, levels: nat, va: nat, pa: nat, n: nat, hi: nat, flags: nat, area: iset<nat>)
    requires 3 <= levels <= 5 && hi == va + n * PAGE_SIZE
    requires Progress(o, r, p, places, m, mem, root, levels, va, pa, n, flags, area)
    ensures Grew(o, r, p, places, m, mem, root, levels, area) && MapsRange(mem, root, levels, va, pa, n, flags)
    ensures SameOutside(m, mem, root, levels, va, hi) && ForKernel(m, mem, root, levels, va, pa, n, flags)
  {
  }

  lemma {:induction false} StalledInside(o: Own.Frames, r: Own.Frames, p: Places, places: Places, m: Memory, mem: Memory,
                                         rootPhys: nat, levels: nat, va: nat, pa: nat, n: nat, total: nat, hi: nat, flags: nat,
                                         area: iset<nat>)
    requires 3 <= levels <= 5 && n < total && hi == va + total * PAGE_SIZE
    requires Stalled(o, r, p, places, m, mem, rootPhys, levels, va, pa, n, flags, area)
    ensures Grew(o, r, p, places, m, mem, rootPhys / PAGE_SIZE, levels, area)
    ensures SameOutside(m, mem, rootPhys / PAGE_SIZE, levels, va, hi)
    ensures Obstacle(m, rootPhys, levels, r, va, pa, total, flags)
  {
  }

  lemma {:induction false} NthObstacle(mem: Memory, m: Memory, rootPhys: nat, levels: nat, r: Own.Frames,
                                       va: nat, pa: nat, n: nat, flags: nat)
    requires 3 <= levels <= 5 && SameSupers(mem, m, rootPhys / PAGE_SIZE, levels)
    requires Obstacle(m, rootPhys, levels, r, va + n * PAGE_SIZE, pa + n * PAGE_SIZE, 1, flags)
    ensures Obstacle(mem, rootPhys, levels, r, va, pa, n + 1, flags)
  {
    var b, root := va + n * PAGE_SIZE, rootPhys / PAGE_SIZE;
    if ConflictNth(m, root, levels, b, pa + n * PAGE_SIZE, 0, flags) && va % PAGE_SIZE == 0 {
      assert SuperKept(mem, m, root, levels, b);
      ConflictKept(mem, m, root, levels, b, pa + n * PAGE_SIZE, flags);
      assert ConflictNth(mem, root, levels, va, pa, n, flags);
    }
  }

  lemma {:induction false} ObstacleKept(mem: Memory, m: Memory, rootPhys: nat, levels: nat, r: Own.Frames,
                                        va: nat, pa: nat, n: nat, flags: nat)
    requires 3 <= levels <= 5 && SameSupers(mem, m, rootPhys / PAGE_SIZE, levels)
    requires Obstacle(m, rootPhys, levels, r, va, pa, n, flags)
    ensures Obstacle(mem, rootPhys, levels, r, va, pa, n, flags)
  {
    var root := rootPhys / PAGE_SIZE;
    if va % PAGE_SIZE == 0 {
      if k: nat :| k < n && ConflictNth(m, root, levels, va, pa, k, flags) {
        NthConflictKept(mem, m, root, levels, va, pa, k, flags);
      }
    }
  }

  lemma {:induction false} NthConflictKept(mem: Memory, m: Memory, root: nat, levels: nat, va: nat, pa: nat, k: nat, flags: nat)
    requires 3 <= levels <= 5 && SameSupers(mem, m, root, levels) && va % PAGE_SIZE == 0
    ensures ConflictNth(mem, root, levels, va, pa, k, flags) <==> ConflictNth(m, root, levels, va, pa, k, flags)
  {
    var b := va + k * PAGE_SIZE;
    assert SuperKept(mem, m, root, levels, b);
    ConflictKept(mem, m, root, levels, b, pa + k * PAGE_SIZE, flags);
  }

  // Conversely a range that has been mapped met no conflict, so a conflict always fails it.
  lemma {:induction false} MappedHadNoConflict(mem: Memory, mem': Memory, root: nat, levels: nat,
                                               va: nat, pa: nat, n: nat, flags: nat, k: nat)
    requires 3 <= levels <= 5 && va % PAGE_SIZE == 0 && k < n
    requires MapsRange(mem', root, levels, va, pa, n, flags) && SameSupers(mem, mem', root, levels)
    ensures !ConflictNth(mem, root, levels, va, pa, k, flags)
  {
    assert MapsNth(mem', root, levels, va, pa, k, flags);
    NthConflictKept(mem, mem', root, levels, va, pa, k, flags);
  }

  ghost predicate ExtentObstacle(mem: Memory, rootPhys: nat, levels: nat, r: Own.Frames, e: Db.Entry, hhdm: nat)
    requires 3 <= levels <= 5
  {
    Obstacle(mem, rootPhys, levels, r, hhdm + PageStart(e), PageStart(e), (PageEnd(e) - PageStart(e)) / PAGE_SIZE, PROT_RWG)
  }

  ghost predicate HhdmObstacle(mem: Memory, rootPhys: nat, levels: nat, r: Own.Frames, memmap: seq<Db.Entry>, hhdm: nat)
    requires 3 <= levels <= 5
  {
    exists i: nat :: i < |memmap| && ExtentObstacle(mem, rootPhys, levels, r, memmap[i], hhdm)
  }

  lemma {:induction false} ExtentObstacleKept(mem: Memory, m: Memory, rootPhys: nat, levels: nat, r: Own.Frames, e: Db.Entry, hhdm: nat)
    requires 3 <= levels <= 5 && SameSupers(mem, m, rootPhys / PAGE_SIZE, levels)
    requires ExtentObstacle(m, rootPhys, levels, r, e, hhdm)
    ensures ExtentObstacle(mem, rootPhys, levels, r, e, hhdm)
  {
    ObstacleKept(mem, m, rootPhys, levels, r, hhdm + PageStart(e), PageStart(e), (PageEnd(e) - PageStart(e)) / PAGE_SIZE, PROT_RWG);
  }

  // Tables are safe from other callers: no allocation hands one out, and as long as nobody
  // frees one they stay out of the free blocks.
  lemma {:induction false} TablesSurviveAlloc(o: Own.Frames, r: Own.Frames, p: nat, k: nat, places: Places, mem: Memory)
    requires Separate(o, places, mem) && Alloc.AllocStep(o, r, p, k)
    ensures Separate(r, places, mem)
    ensures forall t :: t in places ==> t !in Own.Run(p, k)
  {
    forall t | t in places && t < |o|
      ensures t !in Own.FreeFrames(o) && t !in Own.Run(p, k)
    {
      Own.InRunIffMember(t, p, k);
    }
    forall t | t in places
      ensures t !in Own.Run(p, k)
    {
      Own.InRunIffMember(t, p, k);
    }
  }

  lemma {:induction false} TablesSurviveFree(o: Own.Frames, r: Own.Frames, p: nat, k: nat, places: Places, mem: Memory)
    requires Own.Partition(o) && Separate(o, places, mem) && Alloc.FreeStep(o, r, p, k) && p !in places
    ensures Separate(r, places, mem)
  {
    assert Own.InRun(p, p, k);
    assert Own.Whole(o, Own.Block(p, k, Own.Live));
    forall t: nat | t < |o| && (t in places || o[t] == Own.Reserved)
      ensures r[t] == o[t]
    {
      Own.InRunIffMember(t, p, k);
    }
  }

  // So over any run of other callers' requests that frees no table, no block handed out
  // meets a table.
  lemma {:induction false} TablesSurvive(h: seq<Own.Frames>, calls: seq<Runs.Call>, places: Places, mem: Memory)
    requires |h| == |calls| + 1 && Separate(h[0], places, mem)
    requires forall i :: 0 <= i < |calls| ==> Runs.Step(h[i], calls[i], h[i + 1])
    requires forall i :: 0 <= i < |calls| && calls[i].Freed? ==> calls[i].page !in places
    ensures Separate(h[|calls|], places, mem)
    ensures forall i, t :: 0 <= i < |calls| && calls[i].Allocated? && t in places ==>
                             t !in Own.Run(calls[i].page, calls[i].order)
  {
    if calls != [] {
      assert Runs.Step(h[0], calls[0], h[1]);
      match calls[0] {
        case Allocated(p, k) => TablesSurviveAlloc(h[0], h[1], p, k, places, mem);
        case Freed(p, k) => TablesSurviveFree(h[0], h[1], p, k, places, mem);
      }
      TablesSurvive(h[1..], calls[1..], places, mem);
      forall i, t | 0 <= i < |calls| && calls[i].Allocated? && t in places
        ensures t !in Own.Run(calls[i].page, calls[i].order)
      {
        if i > 0 {
          assert calls[i] == calls[1..][i - 1];
        }
      }
    }
  }

  lemma {:induction false} SeparateLink(o: Own.Frames, r: Own.Frames, places: Places, mem: Memory, n: nat, mem': Memory, places': Places)
    requires Separate(o, places, mem) && Own.KeepsOthers(o, r)
    requires Own.IsBlock(r, n, 0, Own.Live)
    requires places'.Keys == places.Keys + {n} && mem.Keys <= mem'.Keys
    ensures Separate(r, places', mem')
  {
    forall u | u in places' && u < |r|
      ensures r[u] == Own.Reserved || r[u] == Own.Block(u, 0, Own.Live)
    {
      if u != n {
        assert u in places;
      }
    }
  }

  method OnePage(pmm: Alloc.Pmm) returns (page: Lists.Link)
    requires pmm.Valid() && pmm.ready
    modifies pmm`freePages, pmm.pages, pmm.freeLists, pmm`lists, pmm`frames
    ensures pmm.Valid()
    ensures page == Lists.Null ==> pmm.frames == old(pmm.frames) && Own.FreeFrames(pmm.frames) == {}
    ensures page.To? ==> Alloc.AllocStep(old(pmm.frames), pmm.frames, page.pfn, 0)
  {
    page := Lists.Null;
    if pmm.ready {
      page := pmm.PageAlloc(0);
    }
    if page == Lists.Null {
      NothingFree(pmm.frames);
    }
  }

  lemma {:induction false} NothingFree(o: Own.Frames)
    requires !exists p: nat :: Own.FreeRun(o, p, 0)
    ensures Own.FreeFrames(o) == {}
  {
    forall p: nat | p in Own.FreeFrames(o)
      ensures false
    {
      assert Own.FreeRun(o, p, 0);
    }
  }

  // A page just allocated was free, so it is not a table yet.
  lemma {:induction false} NewTable(o: Own.Frames, r: Own.Frames, places: Places, mem: Memory, p: nat)
    requires Separate(o, places, mem) && Alloc.AllocStep(o, r, p, 0)
    ensures p !in places && p < |o|
    ensures var phys := p * PAGE_SIZE; phys < PHYS_LIMIT && phys % PAGE_SIZE == 0 && phys / PAGE_SIZE == p
    ensures Own.IsBlock(r, p, 0, Own.Live)
    ensures p in Own.FreeFrames(o) && Own.FreeFrames(r) == Own.FreeFrames(o) - {p}
  {
    assert Own.InRun(p, p, 0);
    Own.RunOfOne(p);
  }

  // ---- Kernel segments ----

  datatype Segment = Segment(start: nat, end: nat, flags: nat)

  // Where the bootloader put the kernel image.
  datatype LoadAddress = NotReported | Loaded(phys: nat, virt: nat)

  function SegmentStart(g: Segment): nat {
    g.start / PAGE_SIZE * PAGE_SIZE
  }

  function SegmentEnd(g: Segment): nat {
    RoundUp(g.end)
  }

  // kernel_phys_base + (virt - kernel_virt_base), in 64-bit arithmetic.
  function LoadPhys(x: LoadAddress, v: nat): nat
    requires x.Loaded?
  {
    (x.phys + v + WORD - x.virt % WORD) % WORD
  }

  predicate InSegment(g: Segment, b: nat) {
    SegmentStart(g) <= b < SegmentEnd(g)
  }

  // Segments lie above the kernel's virtual base, in canonical addresses that do not wrap.
  ghost predicate SegmentOk(g: Segment, x: LoadAddress, levels: nat)
    requires levels <= 5
  {
    && Accessible(g.flags) && SegmentEnd(g) < WORD
    && (forall b: nat :: InSegment(g, b) ==> Canonical(b, levels))
    && (x.Loaded? ==> x.virt <= SegmentStart(g) && x.phys + SegmentEnd(g) - x.virt <= PHYS_LIMIT)
  }

  lemma {:induction false} LoadOffset(x: LoadAddress, v: nat)
    requires x.Loaded? && x.virt <= v < WORD && x.phys + v - x.virt < WORD
    ensures LoadPhys(x, v) == x.phys + v - x.virt
  {
  }

  lemma {:induction false} SegmentPage(g: Segment, x: LoadAddress, levels: nat, n: nat, v: nat, start: nat)
    requires levels <= 5 && SegmentOk(g, x, levels) && x.Loaded? && start == SegmentStart(g)
    requires v == start + n * PAGE_SIZE && v < SegmentEnd(g)
    ensures Canonical(v, levels)
    ensures LoadPhys(x, v) == LoadPhys(x, start) + n * PAGE_SIZE < PHYS_LIMIT
  {
    assert InSegment(g, v);
    LoadOffset(x, v);
    LoadOffset(x, start);
  }

  lemma {:induction false} SegmentPages(g: Segment, start: nat, end: nat, total: nat)
    requires start == SegmentStart(g) && end == SegmentEnd(g) && start < end && total == (end - start) / PAGE_SIZE
    ensures end == start + total * PAGE_SIZE
  {
  }

  // Every page of the segment translates to its place in the loaded image.
  ghost predicate SegmentMapped(mem: Memory, root: nat, levels: nat, g: Segment, x: LoadAddress)
    requires 3 <= levels <= 5 && x.Loaded?
  {
    SegmentStart(g) < SegmentEnd(g) ==>
      MapsRange(mem, root, levels, SegmentStart(g), LoadPhys(x, SegmentStart(g)),
                (SegmentEnd(g) - SegmentStart(g)) / PAGE_SIZE, g.flags)
  }

  ghost function SegmentArea(g: Segment): iset<nat> {
    Between(SegmentStart(g), SegmentEnd(g))
  }

  // The addresses of the kernel image.
  ghost function SegmentsArea(segs: seq<Segment>): iset<nat> {
    iset b: nat | !OffSegments(segs, 0, |segs|, b)
  }

  lemma {:induction false} SegmentInside(segs: seq<Segment>, i: nat)
    requires i < |segs|
    ensures SegmentArea(segs[i]) <= SegmentsArea(segs)
  {
    forall b | b in SegmentArea(segs[i])
      ensures b in SegmentsArea(segs)
    {
      assert InSegment(segs[i], b);
    }
  }

  ghost predicate SegmentObstacle(mem: Memory, rootPhys: nat, levels: nat, r: Own.Frames, g: Segment, x: LoadAddress)
    requires 3 <= levels <= 5 && x.Loaded?
  {
    SegmentStart(g) < SegmentEnd(g) &&
      Obstacle(mem, rootPhys, levels, r, SegmentStart(g), LoadPhys(x, SegmentStart(g)),
               (SegmentEnd(g) - SegmentStart(g)) / PAGE_SIZE, g.flags)
  }

  ghost predicate SegmentsObstacle(mem: Memory, rootPhys: nat, levels: nat, r: Own.Frames, segs: seq<Segment>, x: LoadAddress)
    requires 3 <= levels <= 5 && x.Loaded?
  {
    exists i: nat :: i < |segs| && SegmentObstacle(mem, rootPhys, levels, r, segs[i], x)
  }

  lemma {:induction false} SegmentObstacleKept(mem: Memory, m: Memory, rootPhys: nat, levels: nat, r: Own.Frames, g: Segment, x: LoadAddress)
    requires 3 <= levels <= 5 && x.Loaded? && SameSupers(mem, m, rootPhys / PAGE_SIZE, levels)
    requires SegmentObstacle(m, rootPhys, levels, r, g, x)
    ensures SegmentObstacle(mem, rootPhys, levels, r, g, x)
  {
    ObstacleKept(mem, m, rootPhys, levels, r, SegmentStart(g), LoadPhys(x, SegmentStart(g)),
                 (SegmentEnd(g) - SegmentStart(g)) / PAGE_SIZE, g.flags);
  }

  lemma {:induction false} SegmentsObstacleKept(mem: Memory, m: Memory, rootPhys: nat, levels: nat, r: Own.Frames,
                                                segs: seq<Segment>, x: LoadAddress)
    requires 3 <= levels <= 5 && x.Loaded? && SameSupers(mem, m, rootPhys / PAGE_SIZE, levels)
    requires SegmentsObstacle(m, rootPhys, levels, r, segs, x)
    ensures SegmentsObstacle(mem, rootPhys, levels, r, segs, x)
  {
    var i: nat :| i < |segs| && SegmentObstacle(m, rootPhys, levels, r, segs[i], x);
    SegmentObstacleKept(mem, m, rootPhys, levels, r, segs[i], x);
  }

  // Addresses outside the direct map and the kernel image translate as before.
  ghost predicate SameElsewhere(mem: Memory, mem': Memory, root: nat, levels: nat, memmap: seq<Db.Entry>, hhdm: nat, segs: seq<Segment>)
    requires 3 <= levels <= 5
  {
    forall b: nat :: OffHhdm(memmap, hhdm, |memmap|, b) && OffSegments(segs, 0, |segs|, b) ==>
                       Translate(mem', root, levels, b) == Translate(mem, root, levels, b)
  }

  ghost predicate OffSegments(segs: seq<Segment>, from: nat, n: nat, b: nat) {
    forall i: nat :: from <= i < n && i < |segs| ==> !InSegment(segs[i], b)
  }

  ghost predicate SameOffSegments(mem: Memory, mem': Memory, root: nat, levels: nat, segs: seq<Segment>, n: nat)
    requires 3 <= levels <= 5
  {
    forall b: nat :: OffSegments(segs, 0, n, b) ==> Translate(mem', root, levels, b) == Translate(mem, root, levels, b)
  }

  ghost predicate MapsTo(mem: Memory, root: nat, levels: nat, va: nat, pa: nat)
    requires 3 <= levels <= 5
  {
    var t := Translate(mem, root, levels, va);
    t.Page? && t.ppn * PAGE_SIZE == pa
  }

  // Page v of segment i leads to its place in the image, and grants the segment's access
  // unless one of the first n segments after i shares the page.
  ghost predicate SegmentPageMapped(mem: Memory, root: nat, levels: nat, segs: seq<Segment>, x: LoadAddress, n: nat, i: nat, v: nat)
    requires 3 <= levels <= 5 && x.Loaded? && i < |segs|
  {
    && MapsTo(mem, root, levels, v, LoadPhys(x, v))
    && (OffSegments(segs, i + 1, n, v) ==> Maps(mem, root, levels, v, LoadPhys(x, v), segs[i].flags))
  }

  ghost predicate SegmentsMapped(mem: Memory, root: nat, levels: nat, segs: seq<Segment>, x: LoadAddress, n: nat)
    requires 3 <= levels <= 5 && x.Loaded?
  {
    forall i: nat, v: nat :: i < n && i < |segs| && v % PAGE_SIZE == 0 && InSegment(segs[i], v) ==>
                               SegmentPageMapped(mem, root, levels, segs, x, n, i, v)
  }

  lemma {:induction false} OffSegmentsNext(mem0: Memory, mem: Memory, mem': Memory, root: nat, levels: nat, segs: seq<Segment>, i: nat)
    requires 3 <= levels <= 5 && i < |segs|
    requires SameOffSegments(mem0, mem, root, levels, segs, i)
    requires SameOutside(mem, mem', root, levels, SegmentStart(segs[i]), SegmentEnd(segs[i]))
    ensures SameOffSegments(mem0, mem', root, levels, segs, i + 1)
  {
    forall b: nat | OffSegments(segs, 0, i + 1, b)
      ensures Translate(mem', root, levels, b) == Translate(mem0, root, levels, b)
    {
      assert !InSegment(segs[i], b);
      assert OffSegments(segs, 0, i, b);
      assert Translate(mem', root, levels, b) == Translate(mem, root, levels, b);
    }
  }

  lemma {:induction false} OffSegmentsAll(mem0: Memory, mem: Memory, root: nat, levels: nat, segs: seq<Segment>, n: nat)
    requires 3 <= levels <= 5 && n <= |segs|
    requires SameOffSegments(mem0, mem, root, levels, segs, n)
    ensures SameOffSegments(mem0, mem, root, levels, segs, |segs|)
  {
    forall b: nat | OffSegments(segs, 0, |segs|, b)
      ensures Translate(mem, root, levels, b) == Translate(mem0, root, levels, b)
    {
      assert OffSegments(segs, 0, n, b);
    }
  }

  // A mapped segment maps each of its pages.
  lemma {:induction false} PageInSegment(mem: Memory, root: nat, levels: nat, g: Segment, x: LoadAddress, v: nat)
    requires 3 <= levels <= 5 && x.Loaded? && SegmentMapped(mem, root, levels, g, x) && SegmentOk(g, x, levels)
    requires v % PAGE_SIZE == 0 && InSegment(g, v)
    ensures Maps(mem, root, levels, v, LoadPhys(x, v), g.flags)
  {
    var s := SegmentStart(g);
    var k := (v - s) / PAGE_SIZE;
    assert v == s + k * PAGE_SIZE;
    assert k < (SegmentEnd(g) - s) / PAGE_SIZE;
    SegmentPage(g, x, levels, k, v, s);
    assert MapsNth(mem, root, levels, s, LoadPhys(x, s), k, g.flags);
  }

  lemma {:induction false} SegmentsNext(mem: Memory, mem': Memory, root: nat, levels: nat, segs: seq<Segment>, x: LoadAddress, i: nat)
    requires 3 <= levels <= 5 && x.Loaded? && i < |segs| && SegmentOk(segs[i], x, levels)
    requires SegmentsMapped(mem, root, levels, segs, x, i)
    requires SegmentMapped(mem', root, levels, segs[i], x)
    requires SameOutside(mem, mem', root, levels, SegmentStart(segs[i]), SegmentEnd(segs[i]))
    ensures SegmentsMapped(mem', root, levels, segs, x, i + 1)
  {
    forall j: nat, v: nat | j < i + 1 && v % PAGE_SIZE == 0 && InSegment(segs[j], v)
      ensures SegmentPageMapped(mem', root, levels, segs, x, i + 1, j, v)
    {
      if InSegment(segs[i], v) {
        PageInSegment(mem', root, levels, segs[i], x, v);
        assert j < i ==> !OffSegments(segs, j + 1, i + 1, v);
      } else {
        assert SegmentPageMapped(mem, root, levels, segs, x, i, j, v);
        assert OffSegments(segs, j + 1, i + 1, v) ==> OffSegments(segs, j + 1, i, v);
        assert Translate(mem', root, levels, v) == Translate(mem, root, levels, v);
      }
    }
  }

  // No segment page lies in the direct map.
  ghost predicate Apart(memmap: seq<Db.Entry>, hhdm: nat, segs: seq<Segment>) {
    forall i: nat, j: nat, b: nat :: i < |memmap| && j < |segs| && InExtent(memmap[i], hhdm, b) ==> !InSegment(segs[j], b)
  }

  lemma {:induction false} HhdmKept(mem: Memory, mem': Memory, root: nat, levels: nat, memmap: seq<Db.Entry>, hhdm: nat, segs: seq<Segment>)
    requires 3 <= levels <= 5 && Apart(memmap, hhdm, segs)
    requires HhdmMapped(mem, root, levels, memmap, hhdm, |memmap|)
    requires SameOffSegments(mem, mem', root, levels, segs, |segs|)
    ensures HhdmMapped(mem', root, levels, memmap, hhdm, |memmap|)
  {
    forall i: nat | i < |memmap|
      ensures ExtentMapped(mem', root, levels, memmap[i], hhdm)
    {
      assert ExtentMapped(mem, root, levels, memmap[i], hhdm);
      ExtentOffSegments(mem, mem', root, levels, memmap, hhdm, segs, i);
    }
  }

  lemma {:induction false} ExtentOffSegments(mem: Memory, mem': Memory, root: nat, levels: nat, memmap: seq<Db.Entry>, hhdm: nat, segs: seq<Segment>, i: nat)
    requires 3 <= levels <= 5 && Apart(memmap, hhdm, segs) && i < |memmap|
    requires ExtentMapped(mem, root, levels, memmap[i], hhdm)
    requires SameOffSegments(mem, mem', root, levels, segs, |segs|)
    ensures ExtentMapped(mem', root, levels, memmap[i], hhdm)
  {
    var e := memmap[i];
    var va, pa, n: nat := hhdm + PageStart(e), PageStart(e), (PageEnd(e) - PageStart(e)) / PAGE_SIZE;
    forall k: nat | k < n
      ensures MapsNth(mem', root, levels, va, pa, k, PROT_RWG)
    {
      assert MapsNth(mem, root, levels, va, pa, k, PROT_RWG);
      var b := va + k * PAGE_SIZE;
      assert InExtent(e, hhdm, b);
      assert OffSegments(segs, 0, |segs|, b);
      assert Translate(mem', root, levels, b) == Translate(mem, root, levels, b);
    }
  }
}
