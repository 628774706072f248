/** Memory start-up in kernel/src/main.c: the database, then the allocator on top of it. */
module Boot {
  import opened Machine
  import Bits
  import opened Ownership
  import opened FreeLists
  import opened PageAllocator
  import opened Histories
  import Db = PfnDatabase
  import Sv
  import PageTree
  import Map = PageTables
  import KernelMap

  // Entry i of the memory map was cut to make room for the database at phys.
  ghost predicate StorageAt(m: seq<Db.Entry>, i: nat, phys: nat) {
    Db.Bootable(m, i) && phys == m[i].base
  }

  // A frame belongs to the allocator if the firmware called it usable and the database is
  // not stored there; all of these start out free and everything else is reserved.
  ghost predicate OwnsExactly(m: seq<Db.Entry>, phys: nat, o: Frames) {
    |o| == Db.MaxPfn(m) + 1 && forall p: nat :: OwnedRightly(m, phys, o, p)
  }

  ghost predicate OwnedRightly(m: seq<Db.Entry>, phys: nat, o: Frames, p: nat) {
    if Db.Usable(m, p) && !Holds(m, phys, p) then p < |o| && HasState(o[p], Free)
    else p < |o| ==> o[p] == Reserved
  }

  // Frame p holds part of the database.
  predicate Holds(m: seq<Db.Entry>, phys: nat, p: nat) {
    Db.InStorage(phys, Db.StorageSize(Db.MaxPfn(m)), p)
  }

  // The memory map that is left when entry i has been cut.
  function CutMap(m: seq<Db.Entry>, i: nat): seq<Db.Entry>
    requires Db.Bootable(m, i)
  {
    m[i := Db.Carve(m[i], Db.StorageSize(Db.MaxPfn(m)))]
  }

  // The start of kmain. A null result stands for the halt after a failed pmm_init.
  method StartMemory(memmap: array?<Db.Entry>, hhdmPresent: bool, hhdm: nat) returns (a: Pmm?, d: Db.PfnDb)
    requires memmap != null ==> Db.Sane(memmap[..])
    modifies memmap
    ensures a != null <==> memmap != null && hhdmPresent && exists i: nat :: Db.Bootable(old(memmap[..]), i)
    ensures fresh(d)
    ensures a != null ==>
              && fresh(a) && fresh(a.pages) && fresh(a.freeLists)
              && a.Valid() && a.ready && Fresh(a.frames) && a.pages.Length == |a.frames| && a.hhdm == hhdm
              && d.maxPfn == Db.MaxPfn(old(memmap[..]))
              && (exists i: nat :: StorageAt(old(memmap[..]), i, d.phys))
              && OwnsExactly(old(memmap[..]), d.phys, a.frames)
    ensures a != null ==> forall i: nat :: Db.Bootable(old(memmap[..]), i) ==> memmap[..] == CutMap(old(memmap[..]), i)
  {
    d := new Db.PfnDb();
    ghost var m := if memmap == null then [] else memmap[..];
    d.Init(memmap, hhdmPresent);
    if d.db == null {
      return null, d;
    }
    a := new Pmm(d.db, hhdm);
    a.Init();
    ghost var i: nat :| Db.Bootable(m, i) && d.phys == m[i].base
                        && memmap[..] == m[i := Db.Carve(m[i], Db.StorageSize(d.maxPfn))];
    assert StorageAt(m, i, d.phys);
    Db.MaxPfnBound(m);
    Db.StorageSizeOk(d.maxPfn);
    forall p: nat
      ensures OwnedRightly(m, d.phys, a.frames, p)
    {
      Db.CarvedUsable(m, i, Db.StorageSize(d.maxPfn), p);
      if Db.Usable(m, p) {
        Db.UsableBelowMax(m, p);
      }
    }
  }

  // The frames that hold the database are frames of the database, all reserved, and room
  // enough for every record.
  lemma {:induction false} StorageReserved(m: seq<Db.Entry>, i: nat, phys: nat, o: Frames, p: nat)
    requires Db.Sane(m) && StorageAt(m, i, phys) && OwnsExactly(m, phys, o) && Holds(m, phys, p)
    ensures p < |o| && o[p] == Reserved
  {
    Db.MaxPfnBound(m);
    Db.StorageSizeOk(Db.MaxPfn(m));
    Db.CarvedUsable(m, i, Db.StorageSize(Db.MaxPfn(m)), p);
    Db.UsableBelowMax(m, p);
    assert OwnedRightly(m, phys, o, p);
  }

  // A byte that the firmware called usable.
  ghost predicate ByteUsable(m: seq<Db.Entry>, a: nat) {
    exists j: nat :: j < |m| && m[j].usable && m[j].base <= a < m[j].base + m[j].length
  }

  // After start-up a frame is free exactly when it is usable memory and holds no byte of the
  // database, which has 24 bytes for every frame; else it is reserved.
  lemma {:induction false} FreeAtStart(m: seq<Db.Entry>, i: nat, phys: nat, o: Frames, p: nat)
    requires Db.Sane(m) && StorageAt(m, i, phys) && OwnsExactly(m, phys, o)
    ensures p < |o| && HasState(o[p], Free) <==> ByteUsable(m, p * 4096) && !(phys <= p * 4096 < phys + |o| * 24)
    ensures p < |o| && !HasState(o[p], Free) ==> o[p] == Reserved
  {
    assert OwnedRightly(m, phys, o, p);
    Db.MaxPfnBound(m);
    Db.StorageFrames(phys, Db.MaxPfn(m), p);
    UsableBytes(m, p);
  }

  lemma {:induction false} UsableBytes(m: seq<Db.Entry>, p: nat)
    requires Db.Sane(m)
    ensures Db.Usable(m, p) <==> ByteUsable(m, p * 4096)
  {
    forall j: nat | j < |m| && m[j].usable
      ensures Db.Covers(m[j], p) <==> m[j].base <= p * 4096 < m[j].base + m[j].length
    {
      Db.CoversAligned(m[j], p);
    }
  }

  // The database has a record for every frame up to the end of usable memory, and no more.
  lemma {:induction false} FramesAtStart(m: seq<Db.Entry>, phys: nat, o: Frames)
    requires Db.Sane(m) && OwnsExactly(m, phys, o)
    ensures forall j :: 0 <= j < |m| && m[j].usable ==> m[j].base + m[j].length <= |o| * 4096
    ensures |o| == 1 || exists j :: 0 <= j < |m| && m[j].usable && m[j].base + m[j].length == |o| * 4096
  {
    Db.MaxPfnIsLargest(m);
    forall j | 0 <= j < |m| && m[j].usable
      ensures m[j].base + m[j].length == Db.EndPfn(m[j]) * 4096
    {
      EndIsFrame(m[j]);
    }
  }

  lemma {:induction false} EndIsFrame(e: Db.Entry)
    requires e.base % PAGE_SIZE == 0 && e.length % PAGE_SIZE == 0 && Db.Fits(e)
    ensures e.base + e.length == Db.EndPfn(e) * 4096
  {
    Db.EndPfnIsNext(e);
  }

  // Over every run of allocations and frees from start-up, no outstanding block touches
  // the database or a frame the firmware did not call usable.
  lemma {:induction false} DatabaseIsNeverHandedOut(m: seq<Db.Entry>, phys: nat, h: seq<Frames>, calls: seq<Call>, p: nat, f: nat)
    requires IsRun(h, calls) && OwnsExactly(m, phys, h[0])
    requires p in Ledger(calls) && InRun(f, p, Ledger(calls)[p])
    ensures Db.Usable(m, f) && !Holds(m, phys, f)
  {
    OutstandingBlocksAreSafe(h, calls, p);
    assert OwnedRightly(m, phys, h[0], f);
  }

  // After start-up any aligned run of frames called usable, outside the database, is there
  // to be handed out.
  lemma {:induction false} FirstRequest(m: seq<Db.Entry>, phys: nat, o: Frames, p: nat, k: nat)
    requires OwnsExactly(m, phys, o)
    requires Bits.Aligned(p, k) && forall f: nat :: InRun(f, p, k) ==> Db.Usable(m, f) && !Holds(m, phys, f)
    ensures FreeRun(o, p, k)
  {
    forall f: nat | InRun(f, p, k)
      ensures f < |o| && HasState(o[f], Free)
    {
      assert OwnedRightly(m, phys, o, f);
    }
    assert InRun(p + Bits.Pow2(k) - 1, p, k);
  }

  // Start-up and any requests after it: what callers then hold are blocks of usable frames
  // outside the database, which share no frame.
  method StartAndServe(memmap: array?<Db.Entry>, hhdmPresent: bool, hhdm: nat, requests: seq<Request>)
    returns (started: bool, held: map<nat, nat>)
    requires memmap != null ==> Db.Sane(memmap[..])
    requires memmap != null ==> 0 < hhdm && hhdm + (Db.MaxPfn(memmap[..]) + 1) * PAGE_SIZE <= WORD
    modifies memmap
    ensures started <==> memmap != null && hhdmPresent && exists i: nat :: Db.Bootable(old(memmap[..]), i)
    ensures started ==> forall i: nat :: Db.Bootable(old(memmap[..]), i) ==>
              HeldOutside(old(memmap[..]), old(memmap[..])[i].base, held)
    ensures HeldApart(held)
  {
    held := map[];
    var a, d := StartMemory(memmap, hhdmPresent, hhdm);
    if a == null {
      return false, held;
    }
    started := true;
    ghost var h, calls;
    held, h, calls := Serve(a, requests);
    HeldIsSafe(old(memmap[..]), d.phys, h, calls);
  }

  // The blocks held are of usable frames outside the database at phys.
  ghost predicate HeldOutside(m: seq<Db.Entry>, phys: nat, held: map<nat, nat>) {
    forall p: nat, f: nat :: p in held && InRun(f, p, held[p]) ==> Db.Usable(m, f) && !Holds(m, phys, f)
  }

  ghost predicate HeldApart(held: map<nat, nat>) {
    forall p: nat, q: nat :: p in held && q in held && p != q ==> Run(p, held[p]) !! Run(q, held[q])
  }

  lemma {:induction false} HeldIsSafe(m: seq<Db.Entry>, phys: nat, h: seq<Frames>, calls: seq<Call>)
    requires IsRun(h, calls) && OwnsExactly(m, phys, h[0])
    ensures HeldOutside(m, phys, Ledger(calls)) && HeldApart(Ledger(calls))
  {
    var held := Ledger(calls);
    forall p: nat, f: nat | p in held && InRun(f, p, held[p])
      ensures Db.Usable(m, f) && !Holds(m, phys, f)
    {
      DatabaseIsNeverHandedOut(m, phys, h, calls, p, f);
    }
    forall p: nat, q: nat | p in held && q in held && p != q
      ensures Run(p, held[p]) !! Run(q, held[q])
    {
      OutstandingBlocksAreSafe(h, calls, p);
    }
  }

  // ---- The page tables on top ----

  // No other entry shares an address with a usable one.
  ghost predicate Exclusive(m: seq<Db.Entry>) {
    forall i, j :: 0 <= i < |m| && 0 <= j < |m| && i != j && m[i].usable ==>
                     m[i].base + m[i].length <= m[j].base || m[j].base + m[j].length <= m[i].base
  }

  // What the bootloader leaves: its tables stand outside usable memory, all of which can
  // hold tables.
  ghost predicate TablesApart(m: seq<Db.Entry>, where: PageTree.Places, memory: Sv.Memory) {
    && Db.MaxPfn(m) < Map.PHYS_LIMIT / PAGE_SIZE
    && (forall t :: t in where ==> !Db.Usable(m, t))
    && forall p: nat :: Db.Usable(m, p) ==> p in memory
  }

  lemma {:induction false} SeparateAtStart(m: seq<Db.Entry>, phys: nat, o: Frames, where: PageTree.Places, memory: Sv.Memory)
    requires OwnsExactly(m, phys, o) && TablesApart(m, where, memory)
    ensures Map.Separate(o, where, memory)
  {
    forall t | t in where && t < |o|
      ensures o[t] == Reserved
    {
      assert OwnedRightly(m, phys, o, t);
    }
    forall p: nat | p < |o| && o[p] != Reserved
      ensures p in memory
    {
      assert OwnedRightly(m, phys, o, p);
    }
  }

  // An address at which the direct map shows the database.
  predicate ShowsDatabase(m: seq<Db.Entry>, i: nat, hhdm: nat, b: nat)
    requires Db.Bootable(m, i)
  {
    hhdm + m[i].base <= b < hhdm + m[i].base + Db.StorageSize(Db.MaxPfn(m))
  }

  // The cut map reaches no further than the map itself.
  lemma {:induction false} CutInside(m: seq<Db.Entry>, i: nat, hhdm: nat, j: nat, b: nat)
    requires Db.Bootable(m, i) && j < |m|
    ensures Map.PageEnd(CutMap(m, i)[j]) == Map.PageEnd(m[j])
    ensures Map.InExtent(CutMap(m, i)[j], hhdm, b) ==> Map.InExtent(m[j], hhdm, b)
  {
  }

  lemma {:induction false} CutFits(m: seq<Db.Entry>, i: nat, hhdm: nat, levels: nat, segs: seq<Map.Segment>)
    requires Db.Bootable(m, i) && levels <= 5 && Map.HhdmFits(m, hhdm, levels) && Map.Apart(m, hhdm, segs)
    ensures Map.HhdmFits(CutMap(m, i), hhdm, levels) && Map.Apart(CutMap(m, i), hhdm, segs)
  {
    forall j: nat | j < |m|
      ensures Map.ExtentOk(CutMap(m, i)[j], hhdm, levels)
    {
      assert Map.ExtentOk(m[j], hhdm, levels);
      forall b: nat
        ensures Map.PageEnd(CutMap(m, i)[j]) == Map.PageEnd(m[j])
        ensures Map.InExtent(CutMap(m, i)[j], hhdm, b) ==> Map.InExtent(m[j], hhdm, b)
      {
        CutInside(m, i, hhdm, j, b);
      }
      CutInside(m, i, hhdm, j, 0);
    }
    forall j: nat, k: nat, b: nat | j < |m| && k < |segs| && Map.InExtent(CutMap(m, i)[j], hhdm, b)
      ensures !Map.InSegment(segs[k], b)
    {
      CutInside(m, i, hhdm, j, b);
    }
  }

  // The database is not in the cut map, nor in the kernel image.
  lemma {:induction false} DatabaseOff(m: seq<Db.Entry>, i: nat, hhdm: nat, segs: seq<Map.Segment>, b: nat)
    requires Db.Sane(m) && Exclusive(m) && Db.Bootable(m, i) && ShowsDatabase(m, i, hhdm, b) && Map.Apart(m, hhdm, segs)
    ensures Map.OffHhdm(CutMap(m, i), hhdm, |m|, b) && Map.OffSegments(segs, 0, |segs|, b)
  {
    Db.MaxPfnBound(m);
    Db.StorageSizeOk(Db.MaxPfn(m));
    forall j: nat | j < |m|
      ensures !Map.InExtent(CutMap(m, i)[j], hhdm, b)
    {
      if j != i {
        ApartRounded(m[i], m[j], b, hhdm);
      } else {
        CutStart(m[i], Db.StorageSize(Db.MaxPfn(m)));
      }
    }
    assert Map.InExtent(m[i], hhdm, b);
  }

  lemma {:induction false} CutStart(e: Db.Entry, size: nat)
    requires e.base % PAGE_SIZE == 0 && size % PAGE_SIZE == 0 && e.length >= size
    ensures Map.PageStart(Db.Carve(e, size)) == e.base + size
  {
  }

  // Rounding an entry out to pages does not reach into a page-aligned one.
  lemma {:induction false} ApartRounded(e: Db.Entry, d: Db.Entry, b: nat, hhdm: nat)
    requires e.base % PAGE_SIZE == 0 && e.length % PAGE_SIZE == 0
    requires e.base + e.length <= d.base || d.base + d.length <= e.base
    requires hhdm + e.base <= b < hhdm + e.base + e.length
    ensures !Map.InExtent(d, hhdm, b)
  {
    if d.base + d.length <= e.base {
      assert RoundUp(d.base + d.length) <= e.base;
    } else {
      assert e.base + e.length <= Map.PageStart(d);
    }
  }

  // kmain up to the page tables: paging_init is given the memory map that pfndb_init has cut,
  // so it maps all of it but the database, whose own pages translate as the bootloader left them.
  method StartPaging(memmap: array<Db.Entry>, hhdm: nat, memory: Sv.Memory, root: nat, levels: nat,
                     ghost where: PageTree.Places, segs: seq<Map.Segment>, x: Map.LoadAddress)
    returns (ok: bool, t: Map.Paging?)
    requires Db.Sane(memmap[..]) && Exclusive(memmap[..]) && TablesApart(memmap[..], where, memory)
    requires root % PAGE_SIZE == 0 && root < Map.PHYS_LIMIT && PageTree.Tree(memory, where, root / PAGE_SIZE, levels)
    requires Map.HhdmFits(memmap[..], hhdm, levels) && Map.Apart(memmap[..], hhdm, segs)
    requires forall k :: 0 <= k < |segs| ==> Map.SegmentOk(segs[k], x, levels)
    modifies memmap
    ensures t != null <==> exists i: nat :: Db.Bootable(old(memmap[..]), i)
    ensures t != null ==> fresh(t) && t.Valid() && t.levels == levels && t.rootPhys == root
    ensures t == null ==> !ok
    ensures ok ==> x.Loaded? && Map.HhdmMapped(t.mem, root / PAGE_SIZE, levels, memmap[..], hhdm, memmap.Length)
                   && Map.SegmentsMapped(t.mem, root / PAGE_SIZE, levels, segs, x, |segs|)
    ensures ok ==> KernelMap.DirectMapShown(t.mem, root / PAGE_SIZE, levels, memmap[..], hhdm)
                   && KernelMap.ImageShown(t.mem, root / PAGE_SIZE, levels, segs, x.phys, x.virt)
    ensures t != null ==> forall i: nat, b: nat :: Db.Bootable(old(memmap[..]), i) && ShowsDatabase(old(memmap[..]), i, hhdm, b) ==>
              Sv.Translate(t.mem, root / PAGE_SIZE, levels, b) == Sv.Translate(memory, root / PAGE_SIZE, levels, b)
  {
    ghost var m := memmap[..];
    var a, d := StartMemory(memmap, true, hhdm);
    if a == null {
      return false, null;
    }
    SeparateAtStart(m, d.phys, a.frames, where, memory);
    ghost var i: nat :| Db.Bootable(m, i);
    CutFits(m, i, hhdm, levels, segs);
    ok, t := MapOn(a, memmap[..], hhdm, memory, root, levels, where, segs, x);
    DatabaseKept(m, i, hhdm, segs, memory, t.mem, root / PAGE_SIZE, levels);
    if ok {
      KernelMap.DirectMapCovers(t.mem, root / PAGE_SIZE, levels, memmap[..], hhdm);
      KernelMap.ImageCovers(t.mem, root / PAGE_SIZE, levels, segs, x);
    }
  }

  // The page tables over a started allocator.
  method MapOn(a: Pmm, memmap: seq<Db.Entry>, hhdm: nat, memory: Sv.Memory, root: nat, levels: nat,
               ghost where: PageTree.Places, segs: seq<Map.Segment>, x: Map.LoadAddress)
    returns (ok: bool, t: Map.Paging)
    requires a.Valid() && a.ready && Map.Separate(a.frames, where, memory)
    requires root % PAGE_SIZE == 0 && root < Map.PHYS_LIMIT && PageTree.Tree(memory, where, root / PAGE_SIZE, levels)
    requires Map.HhdmFits(memmap, hhdm, levels) && Map.Apart(memmap, hhdm, segs)
    requires forall k :: 0 <= k < |segs| ==> Map.SegmentOk(segs[k], x, levels)
    modifies a`freePages, a.pages, a.freeLists, a`lists, a`frames
    ensures fresh(t) && t.Valid() && t.levels == levels && t.rootPhys == root
    ensures ok ==> x.Loaded? && Map.HhdmMapped(t.mem, root / PAGE_SIZE, levels, memmap, hhdm, |memmap|)
                   && Map.SegmentsMapped(t.mem, root / PAGE_SIZE, levels, segs, x, |segs|)
    ensures Map.SameElsewhere(memory, t.mem, root / PAGE_SIZE, levels, memmap, hhdm, segs)
  {
    t := new Map.Paging(a, memory, root, levels, where);
    ok := t.Init(memmap, hhdm, segs, x);
  }

  lemma {:induction false} DatabaseKept(m: seq<Db.Entry>, i: nat, hhdm: nat, segs: seq<Map.Segment>,
                                        mem: Sv.Memory, mem': Sv.Memory, root: nat, levels: nat)
    requires 3 <= levels <= 5 && Db.Sane(m) && Exclusive(m) && Db.Bootable(m, i) && Map.Apart(m, hhdm, segs)
    requires Map.SameElsewhere(mem, mem', root, levels, CutMap(m, i), hhdm, segs)
    ensures forall j: nat, b: nat :: Db.Bootable(m, j) && ShowsDatabase(m, j, hhdm, b) ==>
              Sv.Translate(mem', root, levels, b) == Sv.Translate(mem, root, levels, b)
  {
    forall j: nat, b: nat | Db.Bootable(m, j) && ShowsDatabase(m, j, hhdm, b)
      ensures Sv.Translate(mem', root, levels, b) == Sv.Translate(mem, root, levels, b)
    {
      assert j == i;
      DatabaseOff(m, i, hhdm, segs, b);
    }
  }
}
