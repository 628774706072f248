/** Whole runs of the allocator: any sequence of allocations and frees of live blocks. */
module Histories {
  import opened Machine
  import opened Bits
  import opened Ownership
  import opened PageAllocator

  // One successful call; the page is the head of the block handed out or given back.
  datatype Call = Allocated(page: nat, order: nat) | Freed(page: nat, order: nat)

  ghost predicate Step(o: Frames, c: Call, r: Frames) {
    && Settled(o) && Settled(r)
    && match c
       case Allocated(p, k) => AllocStep(o, r, p, k)
       case Freed(p, k) => FreeStep(o, r, p, k)
  }

  // A run starts from the state pmm_init leaves: nothing allocated.
  ghost predicate Fresh(o: Frames) {
    Settled(o) && forall i :: 0 <= i < |o| ==> !HasState(o[i], Live)
  }

  ghost predicate IsRun(h: seq<Frames>, calls: seq<Call>) {
    && |h| == |calls| + 1
    && Fresh(h[0])
    && forall i :: 0 <= i < |calls| ==> Step(h[i], calls[i], h[i + 1])
  }

  // The blocks handed out and not yet given back, read off the calls alone.
  function Ledger(calls: seq<Call>): map<nat, nat> {
    if calls == [] then map[]
    else
      var l := Ledger(calls[..|calls| - 1]);
      match calls[|calls| - 1]
      case Allocated(p, k) => l[p := k]
      case Freed(p, k) => l - {p}
  }

  ghost predicate SameReserved(o: Frames, r: Frames) {
    |r| == |o| && forall i :: 0 <= i < |o| ==> (r[i] == Reserved <==> o[i] == Reserved)
  }

  lemma {:induction false} AllocLive(o: Frames, r: Frames, p: nat, k: nat, q: nat, j: nat)
    requires Settled(o) && Settled(r) && AllocStep(o, r, p, k)
    ensures IsBlock(r, q, j, Live) <==> if q == p then j == k else IsBlock(o, q, j, Live)
  {
    if q < |o| && q != p {
      assert q in FreeFrames(r) <==> q in FreeFrames(o) && q !in Run(p, k);
      assert InRun(q, p, k) ==> r[q] == Block(p, k, Live);
    }
  }

  lemma {:induction false} FreeLive(o: Frames, r: Frames, p: nat, k: nat, q: nat, j: nat)
    requires Settled(o) && Settled(r) && FreeStep(o, r, p, k)
    ensures IsBlock(r, q, j, Live) <==> q != p && IsBlock(o, q, j, Live)
    ensures SameReserved(o, r)
  {
    assert InRun(p, p, k);
    forall i: nat | i < |o|
      ensures r[i] == Reserved <==> o[i] == Reserved
    {
      assert i in FreeFrames(r) <==> i in FreeFrames(o) || i in Run(p, k);
      assert InRun(i, p, k) ==> o[i] == Block(p, k, Live);
    }
    if q < |o| {
      assert q in FreeFrames(r) <==> q in FreeFrames(o) || q in Run(p, k);
      assert InRun(q, p, k) ==> o[q] == Block(p, k, Live);
    }
  }

  // After any run the live blocks are exactly the ledger, and the reserved frames are the
  // ones the run started with.
  lemma {:induction false} LedgerIsLive(h: seq<Frames>, calls: seq<Call>)
    requires IsRun(h, calls)
    ensures var o := h[|calls|]; var l := Ledger(calls);
            && Settled(o) && SameReserved(h[0], o)
            && forall q: nat, j: nat :: IsBlock(o, q, j, Live) <==> q in l && l[q] == j
  {
    if calls != [] {
      var n := |calls| - 1;
      assert IsRun(h[..n + 1], calls[..n]);
      LedgerIsLive(h[..n + 1], calls[..n]);
      var o, r, l := h[n], h[n + 1], Ledger(calls);
      assert Step(o, calls[n], r);
      forall q: nat, j: nat
        ensures IsBlock(r, q, j, Live) <==> q in l && l[q] == j
      {
        match calls[n]
        case Allocated(p, k) => AllocLive(o, r, p, k, q, j);
        case Freed(p, k) => FreeLive(o, r, p, k, q, j);
      }
      match calls[n]
      case Allocated(p, k) =>
      case Freed(p, k) => FreeLive(o, r, p, k, p, k);
    }
  }

  // Safety over whole runs: outstanding blocks are aligned, inside the database, free of
  // reserved pages, and share no frame with each other or with a free block.
  lemma {:induction false} OutstandingBlocksAreSafe(h: seq<Frames>, calls: seq<Call>, p: nat)
    requires IsRun(h, calls) && p in Ledger(calls)
    ensures var l := Ledger(calls); var k := l[p]; var o := h[|calls|];
            && k < MAX_ORDER && Aligned(p, k) && p + Pow2(k) <= |h[0]|
            && (forall i :: InRun(i, p, k) ==> h[0][i] != Reserved)
            && Run(p, k) !! FreeFrames(o)
            && forall q: nat :: q in l && q != p ==> Run(p, k) !! Run(q, l[q])
  {
    LedgerIsLive(h, calls);
    var l := Ledger(calls);
    var k := l[p];
    var o := h[|calls|];
    assert IsBlock(o, p, k, Live);
    assert Whole(o, Block(p, k, Live));
    forall q: nat | q in l && q != p
      ensures Run(p, k) !! Run(q, l[q])
    {
      assert IsBlock(o, q, l[q], Live);
      assert Whole(o, Block(q, l[q], Live));
    }
  }

  // The state depends only on what is outstanding, not on the order of calls: any two runs
  // from the same start with the same ledger end with the same blocks everywhere.
  lemma {:induction false} HistoryIndependence(h1: seq<Frames>, calls1: seq<Call>, h2: seq<Frames>, calls2: seq<Call>)
    requires IsRun(h1, calls1) && IsRun(h2, calls2) && h1[0] == h2[0]
    requires Ledger(calls1) == Ledger(calls2)
    ensures h1[|calls1|] == h2[|calls2|]
  {
    LedgerIsLive(h1, calls1);
    LedgerIsLive(h2, calls2);
    var o1, o2 := h1[|calls1|], h2[|calls2|];
    forall i | 0 <= i < |o1|
      ensures o1[i] == o2[i] || (HasState(o1[i], Free) && HasState(o2[i], Free))
    {
      if HasState(o1[i], Live) {
        SameLive(o1, o2, i);
      }
      if HasState(o2[i], Live) {
        SameLive(o2, o1, i);
      }
    }
    CanonicalFrames(o1, o2);
  }

  lemma {:induction false} SameLive(o1: Frames, o2: Frames, i: nat)
    requires Settled(o1) && Settled(o2) && |o1| == |o2| && i < |o1| && HasState(o1[i], Live)
    requires forall q: nat, j: nat :: IsBlock(o1, q, j, Live) <==> IsBlock(o2, q, j, Live)
    ensures o2[i] == o1[i]
  {
    var b := o1[i];
    assert InRun(b.head, b.head, b.order);
    assert IsBlock(o1, b.head, b.order, Live);
    assert IsBlock(o2, b.head, b.order, Live);
    assert Whole(o2, b);
  }

  // Allocating a block and freeing it restores every block: splitting and coalescing are inverse.
  lemma {:induction false} AllocFreeRoundTrip(o: Frames, o1: Frames, o2: Frames, p: nat, k: nat)
    requires Step(o, Allocated(p, k), o1) && Step(o1, Freed(p, k), o2)
    ensures o2 == o
  {
    forall i: nat | i < |o|
      ensures o[i] == o2[i] || (HasState(o[i], Free) && HasState(o2[i], Free))
    {
      assert i in FreeFrames(o1) <==> i in FreeFrames(o) && i !in Run(p, k);
      assert i in FreeFrames(o2) <==> i in FreeFrames(o1) || i in Run(p, k);
    }
    CanonicalFrames(o, o2);
  }

  // ---- Runs of the allocator itself ----

  // What a caller may ask: a block of some order, or to take back a page it has been given.
  datatype Request = Want(order: nat) | Return(page: nat)

  lemma {:induction false} RunMore(h: seq<Frames>, calls: seq<Call>, c: Call, r: Frames)
    requires IsRun(h, calls) && Step(h[|calls|], c, r)
    ensures IsRun(h + [r], calls + [c])
    ensures Ledger(calls + [c]) == match c case Allocated(p, k) => Ledger(calls)[p := k] case Freed(p, k) => Ledger(calls) - {p}
  {
    assert (calls + [c])[..|calls|] == calls;
  }

  // Serves requests in turn, from any state without live blocks. Whatever they are, the
  // allocator goes through a run, and held is its ledger.
  method Serve(a: Pmm, requests: seq<Request>) returns (held: map<nat, nat>, ghost h: seq<Frames>, ghost calls: seq<Call>)
    requires a.Valid() && a.ready && Fresh(a.frames)
    requires 0 < a.hhdm && a.hhdm + a.pages.Length * PAGE_SIZE <= WORD
    modifies a`freePages, a.pages, a.freeLists, a`lists, a`frames
    ensures a.Valid() && IsRun(h, calls) && held == Ledger(calls)
    ensures h[0] == old(a.frames) && h[|calls|] == a.frames
  {
    held, h, calls := map[], [a.frames], [];
    for i := 0 to |requests|
      invariant a.Valid() && IsRun(h, calls) && held == Ledger(calls)
      invariant h[0] == old(a.frames) && h[|calls|] == a.frames
    {
      ghost var c, done;
      held, c, done := ServeOne(a, requests[i], held, h, calls);
      if done {
        RunMore(h, calls, c, a.frames);
        h, calls := h + [a.frames], calls + [c];
      }
    }
  }

  method ServeOne(a: Pmm, request: Request, held0: map<nat, nat>, ghost h: seq<Frames>, ghost calls: seq<Call>)
    returns (held: map<nat, nat>, ghost c: Call, ghost done: bool)
    requires a.Valid() && a.ready && 0 < a.hhdm && a.hhdm + a.pages.Length * PAGE_SIZE <= WORD
    requires IsRun(h, calls) && h[|calls|] == a.frames && held0 == Ledger(calls)
    modifies a`freePages, a.pages, a.freeLists, a`lists, a`frames
    ensures a.Valid()
    ensures done <==> match request
                      case Want(order) => order < MAX_ORDER && exists p: nat :: FreeRun(old(a.frames), p, order)
                      case Return(page) => page in held0
    ensures !done ==> held == held0 && a.frames == old(a.frames)
    ensures done ==> Step(old(a.frames), c, a.frames)
                     && held == match c case Allocated(p, k) => held0[p := k] case Freed(p, k) => held0 - {p}
  {
    held, c, done := held0, Allocated(0, 0), false;
    match request
    case Want(order) =>
      var ptr := a.PmmAlloc(order);
      if ptr != 0 {
        held, c, done := held0[a.PfnOf(ptr) := order], Allocated(a.PfnOf(ptr), order), true;
      }
    case Return(page) =>
      if page in held0 {
        HeldIsLive(a, h, calls, page);
        a.PmmFree(a.PtrOf(page));
        held, c, done := held0 - {page}, Freed(page, held0[page]), true;
      }
  }

  // A page of the ledger heads a live block, and its pointer is accepted.
  lemma {:induction false} HeldIsLive(a: Pmm, h: seq<Frames>, calls: seq<Call>, page: nat)
    requires a.Valid() && a.ready && 0 < a.hhdm && a.hhdm + a.pages.Length * PAGE_SIZE <= WORD
    requires IsRun(h, calls) && h[|calls|] == a.frames && page in Ledger(calls)
    ensures IsBlock(a.frames, page, Ledger(calls)[page], Live)
    ensures a.PtrOf(page) < WORD && a.PfnOf(a.PtrOf(page)) == page && a.Accepts(a.PtrOf(page))
  {
    LedgerIsLive(h, calls);
    assert IsBlock(a.frames, page, Ledger(calls)[page], Live);
    PointerRoundTrip(a.hhdm, page);
    LiveIsAccepted(a, page, Ledger(calls)[page]);
  }
}
