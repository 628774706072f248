/** The buddy page allocator of kernel/src/mm/pmm.c. */
module PageAllocator {
  import opened Machine
  import opened Bits
  import opened Ownership
  import opened FreeLists
  import opened BuddyState

  // What a successful allocation of 2^k frames at p does to the owners.
  ghost predicate AllocStep(o: Frames, r: Frames, p: nat, k: nat) {
    && |r| == |o|
    && k < MAX_ORDER
    && FreeRun(o, p, k)
    && IsBlock(r, p, k, Live)
    && FreeFrames(r) == FreeFrames(o) - Run(p, k)
    && KeepsOthers(o, r)
  }

  // What freeing the live block of 2^k frames at p does to the owners.
  ghost predicate FreeStep(o: Frames, r: Frames, p: nat, k: nat) {
    && |r| == |o|
    && IsBlock(o, p, k, Live)
    && FreeFrames(r) == FreeFrames(o) + Run(p, k)
    && forall i: nat :: i < |o| && i !in Run(p, k) && !HasState(o[i], Free) ==> r[i] == o[i]
  }

  ghost predicate Settled(o: Frames) {
    Partition(o) && Coalesced(o) && NoneHeld(o)
  }

  class Pmm {
    const pages: array<Page>          // the database, g_max_pfn + 1 descriptors
    const freeLists: array<FreeList>  // g_free_lists
    const hhdm: nat                   // offset of the direct map
    var freePages: nat
    var totalPages: nat
    var ready: bool

    ghost var lists: seq<seq<nat>>
    ghost var frames: Frames

    ghost predicate Inv()
      reads this, pages, freeLists
    {
      && 1 <= pages.Length && freeLists.Length == MAX_ORDER
      && Good(pages[..], freeLists[..], lists, frames)
    }

    ghost predicate Valid()
      reads this, pages, freeLists
    {
      && 1 <= pages.Length && freeLists.Length == MAX_ORDER
      && (ready ==>
            && Inv() && Settled(frames)
            && freePages == |FreeFrames(frames)|
            && totalPages == |OwnedFrames(frames)|)
    }

    constructor (db: array<Page>, hhdmOffset: nat)
      requires 1 <= db.Length
      ensures Valid() && !ready && pages == db && hhdm == hhdmOffset && fresh(freeLists)
    {
      pages := db;
      freeLists := new FreeList[MAX_ORDER](_ => FreeList(Null, 0));
      hhdm := hhdmOffset;
      freePages, totalPages, ready := 0, 0, false;
      lists, frames := [], [];
    }

    method ListPush(order: nat, page: nat)
      requires freeLists.Length == MAX_ORDER == |lists|
      requires AllLinked(pages[..], freeLists[..], lists)
      requires order < MAX_ORDER && page < pages.Length && Unlisted(lists, page)
      modifies pages, freeLists, this`lists
      ensures lists == old(lists)[order := [page] + old(lists)[order]]
      ensures AllLinked(pages[..], freeLists[..], lists)
      ensures SameBut(old(pages[..]), pages[..], old(lists)[order], page)
    {
      PushAll(pages[..], freeLists[..], lists, order, page);
      var head := freeLists[order].head;
      pages[page] := pages[page].(next := head, prev := Null);
      if head != Null {
        pages[head.pfn] := pages[head.pfn].(prev := To(page));
      }
      freeLists[order] := FreeList(To(page), freeLists[order].count + 1);
      lists := lists[order := [page] + lists[order]];
      assert pages[..] == PushPages(old(pages[..]), head, page);
    }

    method ListRemove(order: nat, page: nat)
      requires freeLists.Length == MAX_ORDER == |lists|
      requires AllLinked(pages[..], freeLists[..], lists)
      requires order < MAX_ORDER && page in lists[order]
      modifies pages, freeLists, this`lists
      ensures lists == old(lists)[order := Without(old(lists)[order], IndexOf(old(lists)[order], page))]
      ensures AllLinked(pages[..], freeLists[..], lists)
      ensures SameBut(old(pages[..]), pages[..], old(lists)[order], page)
    {
      ghost var m := IndexOf(lists[order], page);
      RemoveAll(pages[..], freeLists[..], lists, order, m);
      var prev := pages[page].prev;
      if prev != Null {
        pages[prev.pfn] := pages[prev.pfn].(next := pages[page].next);
      } else {
        freeLists[order] := freeLists[order].(head := pages[page].next);
      }
      var next := pages[page].next;
      if next != Null {
        pages[next.pfn] := pages[next.pfn].(prev := pages[page].prev);
      }
      pages[page] := pages[page].(next := Null, prev := Null);
      freeLists[order] := freeLists[order].(count := freeLists[order].count - 1);
      lists := lists[order := Without(lists[order], m)];
      assert pages[..] == RemovePages(old(pages[..]), page);
    }

    // Lists a held block, first merging it with every free buddy it meets on the way up.
    method FreeBlock(page0: nat)
      requires Inv() && page0 < pages.Length
      requires OnlyHeld(frames, page0, pages[page0].order) && pages[page0].order < MAX_ORDER
      modifies pages, freeLists, this`lists, this`frames
      ensures Inv() && Settled(frames)
      ensures FreeFrames(frames) == old(FreeFrames(frames) + Run(page0, pages[page0].order))
      ensures KeepsOthers(old(frames), frames)
      // Only the head of the coalesced block is marked.
      ensures pages[page0].flags == if frames[page0].head == page0 then PAGE_FREE else old(pages[page0].flags)
    {
      var page: nat, pfn: nat, order: nat := page0, page0, pages[page0].order;
      ghost var target := FreeFrames(frames) + Run(pfn, order);
      while order + 1 < MAX_ORDER
        invariant Inv() && page == pfn < pages.Length && order < MAX_ORDER
        invariant OnlyHeld(frames, pfn, order)
        invariant FreeFrames(frames) + Run(pfn, order) == target
        invariant KeepsOthers(old(frames), frames)
        invariant pages[page0].flags == old(pages[page0].flags) && InRun(page0, pfn, order)
      {
        var buddy := Buddy(pfn, order);
        if buddy > pages.Length - 1 {
          break;
        }
        if !pages[buddy].flags.free || pages[buddy].order != order {
          break;
        }
        StaleIsHarmless(pages[..], freeLists[..], lists, frames, pfn, order);
        Absorb(pfn, order, buddy);
        if buddy < pfn {
          pfn := buddy;
          page := buddy;
        }
        order := order + 1;
      }
      Relist(page, order);
    }

    // Takes the free buddy off its list and joins it to the held block; the lower of the two
    // heads the joined block and gets its order.
    method Absorb(pfn: nat, order: nat, buddy: nat)
      requires Inv() && pfn < pages.Length && order + 1 < MAX_ORDER && OnlyHeld(frames, pfn, order)
      requires buddy == Buddy(pfn, order) && IsBlock(frames, buddy, order, Free) && buddy in lists[order]
      modifies pages, freeLists, this`lists, this`frames
      ensures var page := if buddy < pfn then buddy else pfn;
              && Inv() && page < pages.Length && OnlyHeld(frames, page, order + 1)
              && FreeFrames(frames) + Run(page, order + 1) == old(FreeFrames(frames)) + Run(pfn, order)
              && KeepsOthers(old(frames), frames)
              && (forall i :: InRun(i, pfn, order) ==> InRun(i, page, order + 1))
      ensures forall i :: 0 <= i < pages.Length ==> pages[i].flags == old(pages[i].flags)
    {
      ghost var p0, f0, l0, o0 := pages[..], freeLists[..], lists, frames;
      ListRemove(order, buddy);
      StepAbsorb(p0, f0, l0, o0, pfn, order, pages[..], freeLists[..]);
      frames := Merge(Retag(frames, buddy, order, Held), pfn, order);
      var page := if buddy < pfn then buddy else pfn;
      pages[page] := pages[page].(order := order + 1);
    }

    // Marks a held block free and pushes it, once its buddy is known not to be free.
    method Relist(page: nat, order: nat)
      requires Inv() && page < pages.Length && order < MAX_ORDER && OnlyHeld(frames, page, order)
      requires order + 1 >= MAX_ORDER || Buddy(page, order) > pages.Length - 1
               || !pages[Buddy(page, order)].flags.free || pages[Buddy(page, order)].order != order
      modifies pages, freeLists, this`lists, this`frames
      ensures Inv() && Settled(frames)
      ensures FreeFrames(frames) == old(FreeFrames(frames)) + Run(page, order)
      ensures KeepsOthers(old(frames), frames)
      ensures forall i: nat :: InRun(i, page, order) ==> frames[i] == Block(page, order, Free)
      ensures forall i: nat :: InRun(i, page, order) ==>
                pages[i].flags == if i == page then PAGE_FREE else old(pages[i].flags)
    {
      ghost var p0, f0, l0, o0 := pages[..], freeLists[..], lists, frames;
      BeforeRelist(p0, f0, l0, o0, page, order);
      pages[page] := Page(PAGE_FREE, order, Null, Null);
      ListPush(order, page);
      StepList(p0, f0, l0, o0, page, order, pages[..], freeLists[..]);
      frames := Retag(frames, page, order, Free);
      RetagOk(o0, page, order, Held, Free);
    }

    // pmm_init: turns the usable pages of a fresh database into the initial free blocks.
    method Init()
      requires Valid() && !ready
      requires forall i :: 0 <= i < pages.Length ==> pages[i].flags == PAGE_FREE || pages[i].flags == PAGE_RESERVED
      modifies this, pages, freeLists
      ensures Valid() && ready
      ensures forall i :: 0 <= i < pages.Length ==>
                            (old(pages[i].flags.free) ==> HasState(frames[i], Free))
                            && (!old(pages[i].flags.free) ==> frames[i] == Reserved)
      ensures freePages == totalPages
    {
      ghost var db := pages[..];
      InitDescriptors();
      frames := InitialFrames(db);
      InitialGood(db, pages[..], freeLists[..], lists);
      InitFree(db);
      AllFreed(db, frames);
      ready := true;
    }

    // Second pass of pmm_init: frees each usable page once, in address order.
    method InitFree(ghost db: seq<Page>)
      requires Inv() && |db| == |frames| && freePages == 0 && !ready && frames == InitialFrames(db)
      requires NoneHeld(frames) && FreeFrames(frames) == {}
      modifies this`freePages, pages, freeLists, this`lists, this`frames
      ensures Inv() && Settled(frames)
      ensures FreeFrames(frames) == UsableBelow(db, |db|) && freePages == |FreeFrames(frames)|
      ensures KeepsInitial(db, frames, |db|)
    {
      for pfn := 0 to pages.Length
        invariant Inv() && NoneHeld(frames)
        invariant FreeFrames(frames) == UsableBelow(db, pfn)
        invariant freePages == |FreeFrames(frames)|
        invariant KeepsInitial(db, frames, pfn)
      {
        var page := pages[pfn];
        InitialFlags(db, pages[..], frames, pfn);
        if !page.flags.used || page.flags.reserved {
          continue;
        }
        freePages := freePages + 1;
        ghost var o := frames;
        StepHold(pages[..], freeLists[..], lists, frames, pfn, 0);
        frames := Retag(frames, pfn, 0, Held);
        FreeBlock(pfn);
        OneFreed(db, o, frames, pfn);
      }
    }

    // First pass of pmm_init: empty lists, and every usable page marked used.
    method InitDescriptors()
      requires 1 <= pages.Length && freeLists.Length == MAX_ORDER && !ready
      requires forall i :: 0 <= i < pages.Length ==> pages[i].flags == PAGE_FREE || pages[i].flags == PAGE_RESERVED
      modifies this, pages, freeLists
      ensures freePages == 0 && !ready && totalPages == |UsableBelow(old(pages[..]), pages.Length)|
      ensures freeLists[..] == seq(MAX_ORDER, _ => FreeList(Null, 0)) && lists == seq(MAX_ORDER, _ => [])
      ensures forall i :: 0 <= i < pages.Length ==> pages[i] == InitialPage(old(pages[i]))
    {
      ghost var db := pages[..];
      forall k | 0 <= k < freeLists.Length {
        freeLists[k] := FreeList(Null, 0);
      }
      freePages, totalPages, ready := 0, 0, false;
      lists := seq(MAX_ORDER, _ => []);
      for pfn := 0 to pages.Length
        invariant freePages == 0 && !ready
        invariant forall i :: 0 <= i < pages.Length ==>
                                pages[i] == if i < pfn then InitialPage(db[i]) else db[i]
        invariant totalPages == |UsableBelow(db, pfn)|
        invariant freeLists[..] == seq(MAX_ORDER, _ => FreeList(Null, 0)) && lists == seq(MAX_ORDER, _ => [])
      {
        UsableBelowNext(db, pfn);
        var usable := ResetDescriptor(pfn);
        if usable {
          totalPages := totalPages + 1;
        }
      }
    }

    // One descriptor of the first pass; tells whether the page is usable.
    method ResetDescriptor(pfn: nat) returns (usable: bool)
      requires pfn < pages.Length
      modifies pages
      ensures pages[..] == old(pages[..])[pfn := InitialPage(old(pages[pfn]))]
      ensures usable == old(pages[pfn].flags.free)
    {
      pages[pfn] := pages[pfn].(order := 0);
      pages[pfn] := pages[pfn].(next := Null, prev := Null);
      usable := pages[pfn].flags.free;
      if usable {
        pages[pfn] := pages[pfn].(flags := pages[pfn].flags.(used := true));
        pages[pfn] := pages[pfn].(flags := pages[pfn].flags.(free := false));
      }
    }

    // page_alloc: the head of the shortest suitable list, halved down to the order asked for.
    method PageAlloc(order: nat) returns (r: Link)
      requires Valid()
      modifies this`freePages, pages, freeLists, this`lists, this`frames
      ensures Valid()
      ensures r == Null ==> pages[..] == old(pages[..]) && freeLists[..] == old(freeLists[..])
                            && freePages == old(freePages) && frames == old(frames) && lists == old(lists)
      ensures r == Null <==> !ready || order >= MAX_ORDER || !exists p: nat :: FreeRun(old(frames), p, order)
      ensures r.To? ==> AllocStep(old(frames), frames, r.pfn, order) && freePages == old(freePages) - Pow2(order)
      ensures r.To? ==> SmallestFit(old(freeLists[..]), order, r)
    {
      if !ready {
        return Null;
      }
      if order >= MAX_ORDER {
        return Null;
      }
      var current := order;
      while current < MAX_ORDER
        invariant Valid() && order <= current <= MAX_ORDER
        invariant pages[..] == old(pages[..]) && freeLists[..] == old(freeLists[..])
        invariant freePages == old(freePages) && frames == old(frames) && lists == old(lists)
        invariant AllNull(freeLists[..], order, current)
      {
        if freeLists[current].head == Null {
          current := current + 1;
          continue;
        }
        ghost var o := frames;
        var page := TakeHead(current, order);
        AllocCount(o, frames, page, order);
        freePages := freePages - Pow2(order);
        return To(page);
      }
      NoneListed(pages[..], freeLists[..], lists, frames, order);
      return Null;
    }

    // Unlists the head of one list and carves the allocation from it.
    method TakeHead(current: nat, order: nat) returns (page: nat)
      requires Inv() && Settled(frames) && order <= current < MAX_ORDER && freeLists[current].head.To?
      modifies pages, freeLists, this`lists, this`frames
      ensures Inv() && Settled(frames)
      ensures AllocStep(old(frames), frames, page, order)
      ensures To(page) == old(freeLists[..])[current].head
    {
      page := freeLists[current].head.pfn;
      HeadListed(pages[..], freeLists[..], lists, frames, current);
      ghost var o := frames;
      Hold(current, page);
      ghost var o1 := frames;
      Carve(page, current, order);
      AllocDone(o, o1, frames, page, current, order);
    }

    // Takes a free block off its list.
    method Hold(order: nat, page: nat)
      requires Inv() && NoneHeld(frames) && order < MAX_ORDER && page in lists[order]
      modifies pages, freeLists, this`lists, this`frames
      ensures Inv() && OnlyHeld(frames, page, order)
      ensures FreeFrames(frames) == old(FreeFrames(frames)) - Run(page, order)
      ensures KeepsOthers(old(frames), frames)
    {
      ghost var p0, f0, l0, o0 := pages[..], freeLists[..], lists, frames;
      ListRemove(order, page);
      StepTake(p0, f0, l0, o0, page, order, pages[..], freeLists[..]);
      frames := Retag(frames, page, order, Held);
      Taken(o0, page, order);
    }

    // Halves a held block down to the order asked for, relists the upper halves and hands
    // out what remains.
    method Carve(page: nat, order0: nat, order: nat)
      requires Inv() && order <= order0 < MAX_ORDER && OnlyHeld(frames, page, order0)
      modifies pages, freeLists, this`lists, this`frames
      ensures Inv() && Settled(frames) && IsBlock(frames, page, order, Live)
      ensures FreeFrames(frames) == old(FreeFrames(frames)) + (Run(page, order0) - Run(page, order))
      ensures KeepsOthers(old(frames), frames)
    {
      var current := order0;
      while current > order
        invariant Inv() && order <= current < MAX_ORDER && OnlyHeld(frames, page, current)
        invariant FreeFrames(frames) == old(FreeFrames(frames)) + (Run(page, order0) - Run(page, current))
        invariant KeepsOthers(old(frames), frames)
      {
        current := current - 1;
        var buddy := page + Pow2(current);
        ghost var p0, f0, l0, o0 := pages[..], freeLists[..], lists, frames;
        BeforeSplit(p0, f0, l0, o0, page, current);
        pages[buddy] := Page(PAGE_FREE, current, Null, Null);
        ListPush(current, buddy);
        StepSplit(p0, f0, l0, o0, page, current, pages[..], freeLists[..]);
        frames := Split(frames, page, current);
        Nested(page, current, order0);
      }
      StepUse(pages[..], freeLists[..], lists, frames, page, order);
      UsedOk(frames, page, order);
      pages[page] := Page(PAGE_USED, order, Null, Null);
      frames := Retag(frames, page, order, Live);
    }

    // pmm_alloc: the page of page_alloc by its address in the direct map; 0 is NULL.
    method PmmAlloc(order: nat) returns (ptr: nat)
      requires Valid() && 0 < hhdm && hhdm + pages.Length * PAGE_SIZE <= WORD
      modifies this`freePages, pages, freeLists, this`lists, this`frames
      ensures Valid()
      ensures ptr == 0 ==> pages[..] == old(pages[..]) && freeLists[..] == old(freeLists[..])
                           && freePages == old(freePages) && frames == old(frames) && lists == old(lists)
      ensures ptr == 0 <==> !ready || order >= MAX_ORDER || !exists p: nat :: FreeRun(old(frames), p, order)
      ensures ptr != 0 ==> ptr < WORD && ptr == hhdm + PfnOf(ptr) * PAGE_SIZE
                           && AllocStep(old(frames), frames, PfnOf(ptr), order)
                           && freePages == old(freePages) - Pow2(order)
    {
      var page := PageAlloc(order);
      if page == Null {
        return 0;
      }
      ptr := PtrOf(page.pfn);
      PointerRoundTrip(hhdm, page.pfn);
    }

    // PHYS_TO_VIRT of a page's physical address.
    function PtrOf(pfn: nat): nat {
      ToPtr(hhdm, pfn)
    }

    // The page a pointer into the direct map falls in.
    function PfnOf(ptr: nat): nat
      requires hhdm < WORD && ptr < WORD
    {
      FromPtr(hhdm, ptr)
    }

    // pmm_free looks no further than the flags of that page.
    predicate Accepts(ptr: nat)
      requires hhdm < WORD && ptr < WORD
      reads this, pages
    {
      && ready && ptr != 0 && PfnOf(ptr) < pages.Length
      && !pages[PfnOf(ptr)].flags.reserved && !pages[PfnOf(ptr)].flags.free
    }

    method PmmFree(ptr: nat)
      requires Valid() && hhdm < WORD && ptr < WORD
      // Callers pass the head of a live block, unless the flags make the call a refusal.
      requires Accepts(ptr) ==> exists k: nat :: IsBlock(frames, PfnOf(ptr), k, Live)
      modifies this`freePages, pages, freeLists, this`lists, this`frames
      ensures Valid()
      ensures !old(Accepts(ptr)) ==>
                && pages[..] == old(pages[..]) && freeLists[..] == old(freeLists[..])
                && freePages == old(freePages) && frames == old(frames) && lists == old(lists)
      ensures old(Accepts(ptr)) ==> exists k: nat ::
                && FreeStep(old(frames), frames, PfnOf(ptr), k)
                && freePages == old(freePages) + Pow2(k)
      // The same pointer again is refused exactly when its page heads the coalesced block.
      ensures old(Accepts(ptr)) ==> (Accepts(ptr) <==> frames[PfnOf(ptr)].head != PfnOf(ptr))
    {
      if !ready {
        return;
      }
      if ptr == 0 {
        return;
      }
      var page := PfnOf(ptr);
      if page > pages.Length - 1 {
        return;
      }
      if pages[page].flags.reserved {
        return;
      }
      if pages[page].flags.free {
        return;
      }
      LiveHead(pages[..], frames, page);
      GiveBack(page);
    }

    // Counts the pages of a live block as free and puts the block back.
    method GiveBack(page: nat)
      requires Inv() && Settled(frames) && freePages == |FreeFrames(frames)|
      requires page < pages.Length && IsBlock(frames, page, pages[page].order, Live)
      modifies this`freePages, pages, freeLists, this`lists, this`frames
      ensures Inv() && Settled(frames) && freePages == |FreeFrames(frames)|
      ensures OwnedFrames(frames) == OwnedFrames(old(frames))
      ensures FreeStep(old(frames), frames, page, old(pages[page].order))
      ensures pages[page].flags == if frames[page].head == page then PAGE_FREE else old(pages[page].flags)
      ensures freePages == old(freePages) + Pow2(old(pages[page].order))
    {
      ghost var order := pages[page].order;
      freePages := freePages + Pow2(pages[page].order);
      FreeLive(page, order);
    }

    // Puts a live block back.
    method FreeLive(page: nat, ghost order: nat)
      requires Inv() && Settled(frames) && page < pages.Length && pages[page].order == order
      requires IsBlock(frames, page, order, Live)
      modifies pages, freeLists, this`lists, this`frames
      ensures Inv() && Settled(frames)
      ensures FreeStep(old(frames), frames, page, order)
      ensures pages[page].flags == if frames[page].head == page then PAGE_FREE else old(pages[page].flags)
      ensures |FreeFrames(frames)| == |FreeFrames(old(frames))| + Pow2(order)
      ensures OwnedFrames(frames) == OwnedFrames(old(frames))
    {
      ghost var o := frames;
      StepHold(pages[..], freeLists[..], lists, frames, page, order);
      frames := Retag(frames, page, order, Held);
      ghost var o1 := frames;
      FreeBlock(page);
      FreeDone(o, o1, frames, page, order);
      FreeCount(o, frames, page, order);
    }
  }

  // The counters: g_free_pages is the sum over the orders of count[k] * 2^k, and with the
  // sizes of the live blocks it makes up g_total_pages.
  lemma {:induction false} Accounting(a: Pmm)
    requires a.Valid() && a.ready
    ensures Counted(a.freeLists[..], MAX_ORDER) == a.freePages == |FreeFrames(a.frames)|
    ensures a.freePages + Sizes(a.frames, Live, |a.frames|) == a.totalPages
  {
    ListsHoldFreeFrames(a.pages[..], a.freeLists[..], a.lists, a.frames);
    Conservation(a.frames);
  }

  function ToPtr(hhdm: nat, pfn: nat): nat {
    (pfn * PAGE_SIZE + hhdm) % WORD
  }

  function FromPtr(hhdm: nat, ptr: nat): nat
    requires hhdm < WORD
  {
    ((ptr + WORD - hhdm) % WORD) / PAGE_SIZE
  }

  // Turning a page into a pointer and back gives the page, also where the direct map wraps.
  lemma {:induction false} PointerRoundTrip(hhdm: nat, pfn: nat)
    requires hhdm < WORD && pfn * PAGE_SIZE < WORD
    ensures ToPtr(hhdm, pfn) < WORD && FromPtr(hhdm, ToPtr(hhdm, pfn)) == pfn
    ensures pfn * PAGE_SIZE + hhdm < WORD ==> ToPtr(hhdm, pfn) == pfn * PAGE_SIZE + hhdm
  {
    var x := pfn * PAGE_SIZE + hhdm;
    assert x % WORD == if x < WORD then x else x - WORD;
  }

  // So does any pointer into the page.
  lemma {:induction false} PointerInto(hhdm: nat, pfn: nat, d: nat)
    requires hhdm < WORD && pfn * PAGE_SIZE < WORD && d < 4096
    ensures FromPtr(hhdm, (ToPtr(hhdm, pfn) + d) % WORD) == pfn
  {
    var x := pfn * PAGE_SIZE + d;
    PageBelow(pfn);
    assert ToPtr(hhdm, pfn) == if pfn * PAGE_SIZE + hhdm < WORD then pfn * PAGE_SIZE + hhdm else pfn * PAGE_SIZE + hhdm - WORD;
    var p := (ToPtr(hhdm, pfn) + d) % WORD;
    assert p == if x + hhdm < WORD then x + hhdm else x + hhdm - WORD;
    assert (p + WORD - hhdm) % WORD == x;
  }

  lemma {:induction false} PageBelow(pfn: nat)
    requires pfn * PAGE_SIZE < WORD
    ensures pfn * PAGE_SIZE + PAGE_SIZE <= WORD
  {
  }

  // Whatever is allocated can be freed: pmm_free accepts a pointer to the head of a live block.
  lemma {:induction false} LiveIsAccepted(a: Pmm, pfn: nat, k: nat)
    requires a.Valid() && a.ready && a.hhdm < WORD && pfn * PAGE_SIZE < WORD
    requires IsBlock(a.frames, pfn, k, Live) && a.PtrOf(pfn) != 0
    ensures a.PtrOf(pfn) < WORD && a.Accepts(a.PtrOf(pfn))
  {
    PointerRoundTrip(a.hhdm, pfn);
    LiveFlags(a, a.PtrOf(pfn), k);
  }

  // Freeing a reserved page, or again the head of a free block, is refused.
  lemma {:induction false} Refused(a: Pmm, ptr: nat)
    requires a.Valid() && a.ready && a.hhdm < WORD && ptr < WORD && a.PfnOf(ptr) < |a.frames|
    requires a.frames[a.PfnOf(ptr)] == Reserved || exists k: nat :: IsBlock(a.frames, a.PfnOf(ptr), k, Free)
    ensures !a.Accepts(ptr)
  {
    assert HeadOk(a.pages[..][a.PfnOf(ptr)], a.frames[a.PfnOf(ptr)], a.PfnOf(ptr));
  }

  // When a free page heads its block: no larger free run reaches it from below.
  lemma {:induction false} HeadsItsBlock(o: Frames, p: nat)
    requires Partition(o) && Coalesced(o) && p < |o| && HasState(o[p], Free)
    ensures o[p].head == p <==> !exists h: nat, j: nat :: h < p && j < MAX_ORDER && InRun(p, h, j) && FreeRun(o, h, j)
  {
    var b := o[p];
    assert InRun(p, b.head, b.order);
    if b.head != p {
      assert FreeRun(o, b.head, b.order);
    }
    forall h: nat, j: nat | h < p && j < MAX_ORDER && InRun(p, h, j) && FreeRun(o, h, j)
      ensures b.head != p
    {
      FreeRunInBlock(o, h, j);
      assert InRun(p, o[h].head, o[h].order);
    }
  }

  // Two one-page buddies, both handed out and freed, the lower first: the upper one can be
  // freed once more.
  method FreedTwice() returns (a: Pmm, ptr: nat)
    ensures a.Valid() && a.ready && a.hhdm < WORD && ptr < WORD
    ensures a.PfnOf(ptr) == 1 && |a.frames| == 2 && HasState(a.frames[1], Free) && a.Accepts(ptr)
  {
    var db := new Page[2](_ => Page(PAGE_FREE, 0, Null, Null));
    a := new Pmm(db, PAGE_SIZE);
    a.Init();
    var low, high := TakeBoth(a);
    ptr := FreeBoth(a, low, high);
  }

  method TakeBoth(a: Pmm) returns (low: nat, high: nat)
    requires a.Valid() && a.ready && a.hhdm == PAGE_SIZE && |a.frames| == a.pages.Length == 2
    requires HasState(a.frames[0], Free) && HasState(a.frames[1], Free)
    modifies a`freePages, a.pages, a.freeLists, a`lists, a`frames
    ensures a.Valid() && |a.frames| == 2 && 0 < low < WORD && 0 < high < WORD
    ensures a.PfnOf(low) == 0 && a.PfnOf(high) == 1
    ensures IsBlock(a.frames, 0, 0, Live) && IsBlock(a.frames, 1, 0, Live)
  {
    var p := TakeOne(a, 0);
    var q := TakeOne(a, 1 - a.PfnOf(p));
    low, high := if p < q then p else q, if p < q then q else p;
  }

  method TakeOne(a: Pmm, ghost i: nat) returns (ptr: nat)
    requires a.Valid() && a.ready && a.hhdm == PAGE_SIZE && |a.frames| == a.pages.Length == 2
    requires i < 2 && HasState(a.frames[i], Free)
    modifies a`freePages, a.pages, a.freeLists, a`lists, a`frames
    ensures a.Valid() && |a.frames| == 2 && 0 < ptr < WORD
    ensures TookOne(old(a.frames), a.frames, a.PfnOf(ptr)) && ptr == PAGE_SIZE + a.PfnOf(ptr) * PAGE_SIZE
  {
    ghost var o := a.frames;
    OneFree(o, i);
    ptr := a.PmmAlloc(0);
    OneTaken(o, a.frames, a.PfnOf(ptr));
  }

  method FreeBoth(a: Pmm, low: nat, high: nat) returns (ptr: nat)
    requires a.Valid() && a.ready && a.hhdm < WORD && low < WORD && high < WORD && low != 0 && high != 0
    requires |a.frames| == 2 && a.PfnOf(low) == 0 && a.PfnOf(high) == 1
    requires IsBlock(a.frames, 0, 0, Live) && IsBlock(a.frames, 1, 0, Live)
    modifies a`freePages, a.pages, a.freeLists, a`lists, a`frames
    ensures a.Valid() && a.ready && ptr == high
    ensures |a.frames| == 2 && HasState(a.frames[1], Free) && a.Accepts(ptr)
  {
    ghost var o0 := a.frames;
    LiveFlags(a, low, 0);
    a.PmmFree(low);
    ghost var o1 := a.frames;
    GivenBack(o0, o1, 0);
    LiveFlags(a, high, 0);
    assert IsBlock(a.frames, a.PfnOf(high), 0, Live);
    a.PmmFree(high);
    GivenBack(o1, a.frames, 1);
    TwoMerge(a.frames);
    ptr := high;
  }

  lemma {:induction false} OneFree(o: Frames, p: nat)
    requires p < |o| && HasState(o[p], Free)
    ensures FreeRun(o, p, 0)
  {
  }

  // Of two pages, p went from free to live and the other stayed what it was.
  ghost predicate TookOne(o: Frames, r: Frames, p: nat) {
    && |o| == |r| == 2 && p < 2 && HasState(o[p], Free) && IsBlock(r, p, 0, Live)
    && (HasState(o[1 - p], Free) ==> HasState(r[1 - p], Free))
    && (HasState(o[1 - p], Live) ==> r[1 - p] == o[1 - p])
  }

  lemma {:induction false} OneTaken(o: Frames, r: Frames, p: nat)
    requires |o| == 2 && AllocStep(o, r, p, 0)
    ensures TookOne(o, r, p)
  {
    assert InRun(p, p, 0);
    RunOfOne(p);
    assert 1 - p in FreeFrames(r) <==> 1 - p in FreeFrames(o);
  }

  lemma {:induction false} GivenBack(o: Frames, r: Frames, p: nat)
    requires |o| == 2 && IsBlock(o, p, 0, Live) && exists k: nat :: FreeStep(o, r, p, k)
    ensures |r| == 2 && HasState(r[p], Free)
    ensures HasState(o[1 - p], Free) ==> HasState(r[1 - p], Free)
    ensures HasState(o[1 - p], Live) ==> r[1 - p] == o[1 - p]
  {
    RunOfOne(p);
    assert p in FreeFrames(r);
    assert 1 - p in FreeFrames(o) ==> 1 - p in FreeFrames(r);
  }

  lemma {:induction false} LiveFlags(a: Pmm, ptr: nat, k: nat)
    requires a.Valid() && a.ready && a.hhdm < WORD && ptr < WORD && ptr != 0
    requires IsBlock(a.frames, a.PfnOf(ptr), k, Live)
    ensures a.Accepts(ptr)
  {
    var pfn := a.PfnOf(ptr);
    assert HeadOk(a.pages[..][pfn], a.frames[pfn], pfn);
  }

  lemma {:induction false} TwoMerge(o: Frames)
    requires Partition(o) && Coalesced(o) && |o| == 2 && HasState(o[0], Free) && HasState(o[1], Free)
    ensures o[1].head == 0
  {
    assert Pow2(1) == 2 && Aligned(0, 1);
    assert InRun(1, 0, 1) && FreeRun(o, 0, 1);
    HeadsItsBlock(o, 1);
    assert InRun(1, o[1].head, o[1].order);
  }

  lemma {:induction false} LiveHead(pages: seq<Page>, o: Frames, p: nat)
    requires HeadsOk(pages, o) && p < |o| && exists k: nat :: IsBlock(o, p, k, Live)
    ensures IsBlock(o, p, pages[p].order, Live)
  {
    assert HeadOk(pages[p], o[p], p);
  }

  lemma {:induction false} FreeDone(o: Frames, o1: Frames, r: Frames, p: nat, k: nat)
    requires Partition(o) && NoneHeld(o) && IsBlock(o, p, k, Live) && o1 == Retag(o, p, k, Held)
    requires FreeFrames(o1) == FreeFrames(o)
    requires FreeFrames(r) == FreeFrames(o1) + Run(p, k) && KeepsOthers(o1, r)
    ensures FreeStep(o, r, p, k)
  {
    forall i: nat | i < |o| && i !in Run(p, k) && !HasState(o[i], Free)
      ensures r[i] == o[i]
    {
      assert !InRun(i, p, k);
    }
  }

  lemma {:induction false} FreeCount(o: Frames, r: Frames, p: nat, k: nat)
    requires Partition(o) && FreeStep(o, r, p, k)
    ensures |FreeFrames(r)| == |FreeFrames(o)| + Pow2(k)
    ensures OwnedFrames(r) == OwnedFrames(o)
  {
    assert InRun(p, p, k);
    RunSize(p, k);
    assert FreeFrames(o) !! Run(p, k);
    forall i: nat | i < |o|
      ensures i in OwnedFrames(r) <==> i in OwnedFrames(o)
    {
      assert i in FreeFrames(r) <==> i in FreeFrames(o) || i in Run(p, k);
    }
  }

  // The list used is the first one at or above the order asked for that is not empty.
  ghost predicate SmallestFit(fls: seq<FreeList>, order: nat, r: Link) {
    exists c :: order <= c < |fls| && AllNull(fls, order, c) && fls[c].head == r
  }

  // The page taken headed a free block, and no free block large enough was smaller.
  lemma {:induction false} SmallestBlockServes(a: Pmm, order: nat, p: nat)
    requires a.Valid() && a.ready && SmallestFit(a.freeLists[..], order, To(p))
    ensures exists k: nat :: order <= k && SmallestServing(a.frames, order, p, k)
  {
    var k: nat :| order <= k < |a.freeLists[..]| && AllNull(a.freeLists[..], order, k) && a.freeLists[..][k].head == To(p);
    HeadListed(a.pages[..], a.freeLists[..], a.lists, a.frames, k);
    forall q: nat, j: nat | order <= j && IsBlock(a.frames, q, j, Free)
      ensures k <= j
    {
      ListOfBlock(a.pages[..], a.freeLists[..], a.lists, a.frames, q, j);
    }
    assert SmallestServing(a.frames, order, p, k);
  }

  lemma {:induction false} ListOfBlock(pages: seq<Page>, fls: seq<FreeList>, lists: seq<seq<nat>>, o: Frames, p: nat, k: nat)
    requires Good(pages, fls, lists, o) && IsBlock(o, p, k, Free)
    ensures k < |fls| && fls[k].head != Null
  {
    assert p in lists[k];
    assert Linked(pages, fls[k], lists[k]);
  }

  ghost predicate SmallestServing(o: Frames, order: nat, p: nat, k: nat) {
    IsBlock(o, p, k, Free) && forall q: nat, j: nat :: order <= j && IsBlock(o, q, j, Free) ==> k <= j
  }

  function InitialPage(page: Page): Page {
    Page(if page.flags.free then page.flags.(free := false, used := true) else page.flags, 0, Null, Null)
  }

  // Between the two passes of pmm_init every usable page counts as a live block of one page.
  ghost function InitialFrames(db: seq<Page>): (o: Frames)
    ensures |o| == |db|
    ensures forall i :: 0 <= i < |db| ==> o[i] == if db[i].flags.free then Block(i, 0, Live) else Reserved
  {
    seq(|db|, i requires 0 <= i < |db| => if db[i].flags.free then Block(i, 0, Live) else Reserved)
  }

  ghost function UsableBelow(db: seq<Page>, n: nat): set<nat> {
    set i: nat | i < n && i < |db| && db[i].flags.free
  }

  lemma {:induction false} UsableBelowNext(db: seq<Page>, n: nat)
    requires n < |db|
    ensures UsableBelow(db, n + 1) == UsableBelow(db, n) + if db[n].flags.free then {n} else {}
    ensures n !in UsableBelow(db, n)
  {
  }

  lemma {:induction false} InitialGood(db: seq<Page>, pages: seq<Page>, fls: seq<FreeList>, lists: seq<seq<nat>>)
    requires forall i :: 0 <= i < |db| ==> db[i].flags == PAGE_FREE || db[i].flags == PAGE_RESERVED
    requires |pages| == |db| && forall i :: 0 <= i < |db| ==> pages[i] == InitialPage(db[i])
    requires fls == seq(MAX_ORDER, _ => FreeList(Null, 0)) && lists == seq(MAX_ORDER, _ => [])
    ensures Good(pages, fls, lists, InitialFrames(db)) && NoneHeld(InitialFrames(db))
    ensures FreeFrames(InitialFrames(db)) == {}
  {
    var o := InitialFrames(db);
    forall i | 0 <= i < |o| && o[i].Block?
      ensures Whole(o, o[i])
    {
      assert Aligned(i, 0) && Pow2(0) == 1;
    }
  }

  lemma {:induction false} StepHold(pages: seq<Page>, fls: seq<FreeList>, lists: seq<seq<nat>>, o: Frames, h: nat, k: nat)
    requires Good(pages, fls, lists, o) && IsBlock(o, h, k, Live) && NoneHeld(o)
    ensures Good(pages, fls, lists, Retag(o, h, k, Held)) && OnlyHeld(Retag(o, h, k, Held), h, k)
    ensures FreeFrames(Retag(o, h, k, Held)) == FreeFrames(o) && Run(h, k) !! FreeFrames(o)
    ensures pages[h].order == k && k < MAX_ORDER
  {
    var r := Retag(o, h, k, Held);
    RetagOk(o, h, k, Live, Held);
    assert HeadOk(pages[h], o[h], h);
    forall p: nat, j: nat
      ensures IsBlock(r, p, j, Free) <==> IsBlock(o, p, j, Free)
    {
      RetagHeads(o, h, k, Live, Held, p, j, Free);
    }
    CoalescedFewer(o, r);
    HeadsFrame(pages, pages, o, r);
  }

  // Before pmm_init's second pass reaches page n, pages n and up are as the first pass left them.
  ghost predicate KeepsInitial(db: seq<Page>, o: Frames, n: nat) {
    && |o| == |db|
    && (forall i :: n <= i < |db| ==> o[i] == if db[i].flags.free then Block(i, 0, Live) else Reserved)
    && forall i :: 0 <= i < |db| ==> (o[i] == Reserved <==> !db[i].flags.free)
  }

  lemma {:induction false} InitialFlags(db: seq<Page>, pages: seq<Page>, o: Frames, p: nat)
    requires HeadsOk(pages, o) && KeepsInitial(db, o, p) && p < |db|
    ensures db[p].flags.free ==> IsBlock(o, p, 0, Live) && pages[p].flags == PAGE_USED && pages[p].order == 0
    ensures !db[p].flags.free ==> pages[p].flags == PAGE_RESERVED && UsableBelow(db, p + 1) == UsableBelow(db, p)
    ensures KeepsInitial(db, o, p + 1)
  {
    assert HeadOk(pages[p], o[p], p);
  }

  lemma {:induction false} OneFreed(db: seq<Page>, o: Frames, r: Frames, p: nat)
    requires IsBlock(o, p, 0, Live) && KeepsInitial(db, o, p)
    requires FreeFrames(r) == FreeFrames(o) + Run(p, 0)
    requires KeepsOthers(Retag(o, p, 0, Held), r)
    requires FreeFrames(o) == UsableBelow(db, p)
    ensures FreeFrames(r) == UsableBelow(db, p + 1) && |FreeFrames(r)| == |FreeFrames(o)| + 1
    ensures KeepsInitial(db, r, p + 1)
  {
    assert InRun(p, p, 0);
    RunOfOne(p);
    UsableBelowNext(db, p);
    forall i: nat | i < |o|
      ensures r[i] == Reserved <==> !db[i].flags.free
    {
      assert i in FreeFrames(r) <==> i in UsableBelow(db, p + 1);
    }
  }

  lemma {:induction false} AllFreed(db: seq<Page>, o: Frames)
    requires KeepsInitial(db, o, |db|) && FreeFrames(o) == UsableBelow(db, |db|)
    ensures OwnedFrames(o) == FreeFrames(o)
    ensures forall i :: 0 <= i < |db| ==>
                          if db[i].flags.free then HasState(o[i], Free) else o[i] == Reserved
  {
    forall i: nat | i < |db| && db[i].flags.free
      ensures HasState(o[i], Free)
    {
      assert i in UsableBelow(db, |db|);
    }
  }

  // Unlisting the free buddy and joining it to the held block.
  lemma {:induction false} StepAbsorb(pages: seq<Page>, fls: seq<FreeList>, lists: seq<seq<nat>>, o: Frames, h: nat, k: nat,
                   pages': seq<Page>, fls': seq<FreeList>)
    requires Good(pages, fls, lists, o) && k + 1 < MAX_ORDER && OnlyHeld(o, h, k)
    requires IsBlock(o, Buddy(h, k), k, Free) && Buddy(h, k) in lists[k]
    requires SameBut(pages, pages', lists[k], Buddy(h, k))
    requires AllLinked(pages', fls', lists[k := Without(lists[k], IndexOf(lists[k], Buddy(h, k)))])
    ensures var q := if Buddy(h, k) < h then Buddy(h, k) else h;
            var r := Merge(Retag(o, Buddy(h, k), k, Held), h, k);
            && q < |pages|
            && Good(pages'[q := pages'[q].(order := k + 1)], fls',
                    lists[k := Without(lists[k], IndexOf(lists[k], Buddy(h, k)))], r)
            && OnlyHeld(r, q, k + 1)
            && FreeFrames(r) + Run(q, k + 1) == FreeFrames(o) + Run(h, k)
            && KeepsOthers(o, r)
  {
    var b := Buddy(h, k);
    StepTake(pages, fls, lists, o, b, k, pages', fls');
    MergeHeld(o, h, k);
    StepMerge(pages', fls', lists[k := Without(lists[k], IndexOf(lists[k], b))], Retag(o, b, k, Held), h, k);
  }

  // After the coalescing loop the held block may be marked free and pushed.
  lemma {:induction false} BeforeRelist(pages: seq<Page>, fls: seq<FreeList>, lists: seq<seq<nat>>, o: Frames, h: nat, k: nat)
    requires Good(pages, fls, lists, o) && IsBlock(o, h, k, Held)
    requires k + 1 >= MAX_ORDER || Buddy(h, k) > |pages| - 1
             || !pages[Buddy(h, k)].flags.free || pages[Buddy(h, k)].order != k
    ensures k + 1 < MAX_ORDER ==> !IsBlock(o, Buddy(h, k), k, Free)
    ensures Unlisted(lists, h)
    ensures AllLinked(pages[h := Page(PAGE_FREE, k, Null, Null)], fls, lists)
  {
    BuddyNotFree(pages, fls, lists, o, h, k);
    HeldUnlisted(lists, o, h);
    WriteUnlisted(pages, fls, lists, h, Page(PAGE_FREE, k, Null, Null));
  }

  // Taking the free buddy and joining it to the held block: one larger held block, the
  // same frames free or held, and nothing else touched.
  lemma {:induction false} MergeHeld(o: Frames, h: nat, k: nat)
    requires Partition(o) && OnlyHeld(o, h, k) && IsBlock(o, Buddy(h, k), k, Free) && k + 1 < MAX_ORDER
    ensures var t := Retag(o, Buddy(h, k), k, Held); var r := Merge(t, h, k);
            && Partition(t) && IsBlock(t, h, k, Held) && IsBlock(t, Buddy(h, k), k, Held)
            && Parent(h, k) == (if Buddy(h, k) < h then Buddy(h, k) else h)
            && OnlyHeld(r, Parent(h, k), k + 1)
            && FreeFrames(r) + Run(Parent(h, k), k + 1) == FreeFrames(o) + Run(h, k)
            && KeepsOthers(o, r)
  {
    var b := Buddy(h, k);
    var t := Retag(o, b, k, Held);
    var r := Merge(t, h, k);
    assert InRun(h, h, k) && InRun(b, b, k);
    BuddyHalves(h, k);
    RetagOk(o, b, k, Free, Held);
    RetagHeads(o, b, k, Free, Held, h, k, Held);
    MergeOk(t, h, k);
    var q := Parent(h, k);
    assert forall i :: InRun(i, q, k + 1) <==> InRun(i, h, k) || InRun(i, b, k);
  }

  // The coalescing loop stops only where the buddy does not head a free block of this order.
  lemma {:induction false} BuddyNotFree(pages: seq<Page>, fls: seq<FreeList>, lists: seq<seq<nat>>, o: Frames, h: nat, k: nat)
    requires Good(pages, fls, lists, o)
    requires k + 1 >= MAX_ORDER || Buddy(h, k) > |pages| - 1
             || !pages[Buddy(h, k)].flags.free || pages[Buddy(h, k)].order != k
    ensures k + 1 < MAX_ORDER ==> !IsBlock(o, Buddy(h, k), k, Free)
  {
    if k + 1 < MAX_ORDER && Buddy(h, k) < |pages| {
      assert HeadOk(pages[Buddy(h, k)], o[Buddy(h, k)], Buddy(h, k));
    }
  }

  // ---- Allocation steps ----

  lemma {:induction false} HeadListed(pages: seq<Page>, fls: seq<FreeList>, lists: seq<seq<nat>>, o: Frames, k: nat)
    requires Good(pages, fls, lists, o) && k < MAX_ORDER && fls[k].head.To?
    ensures fls[k].head.pfn in lists[k] && IsBlock(o, fls[k].head.pfn, k, Free)
  {
    assert Linked(pages, fls[k], lists[k]);
    assert lists[k][0] in lists[k];
  }

  ghost predicate AllNull(fls: seq<FreeList>, a: nat, b: nat) {
    b <= |fls| && forall k :: a <= k < b ==> fls[k].head == Null
  }

  lemma {:induction false} NoneListed(pages: seq<Page>, fls: seq<FreeList>, lists: seq<seq<nat>>, o: Frames, order: nat)
    requires Good(pages, fls, lists, o) && order < MAX_ORDER
    requires AllNull(fls, order, MAX_ORDER)
    ensures !exists p: nat :: FreeRun(o, p, order)
  {
    FreeRunExists(o, order);
    forall p: nat, j: nat | j >= order
      ensures !IsBlock(o, p, j, Free)
    {
      if j < MAX_ORDER {
        assert Linked(pages, fls[j], lists[j]);
        assert p !in lists[j];
      }
    }
  }

  lemma {:induction false} Taken(o: Frames, h: nat, k: nat)
    requires Partition(o) && NoneHeld(o) && IsBlock(o, h, k, Free)
    ensures OnlyHeld(Retag(o, h, k, Held), h, k)
    ensures FreeFrames(Retag(o, h, k, Held)) == FreeFrames(o) - Run(h, k)
    ensures KeepsOthers(o, Retag(o, h, k, Held))
  {
    RetagOk(o, h, k, Free, Held);
    assert InRun(h, h, k);
  }

  // The run carved from a free block was free, and its frames leave the free set.
  lemma {:induction false} AllocDone(o: Frames, o1: Frames, r: Frames, h: nat, j: nat, k: nat)
    requires Partition(o) && IsBlock(o, h, j, Free) && k <= j && IsBlock(r, h, k, Live)
    requires FreeFrames(o1) == FreeFrames(o) - Run(h, j) && KeepsOthers(o, o1)
    requires FreeFrames(r) == FreeFrames(o1) + (Run(h, j) - Run(h, k)) && KeepsOthers(o1, r)
    ensures AllocStep(o, r, h, k)
  {
    Pow2Mono(k, j);
    AlignedDown(h, k, j);
    assert InRun(h, h, j);
    assert forall i :: InRun(i, h, k) ==> InRun(i, h, j);
    assert Run(h, k) <= Run(h, j) <= FreeFrames(o);
  }

  lemma {:induction false} AllocCount(o: Frames, r: Frames, h: nat, k: nat)
    requires AllocStep(o, r, h, k)
    ensures |FreeFrames(r)| == |FreeFrames(o)| - Pow2(k) && Pow2(k) <= |FreeFrames(o)|
    ensures OwnedFrames(r) == OwnedFrames(o)
  {
    RunSize(h, k);
    assert FreeFrames(o) == FreeFrames(r) + Run(h, k);
  }

  lemma {:induction false} BeforeSplit(pages: seq<Page>, fls: seq<FreeList>, lists: seq<seq<nat>>, o: Frames, h: nat, k: nat)
    requires Good(pages, fls, lists, o) && k + 1 < MAX_ORDER && OnlyHeld(o, h, k + 1)
    ensures var q := h + Pow2(k);
            && q < |pages| && Unlisted(lists, q)
            && AllLinked(pages[q := Page(PAGE_FREE, k, Null, Null)], fls, lists)
            && OnlyHeld(Split(o, h, k), h, k)
            && FreeFrames(Split(o, h, k)) == FreeFrames(o) + (Run(h, k + 1) - Run(h, k))
            && KeepsOthers(o, Split(o, h, k))
  {
    var q := h + Pow2(k);
    SplitOk(o, h, k);
    assert InRun(h, h, k + 1) && InRun(q, h, k + 1) && InRun(q, q, k);
    HeldUnlisted(lists, o, q);
    WriteUnlisted(pages, fls, lists, q, Page(PAGE_FREE, k, Null, Null));
    forall i
      ensures InRun(i, h, k + 1) <==> InRun(i, h, k) || InRun(i, q, k)
      ensures !(InRun(i, h, k) && InRun(i, q, k))
    {
    }
    assert Run(q, k) == Run(h, k + 1) - Run(h, k);
  }

  lemma {:induction false} Nested(h: nat, k: nat, j: nat)
    requires k < j
    ensures Run(h, k) <= Run(h, k + 1) <= Run(h, j)
  {
    Pow2Mono(k, k + 1);
    Pow2Mono(k + 1, j);
  }

  lemma {:induction false} UsedOk(o: Frames, h: nat, k: nat)
    requires Partition(o) && OnlyHeld(o, h, k)
    ensures var r := Retag(o, h, k, Live);
            NoneHeld(r) && IsBlock(r, h, k, Live) && FreeFrames(r) == FreeFrames(o) && KeepsOthers(o, r)
  {
    RetagOk(o, h, k, Held, Live);
  }
}
