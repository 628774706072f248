/** The allocator's invariant over plain values: descriptors, free lists and owners agree.
    Each lemma is one atomic step of the allocator. */
module BuddyState {
  import opened Bits
  import opened Ownership
  import opened FreeLists

  // List k holds exactly the heads of the free blocks of order k.
  ghost predicate Matches(lists: seq<seq<nat>>, o: Frames) {
    && |lists| == MAX_ORDER
    && (forall k: nat, p: nat {:trigger IsBlock(o, p, k, Free)} :: IsBlock(o, p, k, Free) ==> k < MAX_ORDER && p in lists[k])
    && forall k: nat, p: nat :: k < MAX_ORDER && p in lists[k] ==> IsBlock(o, p, k, Free)
  }

  // Flags and order are right on block heads and on reserved pages. Nothing is said of
  // the other pages of a block: their flags and order may be stale.
  ghost predicate HeadOk(page: Page, b: Owner, i: int) {
    && (b == Reserved ==> page.flags == PAGE_RESERVED)
    && (b.Block? && b.head == i && b.state == Free ==> page.flags == PAGE_FREE && page.order == b.order)
    && (b.Block? && b.head == i && b.state == Live ==> page.flags == PAGE_USED && page.order == b.order)
  }

  ghost predicate HeadsOk(pages: seq<Page>, o: Frames) {
    |pages| == |o| && forall i :: 0 <= i < |o| ==> HeadOk(pages[i], o[i], i)
  }

  ghost predicate Good(pages: seq<Page>, fls: seq<FreeList>, lists: seq<seq<nat>>, o: Frames) {
    && AllLinked(pages, fls, lists)
    && Matches(lists, o)
    && HeadsOk(pages, o)
    && Partition(o)
    && Coalesced(o)
  }

  // The buddy test reads flags and order that may be stale. When it passes, the buddy
  // nevertheless heads a free block of that order, in that order's list.
  lemma {:induction false} StaleIsHarmless(pages: seq<Page>, fls: seq<FreeList>, lists: seq<seq<nat>>, o: Frames, h: nat, k: nat)
    requires Good(pages, fls, lists, o) && OnlyHeld(o, h, k) && k < MAX_ORDER
    requires Buddy(h, k) < |o| && pages[Buddy(h, k)].flags.free && pages[Buddy(h, k)].order == k
    ensures IsBlock(o, Buddy(h, k), k, Free) && Buddy(h, k) in lists[k]
  {
    var b := Buddy(h, k);
    assert InRun(h, h, k);
    assert HeadOk(pages[b], o[b], b);
    BuddyHalves(h, k);
    var c := o[b];
    assert c.Block?;
    if c.order > k {
      var q := Parent(h, k);
      RunsNest(q, k + 1, c.head, c.order, b);
      assert InRun(h, c.head, c.order);
      assert false;
    } else {
      RunsNest(c.head, c.order, b, k, b);
      AlignedDown(b, c.order, k);
      RunsNest(b, c.order, c.head, c.order, b);
      assert c.head == b;
      assert IsBlock(o, b, k, Free);
    }
  }

  lemma {:induction false} HeldUnlisted(lists: seq<seq<nat>>, o: Frames, p: nat)
    requires Matches(lists, o) && p < |o| && !HasState(o[p], Free)
    ensures Unlisted(lists, p)
  {
    forall k | 0 <= k < |lists|
      ensures p !in lists[k]
    {
      assert p in lists[k] ==> IsBlock(o, p, k, Free);
    }
  }

  lemma {:induction false} MatchesAdd(lists: seq<seq<nat>>, o: Frames, r: Frames, h: nat, k: nat)
    requires Matches(lists, o) && k < MAX_ORDER
    requires forall p: nat, j: nat :: IsBlock(r, p, j, Free) <==> if p == h then j == k else IsBlock(o, p, j, Free)
    requires forall j: nat :: !IsBlock(o, h, j, Free)
    ensures Matches(lists[k := [h] + lists[k]], r)
  {
  }

  lemma {:induction false} MatchesDrop(lists: seq<seq<nat>>, o: Frames, r: Frames, h: nat, k: nat)
    requires Matches(lists, o) && k < MAX_ORDER && h in lists[k] && Distinct(lists[k])
    requires forall p: nat, j: nat :: IsBlock(r, p, j, Free) <==> p != h && IsBlock(o, p, j, Free)
    ensures Matches(lists[k := Without(lists[k], IndexOf(lists[k], h))], r)
  {
    WithoutMembers(lists[k], IndexOf(lists[k], h));
  }

  lemma {:induction false} WithoutMembers(list: seq<nat>, m: nat)
    requires m < |list| && Distinct(list)
    ensures forall p :: p in Without(list, m) <==> p in list && p != list[m]
  {
    var l := Without(list, m);
    forall p | p in list && p != list[m]
      ensures p in l
    {
      var i :| 0 <= i < |list| && list[i] == p;
      assert l[if i < m then i else i - 1] == p;
    }
  }

  lemma {:induction false} CoalescedFewer(o: Frames, r: Frames)
    requires Coalesced(o)
    requires forall p: nat, k: nat :: IsBlock(r, p, k, Free) ==> IsBlock(o, p, k, Free)
    ensures Coalesced(r)
  {
    forall p: nat, k: nat | k + 1 < MAX_ORDER && IsBlock(r, p, k, Free)
      ensures !IsBlock(r, Buddy(p, k), k, Free)
    {
      assert IsBlock(o, p, k, Free);
    }
  }

  lemma {:induction false} CoalescedAdd(o: Frames, r: Frames, h: nat, k: nat)
    requires Partition(r) && Coalesced(o) && (k + 1 < MAX_ORDER ==> !IsBlock(o, Buddy(h, k), k, Free))
    requires forall p: nat, j: nat :: IsBlock(r, p, j, Free) ==> (p == h && j == k) || IsBlock(o, p, j, Free)
    ensures Coalesced(r)
  {
    forall p: nat, j: nat | j + 1 < MAX_ORDER && IsBlock(r, p, j, Free)
      ensures !IsBlock(r, Buddy(p, j), j, Free)
    {
      assert InRun(p, p, j);
      BuddyHalves(p, j);
      BuddyBack(p, j);
    }
  }

  lemma {:induction false} BuddyBack(p: nat, j: nat)
    requires Aligned(p, j)
    ensures Buddy(Buddy(p, j), j) == p && Buddy(p, j) != p
  {
    BuddyHalves(p, j);
    HalvesAreBuddies(Parent(p, j), j);
  }

  // pmm_list_remove: a free block leaves its list and is held.
  lemma {:induction false} StepTake(pages: seq<Page>, fls: seq<FreeList>, lists: seq<seq<nat>>, o: Frames, h: nat, k: nat,
                 pages': seq<Page>, fls': seq<FreeList>)
    requires Good(pages, fls, lists, o) && k < MAX_ORDER && h in lists[k]
    requires SameBut(pages, pages', lists[k], h)
    requires AllLinked(pages', fls', lists[k := Without(lists[k], IndexOf(lists[k], h))])
    ensures IsBlock(o, h, k, Free)
    ensures Good(pages', fls', lists[k := Without(lists[k], IndexOf(lists[k], h))], Retag(o, h, k, Held))
  {
    var r := Retag(o, h, k, Held);
    RetagOk(o, h, k, Free, Held);
    forall p: nat, j: nat
      ensures IsBlock(r, p, j, Free) <==> p != h && IsBlock(o, p, j, Free)
    {
      RetagHeads(o, h, k, Free, Held, p, j, Free);
    }
    assert Linked(pages, fls[k], lists[k]);
    MatchesDrop(lists, o, r, h, k);
    CoalescedFewer(o, r);
    HeadsFrame(pages, pages', o, r);
  }

  // Descriptors with the same flags and orders suit any owners that differ only in held blocks.
  lemma {:induction false} HeadsFrame(pages: seq<Page>, pages': seq<Page>, o: Frames, r: Frames)
    requires HeadsOk(pages, o) && |pages'| == |pages| && |r| == |o|
    requires forall i :: 0 <= i < |o| ==> pages'[i].flags == pages[i].flags && pages'[i].order == pages[i].order
    requires forall i :: 0 <= i < |o| ==> r[i] == o[i] || HasState(r[i], Held)
    ensures HeadsOk(pages', r)
  {
    forall i | 0 <= i < |o|
      ensures HeadOk(pages'[i], r[i], i)
    {
      assert HeadOk(pages[i], o[i], i);
    }
  }

  // Coalescing: the held block and its (now also held) buddy become one held block.
  lemma {:induction false} StepMerge(pages: seq<Page>, fls: seq<FreeList>, lists: seq<seq<nat>>, o: Frames, h: nat, k: nat)
    requires Good(pages, fls, lists, o) && k + 1 < MAX_ORDER
    requires IsBlock(o, h, k, Held) && IsBlock(o, Buddy(h, k), k, Held)
    ensures var q := Parent(h, k);
            q < |pages| && Good(pages[q := pages[q].(order := k + 1)], fls, lists, Merge(o, h, k))
  {
    MergeOk(o, h, k);
    var q := Parent(h, k);
    var r := Merge(o, h, k);
    assert InRun(h, h, k);
    BuddyHalves(h, k);
    assert HasState(o[q], Held);
    forall p: nat, j: nat
      ensures IsBlock(r, p, j, Free) <==> IsBlock(o, p, j, Free)
    {
      MergeHeads(o, h, k, p, j, Free);
    }
    CoalescedFewer(o, r);
    HeldUnlisted(lists, o, q);
    WriteUnlisted(pages, fls, lists, q, pages[q].(order := k + 1));
    forall i | 0 <= i < |o|
      ensures HeadOk(pages[q := pages[q].(order := k + 1)][i], r[i], i)
    {
      assert HeadOk(pages[i], o[i], i);
    }
  }

  // A held block is marked free and pushed on its list.
  lemma {:induction false} StepList(pages: seq<Page>, fls: seq<FreeList>, lists: seq<seq<nat>>, o: Frames, h: nat, k: nat,
                 pages': seq<Page>, fls': seq<FreeList>)
    requires Good(pages, fls, lists, o) && k < MAX_ORDER && IsBlock(o, h, k, Held)
    requires k + 1 < MAX_ORDER ==> !IsBlock(o, Buddy(h, k), k, Free)
    requires SameBut(pages[h := Page(PAGE_FREE, k, Null, Null)], pages', lists[k], h)
    requires AllLinked(pages', fls', lists[k := [h] + lists[k]])
    ensures Good(pages', fls', lists[k := [h] + lists[k]], Retag(o, h, k, Free))
  {
    var r := Retag(o, h, k, Free);
    RetagOk(o, h, k, Held, Free);
    forall p: nat, j: nat
      ensures IsBlock(r, p, j, Free) <==> if p == h then j == k else IsBlock(o, p, j, Free)
    {
      RetagHeads(o, h, k, Held, Free, p, j, Free);
    }
    MatchesAdd(lists, o, r, h, k);
    CoalescedAdd(o, r, h, k);
    forall i | 0 <= i < |o|
      ensures HeadOk(pages'[i], r[i], i)
    {
      assert HeadOk(pages[i], o[i], i);
    }
  }

  // A held block gives up its upper half, which is marked free and pushed on its list.
  lemma {:induction false} StepSplit(pages: seq<Page>, fls: seq<FreeList>, lists: seq<seq<nat>>, o: Frames, h: nat, k: nat,
                  pages': seq<Page>, fls': seq<FreeList>)
    requires Good(pages, fls, lists, o) && k + 1 < MAX_ORDER && IsBlock(o, h, k + 1, Held)
    requires h + Pow2(k) < |pages|
    requires SameBut(pages[h + Pow2(k) := Page(PAGE_FREE, k, Null, Null)], pages', lists[k], h + Pow2(k))
    requires AllLinked(pages', fls', lists[k := [h + Pow2(k)] + lists[k]])
    ensures Good(pages', fls', lists[k := [h + Pow2(k)] + lists[k]], Split(o, h, k))
  {
    var r := Split(o, h, k);
    var q := h + Pow2(k);
    SplitOk(o, h, k);
    assert InRun(h, h, k + 1) && InRun(q, h, k + 1);
    forall p: nat, j: nat
      ensures IsBlock(r, p, j, Free) <==> if p == q then j == k else IsBlock(o, p, j, Free)
    {
      SplitHeads(o, h, k, p, j, Free);
    }
    MatchesAdd(lists, o, r, q, k);
    HalvesAreBuddies(h, k);
    CoalescedAdd(o, r, q, k);
    forall i | 0 <= i < |o|
      ensures HeadOk(pages'[i], r[i], i)
    {
      assert HeadOk(pages[i], o[i], i);
    }
  }

  // A held block is marked used and handed out.
  lemma {:induction false} StepUse(pages: seq<Page>, fls: seq<FreeList>, lists: seq<seq<nat>>, o: Frames, h: nat, k: nat)
    requires Good(pages, fls, lists, o) && IsBlock(o, h, k, Held)
    ensures Good(pages[h := Page(PAGE_USED, k, Null, Null)], fls, lists, Retag(o, h, k, Live))
  {
    var r := Retag(o, h, k, Live);
    var page := Page(PAGE_USED, k, Null, Null);
    RetagOk(o, h, k, Held, Live);
    forall p: nat, j: nat
      ensures IsBlock(r, p, j, Free) <==> IsBlock(o, p, j, Free)
    {
      RetagHeads(o, h, k, Held, Live, p, j, Free);
    }
    CoalescedFewer(o, r);
    HeldUnlisted(lists, o, h);
    WriteUnlisted(pages, fls, lists, h, page);
    forall i | 0 <= i < |o|
      ensures HeadOk(pages[h := page][i], r[i], i)
    {
      assert HeadOk(pages[i], o[i], i);
    }
  }

  // ---- The counts of the lists add up to the free frames ----

  // The sum of count[k] * 2^k over the orders below n.
  function Counted(fls: seq<FreeList>, n: nat): nat
    requires n <= |fls|
  {
    if n == 0 then 0 else Counted(fls, n - 1) + fls[n - 1].count * Pow2(n - 1)
  }

  ghost function FreeBelow(o: Frames, n: nat): set<nat> {
    set i: nat | i < |o| && HasState(o[i], Free) && o[i].order < n
  }

  ghost function FreeAmong(o: Frames, k: nat, heads: seq<nat>): set<nat> {
    set i: nat | i < |o| && HasState(o[i], Free) && o[i].order == k && o[i].head in heads
  }

  lemma {:induction false} ListSize(o: Frames, k: nat, list: seq<nat>)
    requires Partition(o) && Distinct(list)
    requires forall p :: p in list ==> IsBlock(o, p, k, Free)
    ensures |FreeAmong(o, k, list)| == |list| * Pow2(k)
  {
    if list == [] {
      assert FreeAmong(o, k, list) == {};
    } else {
      var m := |list| - 1;
      var rest, h := list[..m], list[m];
      assert list == rest + [h];
      assert forall p :: p in rest ==> p in list;
      ListSize(o, k, rest);
      assert h in list && IsBlock(o, h, k, Free);
      FreeAmongNext(o, k, rest, h);
      MulNext(m, Pow2(k));
    }
  }

  lemma {:induction false} MulNext(m: nat, w: nat)
    ensures (m + 1) * w == m * w + w
  {
  }

  lemma {:induction false} FreeAmongNext(o: Frames, k: nat, rest: seq<nat>, h: nat)
    requires Partition(o) && h !in rest && IsBlock(o, h, k, Free)
    ensures |FreeAmong(o, k, rest + [h])| == |FreeAmong(o, k, rest)| + Pow2(k)
  {
    assert InRun(h, h, k);
    RunSize(h, k);
    assert FreeAmong(o, k, rest + [h]) == FreeAmong(o, k, rest) + Run(h, k);
    assert FreeAmong(o, k, rest) !! Run(h, k);
  }

  lemma {:induction false} CountedBelow(pages: seq<Page>, fls: seq<FreeList>, lists: seq<seq<nat>>, o: Frames, n: nat)
    requires Good(pages, fls, lists, o) && n <= MAX_ORDER
    ensures Counted(fls, n) == |FreeBelow(o, n)|
  {
    if n == 0 {
      assert FreeBelow(o, 0) == {};
    } else {
      var k := n - 1;
      CountedBelow(pages, fls, lists, o, k);
      assert Linked(pages, fls[k], lists[k]);
      ListSize(o, k, lists[k]);
      FreeBelowNext(lists, o, k);
    }
  }

  lemma {:induction false} FreeBelowNext(lists: seq<seq<nat>>, o: Frames, k: nat)
    requires Partition(o) && Matches(lists, o) && k < MAX_ORDER
    ensures FreeBelow(o, k + 1) == FreeBelow(o, k) + FreeAmong(o, k, lists[k])
    ensures FreeBelow(o, k) !! FreeAmong(o, k, lists[k])
  {
    forall i: nat | i < |o| && HasState(o[i], Free) && o[i].order == k
      ensures o[i].head in lists[k]
    {
      assert InRun(o[i].head, o[i].head, k);
      assert IsBlock(o, o[i].head, k, Free);
    }
  }

  // The free lists account for every free frame.
  lemma {:induction false} ListsHoldFreeFrames(pages: seq<Page>, fls: seq<FreeList>, lists: seq<seq<nat>>, o: Frames)
    requires Good(pages, fls, lists, o)
    ensures Counted(fls, MAX_ORDER) == |FreeFrames(o)|
  {
    CountedBelow(pages, fls, lists, o, MAX_ORDER);
    assert FreeBelow(o, MAX_ORDER) == FreeFrames(o);
  }
}
