/** Who owns each page frame: the abstract state of the buddy allocator.

    The kernel keeps this only implicitly, in the flags and orders of block heads and
    in the free lists. Here every frame carries the block it belongs to, so that blocks
    are disjoint by construction and the partition is one quantified statement. */
module Ownership {
  import opened Bits

  const MAX_ORDER: nat := 10

  // Held: taken off its list by the running call, not yet handed out or relisted.
  datatype State = Free | Live | Held

  datatype Owner = Reserved | Block(head: nat, order: nat, state: State)

  type Frames = seq<Owner>

  ghost predicate InRun(i: int, h: nat, k: nat) {
    h <= i < h + Pow2(k)
  }

  // Block b is a naturally aligned run inside the database and owns every frame of it.
  ghost predicate Whole(o: Frames, b: Owner) {
    && b.Block? && b.order < MAX_ORDER
    && Aligned(b.head, b.order)
    && b.head + Pow2(b.order) <= |o|
    && forall j :: InRun(j, b.head, b.order) ==> o[j] == b
  }

  ghost predicate Partition(o: Frames) {
    forall i :: 0 <= i < |o| && o[i].Block? ==>
                  InRun(i, o[i].head, o[i].order) && Whole(o, o[i])
  }

  ghost predicate IsBlock(o: Frames, p: int, k: nat, s: State) {
    0 <= p < |o| && o[p] == Block(p, k, s)
  }

  predicate HasState(b: Owner, s: State) {
    b.Block? && b.state == s
  }

  ghost function FramesIn(o: Frames, s: State): (r: set<nat>) {
    set i: nat | i < |o| && HasState(o[i], s)
  }

  ghost function FreeFrames(o: Frames): set<nat> {
    FramesIn(o, Free)
  }

  ghost function Run(h: nat, k: nat): set<nat> {
    set i: nat | i < h + Pow2(k) && InRun(i, h, k)
  }

  lemma {:induction false} InRunIffMember(i: nat, h: nat, k: nat)
    ensures i in Run(h, k) <==> InRun(i, h, k)
  {
  }

  // A naturally aligned run of 2^k frames, all of them free.
  ghost predicate FreeRun(o: Frames, p: nat, k: nat) {
    Aligned(p, k) && p + Pow2(k) <= |o| && forall i :: InRun(i, p, k) ==> HasState(o[i], Free)
  }

  // No two free buddies of equal order below the largest order.
  ghost predicate Coalesced(o: Frames) {
    forall p: nat, k: nat {:trigger Buddy(p, k)} ::
      k + 1 < MAX_ORDER && IsBlock(o, p, k, Free) ==> !IsBlock(o, Buddy(p, k), k, Free)
  }

  // ---- Canonical form ----

  // Every free run lies inside one free block.
  lemma {:induction false} FreeRunInBlock(o: Frames, p: nat, k: nat)
    requires Partition(o) && Coalesced(o)
    requires k < MAX_ORDER && FreeRun(o, p, k)
    ensures HasState(o[p], Free) && o[p].order >= k
    ensures o[p].head <= p && p + Pow2(k) <= o[p].head + Pow2(o[p].order)
    decreases k
  {
    assert InRun(p, p, k);
    var b := o[p];
    if k > 0 {
      HalvesAligned(p, k - 1);
      var q := p + Pow2(k - 1);
      assert forall i :: InRun(i, p, k - 1) ==> InRun(i, p, k);
      assert forall i :: InRun(i, q, k - 1) ==> InRun(i, p, k);
      FreeRunInBlock(o, p, k - 1);
      FreeRunInBlock(o, q, k - 1);
      var c := o[q];
      if b.order < k {
        if c.order < k {
          SmallHalves(o, p, k - 1);
          assert false;
        } else {
          RunsNest(p, k, c.head, c.order, q);
          assert false;
        }
      } else {
        RunsNest(p, k, b.head, b.order, p);
      }
    }
  }

  // Two free halves of an aligned run lie in a block larger than a half.
  lemma {:induction false} SmallHalves(o: Frames, p: nat, k: nat)
    requires Partition(o) && Coalesced(o) && k + 1 < MAX_ORDER && Aligned(p, k + 1) && p + Pow2(k + 1) <= |o|
    requires HasState(o[p], Free) && HasState(o[p + Pow2(k)], Free)
    ensures o[p].order != k || o[p + Pow2(k)].order != k
  {
    NotBothHalves(o, p, k);
    HalvesAligned(p, k);
    if o[p].order == k && o[p + Pow2(k)].order == k {
      SameOrder(o, p, k);
      SameOrder(o, p + Pow2(k), k);
    }
  }

  lemma {:induction false} NotBothHalves(o: Frames, p: nat, k: nat)
    requires Coalesced(o) && k + 1 < MAX_ORDER && Aligned(p, k + 1)
    ensures !(IsBlock(o, p, k, Free) && IsBlock(o, p + Pow2(k), k, Free))
  {
    HalvesAreBuddies(p, k);
  }

  // A block that contains an aligned run of its own order is that run.
  lemma {:induction false} SameOrder(o: Frames, p: nat, k: nat)
    requires Partition(o) && p < |o| && o[p].Block? && o[p].order == k && Aligned(p, k)
    ensures o[p].head == p
  {
    RunsNest(p, k, o[p].head, k, p);
  }

  // The free blocks are exactly the maximal free runs, so they are determined by
  // which frames are free.
  lemma {:induction false} FreeBlocksAreMaximalRuns(o: Frames, p: nat, k: nat)
    requires Partition(o) && Coalesced(o)
    ensures IsBlock(o, p, k, Free) <==>
            && k <= 9 && FreeRun(o, p, k)
            && (k == 9 || !FreeRun(o, Parent(p, k), k + 1))
  {
    if IsBlock(o, p, k, Free) {
      assert FreeRun(o, p, k);
      if k + 1 < MAX_ORDER && FreeRun(o, Parent(p, k), k + 1) {
        BuddyHalves(p, k);
        var q := Parent(p, k);
        FreeRunInBlock(o, q, k + 1);
        assert false;
      }
    } else if k < MAX_ORDER && FreeRun(o, p, k) {
      FreeRunInBlock(o, p, k);
      var b := o[p];
      if b.order == k {
        SameOrder(o, p, k);
      } else {
        BuddyHalves(p, k);
        var q := Parent(p, k);
        RunsNest(q, k + 1, b.head, b.order, p);
        assert forall i :: InRun(i, q, k + 1) ==> InRun(i, b.head, b.order);
        assert FreeRun(o, q, k + 1);
      }
    }
  }

  // History independence: two allocator states over databases of the same size with the
  // same free frames have the same free blocks of every order.
  lemma {:induction false} CanonicalForm(o1: Frames, o2: Frames)
    requires Partition(o1) && Coalesced(o1) && Partition(o2) && Coalesced(o2)
    requires |o1| == |o2| && FreeFrames(o1) == FreeFrames(o2)
    ensures forall p: nat, k: nat :: IsBlock(o1, p, k, Free) <==> IsBlock(o2, p, k, Free)
  {
    forall p: nat, k: nat
      ensures IsBlock(o1, p, k, Free) <==> IsBlock(o2, p, k, Free)
    {
      FreeRunByFrames(o1, o2, p, k);
      FreeRunByFrames(o1, o2, Parent(p, k), k + 1);
      FreeBlocksAreMaximalRuns(o1, p, k);
      FreeBlocksAreMaximalRuns(o2, p, k);
    }
  }

  // So the whole owner map is determined by the free frames and the owners of the others.
  lemma {:induction false} CanonicalFrames(o1: Frames, o2: Frames)
    requires Partition(o1) && Coalesced(o1) && Partition(o2) && Coalesced(o2)
    requires |o1| == |o2| && forall i :: 0 <= i < |o1| ==>
                                           o1[i] == o2[i] || (HasState(o1[i], Free) && HasState(o2[i], Free))
    ensures o1 == o2
  {
    assert FreeFrames(o1) == FreeFrames(o2);
    CanonicalForm(o1, o2);
    forall i | 0 <= i < |o1|
      ensures o1[i] == o2[i]
    {
      if HasState(o1[i], Free) {
        var b := o1[i];
        assert InRun(b.head, b.head, b.order);
        assert IsBlock(o1, b.head, b.order, Free);
        assert IsBlock(o2, b.head, b.order, Free);
        assert Whole(o2, b);
      }
    }
  }

  lemma {:induction false} FreeRunByFrames(o1: Frames, o2: Frames, p: nat, k: nat)
    requires |o1| == |o2| && FreeFrames(o1) == FreeFrames(o2)
    ensures FreeRun(o1, p, k) <==> FreeRun(o2, p, k)
  {
    forall i: nat | i < |o1|
      ensures HasState(o1[i], Free) <==> HasState(o2[i], Free)
    {
      assert i in FreeFrames(o1) <==> i in FreeFrames(o2);
    }
  }

  // A free run of 2^k frames exists exactly when some free block has order k or more.
  lemma {:induction false} FreeRunExists(o: Frames, k: nat)
    requires Partition(o) && Coalesced(o) && k < MAX_ORDER
    ensures (exists p: nat :: FreeRun(o, p, k)) <==> (exists p: nat, j: nat :: j >= k && IsBlock(o, p, j, Free))
  {
    if p: nat :| FreeRun(o, p, k) {
      assert InRun(p, p, k);
      FreeRunInBlock(o, p, k);
      var b := o[p];
      assert InRun(b.head, b.head, b.order);
      assert b.order >= k && IsBlock(o, b.head, b.order, Free);
    }
    if p: nat, j: nat :| j >= k && IsBlock(o, p, j, Free) {
      AlignedDown(p, k, j);
      Pow2Mono(k, j);
      assert FreeRun(o, p, k);
    }
  }

  // ---- Transitions ----

  ghost function Paint(o: Frames, h: nat, k: nat, b: Owner): (r: Frames)
    ensures |r| == |o|
    ensures forall i :: 0 <= i < |o| ==> r[i] == if InRun(i, h, k) then b else o[i]
  {
    seq(|o|, i requires 0 <= i < |o| => if InRun(i, h, k) then b else o[i])
  }

  // Every block that meets the run lies inside it.
  ghost predicate Closed(o: Frames, h: nat, k: nat) {
    forall i :: 0 <= i < |o| && InRun(i, h, k) && o[i].Block? ==>
                  h <= o[i].head && o[i].head + Pow2(o[i].order) <= h + Pow2(k)
  }

  lemma {:induction false} PaintPartition(o: Frames, h: nat, k: nat, s: State)
    requires Partition(o) && k < MAX_ORDER && Aligned(h, k) && h + Pow2(k) <= |o|
    requires Closed(o, h, k)
    ensures Partition(Paint(o, h, k, Block(h, k, s)))
  {
    var r := Paint(o, h, k, Block(h, k, s));
    forall i | 0 <= i < |r| && r[i].Block?
      ensures InRun(i, r[i].head, r[i].order) && Whole(r, r[i])
    {
      if !InRun(i, h, k) {
        forall j | InRun(j, r[i].head, r[i].order)
          ensures r[j] == r[i]
        {
          assert o[j] == o[i];
        }
      }
    }
  }

  lemma {:induction false} PaintFree(o: Frames, h: nat, k: nat)
    requires h + Pow2(k) <= |o|
    ensures FreeFrames(Paint(o, h, k, Block(h, k, Free))) == FreeFrames(o) + Run(h, k)
  {
  }

  lemma {:induction false} PaintUsed(o: Frames, h: nat, k: nat, s: State)
    requires s != Free
    ensures FreeFrames(Paint(o, h, k, Block(h, k, s))) == FreeFrames(o) - Run(h, k)
  {
  }

  lemma {:induction false} RunOfOne(h: nat)
    ensures Run(h, 0) == {h} && |Run(h, 0)| == 1
  {
    assert Pow2(0) == 1;
    assert forall i: nat :: i in Run(h, 0) <==> i in {h};
  }

  lemma {:induction false} SizesAdd(a: set<nat>, b: set<nat>)
    requires a !! b
    ensures |a + b| == |a| + |b|
  {
  }

  lemma {:induction false} RunSize(h: nat, k: nat)
    ensures |Run(h, k)| == Pow2(k)
    decreases k
  {
    if k == 0 {
      RunOfOne(h);
    } else {
      var q := h + Pow2(k - 1);
      RunSize(h, k - 1);
      RunSize(q, k - 1);
      forall i: nat
        ensures InRun(i, h, k) <==> InRun(i, h, k - 1) || InRun(i, q, k - 1)
      {
      }
      assert Run(h, k) == Run(h, k - 1) + Run(q, k - 1);
      SizesAdd(Run(h, k - 1), Run(q, k - 1));
    }
  }

  // One held block and no other.
  ghost predicate OnlyHeld(o: Frames, h: nat, k: nat) {
    && IsBlock(o, h, k, Held)
    && forall i :: 0 <= i < |o| && HasState(o[i], Held) ==> o[i] == Block(h, k, Held)
  }

  ghost predicate NoneHeld(o: Frames) {
    forall i :: 0 <= i < |o| ==> !HasState(o[i], Held)
  }

  // Live blocks stay as they are, and the reserved frames stay the same.
  ghost predicate KeepsOthers(o: Frames, r: Frames) {
    && |r| == |o|
    && (forall i :: 0 <= i < |o| && HasState(o[i], Live) ==> r[i] == o[i])
    && forall i :: 0 <= i < |o| ==> (r[i] == Reserved <==> o[i] == Reserved)
  }

  // Changing the state of a whole block.
  ghost function Retag(o: Frames, h: nat, k: nat, s: State): (r: Frames)
    ensures |r| == |o|
    ensures forall i :: 0 <= i < |o| ==> r[i] == if InRun(i, h, k) then Block(h, k, s) else o[i]
  {
    Paint(o, h, k, Block(h, k, s))
  }

  // Joining a held block with its free buddy.
  ghost function Merge(o: Frames, h: nat, k: nat): (r: Frames)
    ensures |r| == |o|
  {
    Paint(o, Parent(h, k), k + 1, Block(Parent(h, k), k + 1, Held))
  }

  // Freeing the upper half of a held block.
  ghost function Split(o: Frames, h: nat, k: nat): (r: Frames)
    ensures |r| == |o|
  {
    Paint(Paint(o, h, k, Block(h, k, Held)), h + Pow2(k), k, Block(h + Pow2(k), k, Free))
  }

  lemma {:induction false} RetagOk(o: Frames, h: nat, k: nat, t: State, s: State)
    requires Partition(o) && IsBlock(o, h, k, t)
    ensures Partition(Retag(o, h, k, s))
    ensures IsBlock(Retag(o, h, k, s), h, k, s)
    ensures s == Free ==> FreeFrames(Retag(o, h, k, s)) == FreeFrames(o) + Run(h, k)
    ensures s != Free ==> FreeFrames(Retag(o, h, k, s)) == FreeFrames(o) - Run(h, k)
    ensures t == Free ==> Run(h, k) <= FreeFrames(o)
    ensures t != Free ==> Run(h, k) !! FreeFrames(o)
  {
    assert InRun(h, h, k);
    PaintPartition(o, h, k, s);
    if s == Free {
      PaintFree(o, h, k);
    } else {
      PaintUsed(o, h, k, s);
    }
  }

  // Which heads a retagged block leaves.
  lemma {:induction false} RetagHeads(o: Frames, h: nat, k: nat, t: State, s: State, p: nat, j: nat, u: State)
    requires Partition(o) && IsBlock(o, h, k, t)
    ensures IsBlock(Retag(o, h, k, s), p, j, u) <==>
            if p == h then j == k && u == s else IsBlock(o, p, j, u)
  {
    assert InRun(h, h, k);
  }

  lemma {:induction false} MergeOk(o: Frames, h: nat, k: nat)
    requires Partition(o) && k + 1 < MAX_ORDER
    requires IsBlock(o, h, k, Held) && IsBlock(o, Buddy(h, k), k, Held)
    ensures Partition(Merge(o, h, k))
    ensures IsBlock(Merge(o, h, k), Parent(h, k), k + 1, Held)
    ensures FreeFrames(Merge(o, h, k)) == FreeFrames(o)
    ensures Run(Parent(h, k), k + 1) == Run(h, k) + Run(Buddy(h, k), k)
  {
    assert InRun(h, h, k) && InRun(Buddy(h, k), Buddy(h, k), k);
    BuddyHalves(h, k);
    var q := Parent(h, k);
    assert forall i :: InRun(i, q, k + 1) <==> InRun(i, h, k) || InRun(i, Buddy(h, k), k);
    PaintPartition(o, q, k + 1, Held);
    PaintUsed(o, q, k + 1, Held);
    assert forall i :: InRun(i, q, k + 1) ==> o[i].state == Held;
    assert FreeFrames(o) !! Run(q, k + 1);
  }

  lemma {:induction false} MergeHeads(o: Frames, h: nat, k: nat, p: nat, j: nat, u: State)
    requires Partition(o) && k + 1 < MAX_ORDER && u != Held
    requires IsBlock(o, h, k, Held) && IsBlock(o, Buddy(h, k), k, Held)
    ensures IsBlock(Merge(o, h, k), p, j, u) <==> IsBlock(o, p, j, u)
  {
    assert InRun(h, h, k) && InRun(Buddy(h, k), Buddy(h, k), k);
    BuddyHalves(h, k);
    var q := Parent(h, k);
    assert forall i :: InRun(i, q, k + 1) <==> InRun(i, h, k) || InRun(i, Buddy(h, k), k);
  }

  lemma {:induction false} SplitOk(o: Frames, h: nat, k: nat)
    requires Partition(o) && IsBlock(o, h, k + 1, Held)
    ensures var q := h + Pow2(k);
            && q < |o|
            && Partition(Split(o, h, k))
            && IsBlock(Split(o, h, k), h, k, Held) && IsBlock(Split(o, h, k), q, k, Free)
            && FreeFrames(Split(o, h, k)) == FreeFrames(o) + Run(q, k)
            && Run(h, k + 1) == Run(h, k) + Run(q, k)
  {
    var q := h + Pow2(k);
    var r := Split(o, h, k);
    assert InRun(h, h, k + 1);
    HalvesAligned(h, k);
    forall i
      ensures InRun(i, h, k + 1) <==> InRun(i, h, k) || InRun(i, q, k)
      ensures !(InRun(i, h, k) && InRun(i, q, k))
    {
    }
    forall i | 0 <= i < |r| && r[i].Block?
      ensures InRun(i, r[i].head, r[i].order) && Whole(r, r[i])
    {
      if InRun(i, h, k + 1) {
      } else {
        assert o[i] == r[i];
        forall j | InRun(j, r[i].head, r[i].order)
          ensures r[j] == r[i]
        {
          assert o[j] == o[i];
        }
      }
    }
    assert forall i :: InRun(i, h, k + 1) ==> o[i].state == Held;
  }

  lemma {:induction false} SplitHeads(o: Frames, h: nat, k: nat, p: nat, j: nat, u: State)
    requires Partition(o) && IsBlock(o, h, k + 1, Held) && u != Held
    ensures var q := h + Pow2(k);
            IsBlock(Split(o, h, k), p, j, u) <==> if p == q then j == k && u == Free else IsBlock(o, p, j, u)
  {
    var q := h + Pow2(k);
    assert InRun(h, h, k + 1) && InRun(q, h, k + 1) && InRun(q, q, k);
    forall i
      ensures InRun(i, h, k + 1) <==> InRun(i, h, k) || InRun(i, q, k)
    {
    }
  }

  // ---- Conservation ----

  // Total size of the blocks in state s whose head is below n.
  ghost function Sizes(o: Frames, s: State, n: nat): nat
    requires n <= |o|
  {
    if n == 0 then 0
    else Sizes(o, s, n - 1) + if IsHead(o, n - 1, s) then Pow2(o[n - 1].order) else 0
  }

  ghost predicate IsHead(o: Frames, p: nat, s: State) {
    p < |o| && HasState(o[p], s) && o[p].head == p
  }

  ghost function FramesBelow(o: Frames, s: State, n: nat): set<nat> {
    set i: nat | i < |o| && HasState(o[i], s) && o[i].head < n
  }

  lemma {:induction false} FramesBelowStep(o: Frames, s: State, h: nat)
    requires Partition(o) && h < |o|
    ensures |FramesBelow(o, s, h + 1)| ==
            |FramesBelow(o, s, h)| + if IsHead(o, h, s) then Pow2(o[h].order) else 0
  {
    if IsHead(o, h, s) {
      RunSize(h, o[h].order);
      assert forall i :: InRun(i, h, o[h].order) ==> o[i] == o[h];
      assert FramesBelow(o, s, h + 1) == FramesBelow(o, s, h) + Run(h, o[h].order);
      assert FramesBelow(o, s, h) !! Run(h, o[h].order);
    } else {
      forall i: nat | i in FramesBelow(o, s, h + 1)
        ensures i in FramesBelow(o, s, h)
      {
        assert InRun(o[i].head, o[i].head, o[i].order);
      }
      assert FramesBelow(o, s, h + 1) == FramesBelow(o, s, h);
    }
  }

  lemma {:induction false} SizesCount(o: Frames, s: State, n: nat)
    requires Partition(o) && n <= |o|
    ensures Sizes(o, s, n) == |FramesBelow(o, s, n)|
  {
    if n == 0 {
      assert FramesBelow(o, s, n) == {};
    } else {
      SizesCount(o, s, n - 1);
      FramesBelowStep(o, s, n - 1);
    }
  }

  ghost function OwnedFrames(o: Frames): set<nat> {
    set i: nat | i < |o| && o[i].Block?
  }

  // Free frames plus the sizes of the live blocks are all the frames that are not reserved.
  lemma {:induction false} Conservation(o: Frames)
    requires Partition(o) && NoneHeld(o)
    ensures |FreeFrames(o)| + Sizes(o, Live, |o|) == |OwnedFrames(o)|
    ensures |FreeFrames(o)| == Sizes(o, Free, |o|)
  {
    SizesCount(o, Live, |o|);
    SizesCount(o, Free, |o|);
    assert FramesBelow(o, Live, |o|) == FramesIn(o, Live);
    assert FramesBelow(o, Free, |o|) == FramesIn(o, Free);
    assert FramesIn(o, Free) + FramesIn(o, Live) == OwnedFrames(o);
    assert FramesIn(o, Free) !! FramesIn(o, Live);
  }
}
