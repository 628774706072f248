/** The page descriptors and the intrusive doubly linked lists threaded through them. */
module FreeLists {

  // A pointer into the page database, as the index of the descriptor.
  datatype Link = Null | To(pfn: nat)

  // The three bits of page flags.
  datatype Flags = Flags(free: bool, reserved: bool, used: bool)

  const PAGE_FREE := Flags(true, false, false)
  const PAGE_RESERVED := Flags(false, true, false)
  const PAGE_USED := Flags(false, false, true)

  datatype Page = Page(flags: Flags, order: nat, next: Link, prev: Link)

  datatype FreeList = FreeList(head: Link, count: nat)

  function LinkAt(list: seq<nat>, i: int): Link {
    if 0 <= i < |list| then To(list[i]) else Null
  }

  ghost predicate Distinct(list: seq<nat>) {
    forall i, j :: 0 <= i < j < |list| ==> list[i] != list[j]
  }

  // The i-th page of the list points to its neighbours in the list.
  ghost predicate NodeOk(pages: seq<Page>, list: seq<nat>, i: nat) {
    i < |list| ==>
      && list[i] < |pages|
      && pages[list[i]].prev == LinkAt(list, i - 1)
      && pages[list[i]].next == LinkAt(list, i + 1)
  }

  // Following next from the head visits the list and stops; prev runs back along it.
  ghost predicate Linked(pages: seq<Page>, fl: FreeList, list: seq<nat>) {
    && Distinct(list)
    && fl.head == LinkAt(list, 0)
    && fl.count == |list|
    && forall i: nat :: NodeOk(pages, list, i)
  }

  // What linking page p before the list head writes to the descriptors.
  function PushPages(pages: seq<Page>, head: Link, p: nat): (r: seq<Page>)
    requires p < |pages| && (head.To? ==> head.pfn < |pages|)
  {
    var q := pages[p := pages[p].(next := head, prev := Null)];
    if head.To? then q[head.pfn := q[head.pfn].(prev := To(p))] else q
  }

  // What unlinking page p writes to the descriptors.
  function RemovePages(pages: seq<Page>, p: nat): (r: seq<Page>)
    requires p < |pages|
    requires pages[p].prev.To? ==> pages[p].prev.pfn < |pages|
    requires pages[p].next.To? ==> pages[p].next.pfn < |pages|
  {
    var prev, next := pages[p].prev, pages[p].next;
    var q := if prev.To? then pages[prev.pfn := pages[prev.pfn].(next := next)] else pages;
    var r := if next.To? then q[next.pfn := q[next.pfn].(prev := prev)] else q;
    r[p := r[p].(next := Null, prev := Null)]
  }

  // Same flags and orders everywhere, same links except of p and the pages of one list.
  ghost predicate SameBut(pages: seq<Page>, r: seq<Page>, list: seq<nat>, p: nat) {
    && |r| == |pages|
    && forall i :: 0 <= i < |pages| ==>
                     && r[i].flags == pages[i].flags && r[i].order == pages[i].order
                     && (i != p && i !in list ==> r[i] == pages[i])
  }

  lemma {:induction false} PushWrites(pages: seq<Page>, head: Link, p: nat)
    requires p < |pages| && head != To(p) && (head.To? ==> head.pfn < |pages|)
    ensures var r := PushPages(pages, head, p);
            |r| == |pages| && forall i :: 0 <= i < |r| ==>
              r[i] == if i == p then pages[i].(next := head, prev := Null)
                      else if head == To(i) then pages[i].(prev := To(p)) else pages[i]
  {
  }

  lemma {:induction false} PushLinked(pages: seq<Page>, fl: FreeList, list: seq<nat>, p: nat)
    requires Linked(pages, fl, list) && p < |pages| && p !in list
    ensures fl.head.To? ==> fl.head.pfn < |pages|
    ensures Linked(PushPages(pages, fl.head, p), FreeList(To(p), fl.count + 1), [p] + list)
    ensures SameBut(pages, PushPages(pages, fl.head, p), list, p)
  {
    assert NodeOk(pages, list, 0);
    PushWrites(pages, fl.head, p);
    var r := PushPages(pages, fl.head, p);
    var l := [p] + list;
    forall i: nat
      ensures NodeOk(r, l, i)
    {
      if 0 < i < |l| {
        assert NodeOk(pages, list, i - 1);
        assert l[i] == list[i - 1];
      }
    }
  }

  lemma {:induction false} RemoveWrites(pages: seq<Page>, p: nat, prev: Link, next: Link)
    requires p < |pages| && prev == pages[p].prev && next == pages[p].next
    requires prev != To(p) && next != To(p) && (prev.To? ==> prev != next)
    requires (prev.To? ==> prev.pfn < |pages|) && (next.To? ==> next.pfn < |pages|)
    ensures var r := RemovePages(pages, p);
            |r| == |pages| && forall i :: 0 <= i < |r| ==>
              r[i] == if i == p then pages[i].(next := Null, prev := Null)
                      else if prev == To(i) then pages[i].(next := next)
                      else if next == To(i) then pages[i].(prev := prev) else pages[i]
  {
  }

  ghost function Without(list: seq<nat>, m: nat): (l: seq<nat>)
    requires m < |list|
    ensures |l| == |list| - 1
    ensures forall i :: 0 <= i < |l| ==> l[i] == if i < m then list[i] else list[i + 1]
  {
    list[..m] + list[m + 1..]
  }

  lemma {:induction false} RemoveLinked(pages: seq<Page>, fl: FreeList, list: seq<nat>, m: nat)
    requires Linked(pages, fl, list) && m < |list|
    ensures list[m] < |pages|
    ensures var pg := pages[list[m]];
            && pg.prev == LinkAt(list, m - 1) && pg.next == LinkAt(list, m + 1)
            && (pg.prev.To? ==> pg.prev.pfn < |pages|)
            && (pg.next.To? ==> pg.next.pfn < |pages|)
            && fl.count > 0
            && Linked(RemovePages(pages, list[m]),
                      FreeList(if pg.prev.To? then fl.head else pg.next, fl.count - 1), Without(list, m))
    ensures SameBut(pages, RemovePages(pages, list[m]), list, list[m])
  {
    var p := list[m];
    var prev, next := LinkAt(list, m - 1), LinkAt(list, m + 1);
    assert NodeOk(pages, list, m);
    assert m > 0 ==> NodeOk(pages, list, m - 1);
    assert NodeOk(pages, list, m + 1);
    assert m > 0 ==> list[m - 1] != p;
    assert m + 1 < |list| ==> list[m + 1] != p && (m > 0 ==> list[m - 1] != list[m + 1]);
    RemoveWrites(pages, p, prev, next);
    var r := RemovePages(pages, p);
    var l := Without(list, m);
    forall i: nat
      ensures NodeOk(r, l, i)
    {
      if i < |l| {
        WithoutLinks(list, m, i);
        assert NodeOk(pages, list, if i < m then i else i + 1);
        assert prev == To(l[i]) <==> i == m - 1;
        assert next == To(l[i]) <==> i == m;
      }
    }
  }

  lemma {:induction false} WithoutLinks(list: seq<nat>, m: nat, i: nat)
    requires m < |list| && i < |list| - 1 && Distinct(list)
    ensures var l := Without(list, m); var x := if i < m then i else i + 1;
            && l[i] == list[x] && l[i] != list[m]
            && LinkAt(l, i - 1) == (if i == m then LinkAt(list, m - 1) else LinkAt(list, x - 1))
            && LinkAt(l, i + 1) == (if i + 1 == m then LinkAt(list, m + 1) else LinkAt(list, x + 1))
  {
  }

  lemma {:induction false} LinkedFrame(pages: seq<Page>, r: seq<Page>, fl: FreeList, list: seq<nat>)
    requires Linked(pages, fl, list) && |r| == |pages|
    requires forall p: nat :: p in list && p < |pages| ==> r[p].next == pages[p].next && r[p].prev == pages[p].prev
    ensures Linked(r, fl, list)
  {
    forall i: nat
      ensures NodeOk(r, list, i)
    {
      assert NodeOk(pages, list, i);
    }
  }

  // All the lists at once: each one linked, none sharing a page with another.
  ghost predicate AllLinked(pages: seq<Page>, fls: seq<FreeList>, lists: seq<seq<nat>>) {
    && |fls| == |lists|
    && (forall k :: 0 <= k < |lists| ==> Linked(pages, fls[k], lists[k]))
    && forall j, k, p :: 0 <= j < |lists| && 0 <= k < |lists| && p in lists[j] && p in lists[k] ==> j == k
  }

  ghost predicate Unlisted(lists: seq<seq<nat>>, p: nat) {
    forall k :: 0 <= k < |lists| ==> p !in lists[k]
  }

  lemma {:induction false} PushAll(pages: seq<Page>, fls: seq<FreeList>, lists: seq<seq<nat>>, k: nat, p: nat)
    requires AllLinked(pages, fls, lists) && k < |lists| && p < |pages| && Unlisted(lists, p)
    ensures fls[k].head.To? ==> fls[k].head.pfn < |pages|
    ensures AllLinked(PushPages(pages, fls[k].head, p), fls[k := FreeList(To(p), fls[k].count + 1)],
                      lists[k := [p] + lists[k]])
    ensures SameBut(pages, PushPages(pages, fls[k].head, p), lists[k], p)
  {
    PushLinked(pages, fls[k], lists[k], p);
    var r := PushPages(pages, fls[k].head, p);
    forall j | 0 <= j < |lists| && j != k
      ensures Linked(r, fls[j], lists[j])
    {
      LinkedFrame(pages, r, fls[j], lists[j]);
    }
  }

  lemma {:induction false} RemoveAll(pages: seq<Page>, fls: seq<FreeList>, lists: seq<seq<nat>>, k: nat, m: nat)
    requires AllLinked(pages, fls, lists) && k < |lists| && m < |lists[k]|
    ensures lists[k][m] < |pages|
    ensures var p := lists[k][m]; var pg := pages[p];
            && (pg.prev.To? ==> pg.prev.pfn < |pages|)
            && (pg.next.To? ==> pg.next.pfn < |pages|)
            && fls[k].count > 0
            && var fl := FreeList(if pg.prev.To? then fls[k].head else pg.next, fls[k].count - 1);
               AllLinked(RemovePages(pages, p), fls[k := fl], lists[k := Without(lists[k], m)])
    ensures SameBut(pages, RemovePages(pages, lists[k][m]), lists[k], lists[k][m])
  {
    RemoveLinked(pages, fls[k], lists[k], m);
    var r := RemovePages(pages, lists[k][m]);
    forall j | 0 <= j < |lists| && j != k
      ensures Linked(r, fls[j], lists[j])
    {
      LinkedFrame(pages, r, fls[j], lists[j]);
    }
  }

  lemma {:induction false} WriteUnlisted(pages: seq<Page>, fls: seq<FreeList>, lists: seq<seq<nat>>, p: nat, page: Page)
    requires AllLinked(pages, fls, lists) && p < |pages| && Unlisted(lists, p)
    ensures AllLinked(pages[p := page], fls, lists)
  {
    forall j | 0 <= j < |lists|
      ensures Linked(pages[p := page], fls[j], lists[j])
    {
      LinkedFrame(pages, pages[p := page], fls[j], lists[j]);
    }
  }

  ghost function IndexOf(list: seq<nat>, p: nat): (m: nat)
    requires p in list
    ensures m < |list| && list[m] == p
  {
    var m: nat :| m < |list| && list[m] == p;
    m
  }
}
