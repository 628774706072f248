/** What paging_init leaves behind, address by address: which addresses of the direct map and
    of the kernel image it makes translate, to what, and which addresses it leaves alone.
    Everything here is said of bytes; the rounding to pages is the builder's own affair. */
module KernelMap {
  import opened Machine
  import opened Bits
  import opened Sv
  import opened Pte
  import opened PageTables
  import Db = PfnDatabase

  // Address a lies in one of the pages that hold the bytes from lo up to hi.
  predicate OnPages(lo: nat, hi: nat, a: nat) {
    lo / 4096 <= a / 4096 && a / 4096 * 4096 < hi
  }

  lemma {:induction false} ByteOnPages(lo: nat, hi: nat, a: nat)
    requires lo <= a < hi
    ensures OnPages(lo, hi, a)
  {
  }

  // The virtual address leads to the page of the physical one.
  predicate Shows(t: Translation, phys: int) {
    t.Page? && t.ppn == phys / 4096
  }

  // All addresses of a page translate alike.
  lemma {:induction false} SamePage(mem: Memory, root: nat, levels: nat, a: nat, b: nat)
    requires 3 <= levels <= 5 && a / PAGE_SIZE == b / PAGE_SIZE
    ensures Translate(mem, root, levels, a) == Translate(mem, root, levels, b)
  {
    ShrAdd(a, 12, 9 * levels - 1);
    ShrAdd(b, 12, 9 * levels - 1);
    ShrConstants(a);
    ShrConstants(b);
  }

  // ---- Ranges ----

  // A mapped range shows the bytes from pa at the addresses from va.
  lemma {:induction false} RangeShows(mem: Memory, root: nat, levels: nat, va: nat, pa: nat, n: nat, flags: nat, d: nat)
    requires 3 <= levels <= 5 && va % PAGE_SIZE == 0 && d < n * PAGE_SIZE
    requires MapsRange(mem, root, levels, va, pa, n, flags)
    ensures var t := Translate(mem, root, levels, va + d); Shows(t, pa + d) && Names(t.flags, flags)
  {
    var k := d / PAGE_SIZE;
    assert MapsNth(mem, root, levels, va, pa, k, flags);
    SamePage(mem, root, levels, va + d, va + k * PAGE_SIZE);
  }

  // ---- The direct map ----

  // Every byte of every entry, whatever its type, can be read and written at its
  // direct-map address.
  ghost predicate DirectMapShown(mem: Memory, root: nat, levels: nat, memmap: seq<Db.Entry>, hhdm: nat)
    requires 3 <= levels <= 5
  {
    forall i: nat, a: nat :: i < |memmap| && memmap[i].base <= a < memmap[i].base + memmap[i].length ==>
                               ShownForWriting(mem, root, levels, hhdm, a)
  }

  ghost predicate ShownForWriting(mem: Memory, root: nat, levels: nat, hhdm: nat, a: nat)
    requires 3 <= levels <= 5
  {
    var t := Translate(mem, root, levels, hhdm + a);
    Shows(t, a) && Bit(t.flags, R) && Bit(t.flags, W)
  }

  lemma {:induction false} DirectMapCovers(mem: Memory, root: nat, levels: nat, memmap: seq<Db.Entry>, hhdm: nat)
    requires 3 <= levels <= 5 && HhdmMapped(mem, root, levels, memmap, hhdm, |memmap|)
    ensures DirectMapShown(mem, root, levels, memmap, hhdm)
  {
    forall i: nat, a: nat | i < |memmap| && memmap[i].base <= a < memmap[i].base + memmap[i].length
      ensures ShownForWriting(mem, root, levels, hhdm, a)
    {
      assert ExtentMapped(mem, root, levels, memmap[i], hhdm);
      EntryShown(mem, root, levels, memmap[i], hhdm, a);
    }
  }

  lemma {:induction false} EntryShown(mem: Memory, root: nat, levels: nat, e: Db.Entry, hhdm: nat, a: nat)
    requires 3 <= levels <= 5 && ExtentMapped(mem, root, levels, e, hhdm) && OnPages(e.base, e.base + e.length, a)
    ensures ShownForWriting(mem, root, levels, hhdm, a)
  {
    var p := a / PAGE_SIZE * PAGE_SIZE;
    PageAt(e, hhdm, a, p);
    PageInExtent(mem, root, levels, e, hhdm, p);
    SamePage(mem, root, levels, hhdm + a, hhdm + p);
    AsksForBoth();
  }

  lemma {:induction false} PageAt(e: Db.Entry, hhdm: nat, a: nat, p: nat)
    requires OnPages(e.base, e.base + e.length, a) && p == a / PAGE_SIZE * PAGE_SIZE
    ensures p % PAGE_SIZE == 0 && p / PAGE_SIZE == a / PAGE_SIZE && InExtent(e, hhdm, hhdm + p) && PageStart(e) < PageEnd(e)
    ensures hhdm % PAGE_SIZE == 0 ==> (hhdm + a) / PAGE_SIZE == (hhdm + p) / PAGE_SIZE
  {
  }

  lemma {:induction false} AsksForBoth()
    ensures Reads(PROT_RWG) && Writes(PROT_RWG)
  {
  }

  // ---- The kernel image ----

  // Every byte of every segment leads to its place in the loaded image; its page has the
  // access the segment asks for, or the last segment on that page.
  ghost predicate ImageShown(mem: Memory, root: nat, levels: nat, segs: seq<Segment>, phys: nat, virt: nat)
    requires 3 <= levels <= 5
  {
    forall i: nat, a: nat :: i < |segs| && segs[i].start <= a < segs[i].end ==>
                               ShownInSegment(mem, root, levels, segs, phys, virt, i, a)
  }

  ghost predicate ShownInSegment(mem: Memory, root: nat, levels: nat, segs: seq<Segment>, phys: nat, virt: nat, i: nat, a: nat)
    requires 3 <= levels <= 5 && i < |segs|
  {
    var t := Translate(mem, root, levels, a);
    && Shows(t, phys + a - virt)
    && ((forall j :: i < j < |segs| ==> !OnPages(segs[j].start, segs[j].end, a)) ==> Names(t.flags, segs[i].flags))
  }

  // Where the builder's page v of a segment leads, in plain arithmetic.
  lemma {:induction false} PlaceInImage(g: Segment, x: LoadAddress, levels: nat, t: Translation, v: nat, a: nat)
    requires levels <= 5 && x.Loaded? && SegmentOk(g, x, levels) && InSegment(g, v) && v == a / PAGE_SIZE * PAGE_SIZE
    requires t.Page? && t.ppn * PAGE_SIZE == LoadPhys(x, v)
    ensures Shows(t, x.phys + a - x.virt)
  {
    LoadOffset(x, v);
    assert x.phys + a - x.virt == t.ppn * PAGE_SIZE + a % PAGE_SIZE;
  }

  lemma {:induction false} PageOfSegment(g: Segment, a: nat)
    ensures InSegment(g, a / PAGE_SIZE * PAGE_SIZE) <==> OnPages(g.start, g.end, a)
    ensures InSegment(g, a) <==> OnPages(g.start, g.end, a)
  {
  }

  // One segment by itself.
  lemma {:induction false} SegmentCovers(mem: Memory, root: nat, levels: nat, g: Segment, x: LoadAddress, a: nat)
    requires 3 <= levels <= 5 && x.Loaded? && SegmentOk(g, x, levels) && SegmentMapped(mem, root, levels, g, x)
    requires OnPages(g.start, g.end, a)
    ensures var t := Translate(mem, root, levels, a); Shows(t, x.phys + a - x.virt) && Names(t.flags, g.flags)
  {
    var v := a / PAGE_SIZE * PAGE_SIZE;
    PageOfSegment(g, a);
    PageInSegment(mem, root, levels, g, x, v);
    PlaceInImage(g, x, levels, Translate(mem, root, levels, v), v, a);
    SamePage(mem, root, levels, a, v);
  }

  lemma {:induction false} ImageCovers(mem: Memory, root: nat, levels: nat, segs: seq<Segment>, x: LoadAddress)
    requires 3 <= levels <= 5 && x.Loaded? && SegmentsMapped(mem, root, levels, segs, x, |segs|)
    requires forall i :: 0 <= i < |segs| ==> SegmentOk(segs[i], x, levels)
    ensures ImageShown(mem, root, levels, segs, x.phys, x.virt)
  {
    forall i: nat, a: nat | i < |segs| && segs[i].start <= a < segs[i].end
      ensures ShownInSegment(mem, root, levels, segs, x.phys, x.virt, i, a)
    {
      ByteInImage(mem, root, levels, segs, x, i, a);
    }
  }

  lemma {:induction false} ByteInImage(mem: Memory, root: nat, levels: nat, segs: seq<Segment>, x: LoadAddress, i: nat, a: nat)
    requires 3 <= levels <= 5 && x.Loaded? && SegmentsMapped(mem, root, levels, segs, x, |segs|)
    requires i < |segs| && SegmentOk(segs[i], x, levels) && OnPages(segs[i].start, segs[i].end, a)
    ensures ShownInSegment(mem, root, levels, segs, x.phys, x.virt, i, a)
  {
    var v := a / PAGE_SIZE * PAGE_SIZE;
    PageOfSegment(segs[i], a);
    assert SegmentPageMapped(mem, root, levels, segs, x, |segs|, i, v);
    PlaceInImage(segs[i], x, levels, Translate(mem, root, levels, v), v, a);
    SamePage(mem, root, levels, a, v);
    if forall j :: i < j < |segs| ==> !OnPages(segs[j].start, segs[j].end, a) {
      forall j: nat | i + 1 <= j < |segs|
        ensures !InSegment(segs[j], v)
      {
        PageOfSegment(segs[j], a);
      }
      assert OffSegments(segs, i + 1, |segs|, v);
    }
  }

  // ---- What is left alone ----

  // No page of the memory map at its direct-map address, and none of a segment.
  predicate Elsewhere(memmap: seq<Db.Entry>, hhdm: nat, segs: seq<Segment>, b: nat) {
    && (forall i :: 0 <= i < |memmap| && hhdm <= b ==> !OnPages(memmap[i].base, memmap[i].base + memmap[i].length, b - hhdm))
    && (forall j :: 0 <= j < |segs| ==> !OnPages(segs[j].start, segs[j].end, b))
  }

  lemma {:induction false} ElsewhereKept(mem: Memory, mem': Memory, root: nat, levels: nat, memmap: seq<Db.Entry>, hhdm: nat,
                                         segs: seq<Segment>, b: nat)
    requires 3 <= levels <= 5 && SameElsewhere(mem, mem', root, levels, memmap, hhdm, segs) && Elsewhere(memmap, hhdm, segs, b)
    ensures Translate(mem', root, levels, b) == Translate(mem, root, levels, b)
  {
    forall i: nat | i < |memmap|
      ensures !InExtent(memmap[i], hhdm, b)
    {
      if hhdm <= b {
        PageOfEntry(memmap[i], hhdm, b);
      }
    }
    forall j: nat | j < |segs|
      ensures !InSegment(segs[j], b)
    {
      PageOfSegment(segs[j], b);
    }
    assert OffHhdm(memmap, hhdm, |memmap|, b) && OffSegments(segs, 0, |segs|, b);
  }

  lemma {:induction false} PageOfEntry(e: Db.Entry, hhdm: nat, b: nat)
    requires hhdm <= b
    ensures InExtent(e, hhdm, b) <==> OnPages(e.base, e.base + e.length, b - hhdm)
  {
  }
}
