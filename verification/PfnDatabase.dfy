/** Construction of the page database, kernel/src/mm/pfndb.c. */
module PfnDatabase {
  import opened Machine
  import opened FreeLists

  const PAGE_STRUCT_SIZE: nat := 24  // sizeof(page_t): flags, order, padding, two pointers

  datatype Entry = Entry(base: nat, length: nat, usable: bool)

  function StartPfn(e: Entry): nat {
    e.base / PAGE_SIZE
  }

  function EndPfn(e: Entry): nat {
    AlignUp((e.base + e.length) % WORD) / PAGE_SIZE
  }

  // Adding base and length, and rounding up, stays within 64 bits.
  predicate Fits(e: Entry) {
    e.base + e.length + PAGE_SIZE <= WORD
  }

  // The entry covers page frame pfn, whole or in part.
  predicate Covers(e: Entry, pfn: nat) {
    e.usable && e.length != 0 && StartPfn(e) <= pfn < EndPfn(e)
  }

  // That is, one of its bytes lies in that frame.
  lemma {:induction false} CoversBytes(e: Entry, pfn: nat)
    requires Fits(e)
    ensures Covers(e, pfn) <==> e.usable && exists a: nat :: e.base <= a < e.base + e.length && InFrame(a, pfn)
  {
    if Covers(e, pfn) {
      var a := if e.base < pfn * PAGE_SIZE then pfn * PAGE_SIZE else e.base;
      assert InFrame(a, pfn);
    }
  }

  predicate InFrame(a: nat, pfn: nat) {
    pfn * 4096 <= a < pfn * 4096 + 4096
  }

  // The frame behind the entry is the first one above its last byte.
  lemma {:induction false} EndPfnIsNext(e: Entry)
    requires Fits(e)
    ensures e.base + e.length <= EndPfn(e) * 4096 < e.base + e.length + 4096
  {
  }

  ghost predicate UsableIn(entries: seq<Entry>, n: nat, pfn: nat) {
    exists i: nat :: i < n && i < |entries| && Covers(entries[i], pfn)
  }

  ghost predicate Usable(entries: seq<Entry>, pfn: nat) {
    UsableIn(entries, |entries|, pfn)
  }

  // The last page frame of the map: the last one any usable entry touches, or 0.
  function MaxPfn(entries: seq<Entry>): nat {
    if entries == [] then 0
    else
      var e, before := entries[|entries| - 1], MaxPfn(entries[..|entries| - 1]);
      if e.usable && EndPfn(e) > before + 1 then EndPfn(e) - 1 else before
  }

  // It is the largest last frame of a usable entry.
  lemma {:induction false} MaxPfnIsLargest(entries: seq<Entry>)
    ensures forall i :: 0 <= i < |entries| && entries[i].usable ==> EndPfn(entries[i]) <= MaxPfn(entries) + 1
    ensures MaxPfn(entries) == 0
            || exists i :: 0 <= i < |entries| && entries[i].usable && EndPfn(entries[i]) == MaxPfn(entries) + 1
  {
    if entries != [] {
      var init := entries[..|entries| - 1];
      MaxPfnIsLargest(init);
      if MaxPfn(entries) == MaxPfn(init) != 0 {
        var i :| 0 <= i < |init| && init[i].usable && EndPfn(init[i]) == MaxPfn(init) + 1;
        assert entries[i] == init[i];
      }
      forall i | 0 <= i < |entries| && entries[i].usable
        ensures EndPfn(entries[i]) <= MaxPfn(entries) + 1
      {
        assert i < |init| ==> entries[i] == init[i];
      }
    }
  }

  lemma {:induction false} UsableBelowMax(entries: seq<Entry>, pfn: nat)
    requires Usable(entries, pfn)
    ensures pfn <= MaxPfn(entries)
  {
    MaxPfnIsLargest(entries);
  }

  lemma {:induction false} MaxPfnBound(entries: seq<Entry>)
    requires forall e :: e in entries && e.usable ==> Fits(e)
    ensures MaxPfn(entries) < WORD / PAGE_SIZE
  {
    if entries != [] {
      MaxPfnBound(entries[..|entries| - 1]);
      assert entries[|entries| - 1] in entries;
    }
  }

  function StorageSize(maxPfn: nat): nat {
    AlignUp((maxPfn + 1) * PAGE_STRUCT_SIZE)
  }

  // Entry i is the first usable one that can hold size bytes.
  predicate FirstFit(entries: seq<Entry>, size: nat, i: nat) {
    && i < |entries| && entries[i].usable && entries[i].length >= size
    && forall j :: 0 <= j < i ==> !entries[j].usable || entries[j].length < size
  }

  function Carve(e: Entry, size: nat): Entry
    requires e.length >= size
  {
    e.(base := e.base + size, length := e.length - size)
  }

  // The database goes to the first entry with room for it; the code takes base 0 for failure.
  predicate Bootable(m: seq<Entry>, i: nat) {
    FirstFit(m, StorageSize(MaxPfn(m)), i) && m[i].base != 0
  }

  // Cutting takes away the first bytes and leaves all others.
  lemma {:induction false} CarvedBytes(e: Entry, size: nat, a: nat)
    requires e.length >= size
    ensures var r := Carve(e, size);
            && r.usable == e.usable
            && (r.base <= a < r.base + r.length <==> e.base <= a < e.base + e.length && !(e.base <= a < e.base + size))
  {
  }

  // A map with ample memory from address 0 on, on which the database is not built.
  lemma {:induction false} BaseZeroFails()
    ensures var m := [Entry(0, 0x10_0000, true), Entry(0x20_0000, 0x10_0000, true)];
            && Sane(m) && FirstFit(m, StorageSize(MaxPfn(m)), 0) && m[1].length >= StorageSize(MaxPfn(m))
            && forall i: nat :: !Bootable(m, i)
  {
    var m := [Entry(0, 0x10_0000, true), Entry(0x20_0000, 0x10_0000, true)];
    assert m[..1] == [m[0]] && m[..1][..0] == [];
    assert MaxPfn(m[..1]) == 0xff;
    assert MaxPfn(m) == 0x2ff;
  }

  lemma {:induction false} UsableNext(entries: seq<Entry>, n: nat, pfn: nat)
    requires n < |entries|
    ensures UsableIn(entries, n + 1, pfn) <==> UsableIn(entries, n, pfn) || Covers(entries[n], pfn)
  {
    if i: nat :| i < n + 1 && i < |entries| && Covers(entries[i], pfn) {
      assert i < n ==> UsableIn(entries, n, pfn);
    }
  }

  class PfnDb {
    var db: array?<Page>
    var phys: nat
    var maxPfn: nat

    constructor ()
      ensures db == null && phys == 0 && maxPfn == 0
    {
      db, phys, maxPfn := null, 0, 0;
    }

    method CalcMaxPfn(memmap: array<Entry>)
      modifies this`maxPfn
      ensures maxPfn == MaxPfn(memmap[..])
    {
      maxPfn := 0;
      for i := 0 to memmap.Length
        invariant maxPfn == MaxPfn(memmap[..i])
      {
        var e := memmap[i];
        assert memmap[..i + 1][..i] == memmap[..i];
        if e.usable {
          var endPfn := EndPfn(e);
          if endPfn != 0 && endPfn - 1 > maxPfn {
            maxPfn := endPfn - 1;
          }
        }
      }
      assert memmap[..memmap.Length] == memmap[..];
    }

    method ReserveStorage(memmap: array<Entry>)
      modifies this`phys, memmap
      ensures var size := StorageSize(maxPfn); var m := old(memmap[..]);
              && (forall i: nat :: FirstFit(m, size, i) ==>
                                     phys == m[i].base && memmap[..] == m[i := Carve(m[i], size)])
              && ((forall i: nat :: !FirstFit(m, size, i)) ==> phys == old(phys) && memmap[..] == m)
    {
      var size := StorageSize(maxPfn);
      for i := 0 to memmap.Length
        invariant memmap[..] == old(memmap[..]) && phys == old(phys)
        invariant forall j :: 0 <= j < i ==> !memmap[j].usable || memmap[j].length < size
      {
        if !memmap[i].usable || memmap[i].length < size {
          continue;
        }
        assert FirstFit(old(memmap[..]), size, i);
        phys := memmap[i].base;
        memmap[i] := Carve(memmap[i], size);
        return;
      }
    }

    method MarkRange(base: nat, length: nat, flags: Flags)
      requires base < WORD && length < WORD
      requires db != null ==> db.Length == maxPfn + 1
      modifies db
      ensures db != null ==> forall p :: 0 <= p < db.Length ==>
                db[p] == if Covers(Entry(base, length, true), p) then Page(flags, 0, Null, Null) else old(db[p])
    {
      var e := Entry(base, length, true);
      var startPfn, endPfn := StartPfn(e), EndPfn(e);
      if db == null || length == 0 {
        return;
      }
      if startPfn > maxPfn {
        return;
      }
      if endPfn > maxPfn + 1 {
        endPfn := maxPfn + 1;
      }
      var pfn := startPfn;
      while pfn < endPfn
        invariant startPfn <= pfn
        invariant pfn <= endPfn || endPfn < startPfn
        invariant forall p :: 0 <= p < db.Length ==>
                    db[p] == if startPfn <= p < pfn && p < endPfn then Page(flags, 0, Null, Null) else old(db[p])
      {
        db[pfn] := Page(flags, 0, Null, Null);
        pfn := pfn + 1;
      }
    }

    // pfndb_init. The database lives in memory carved from the memory map; here it is an
    // array of its own and phys says where it was put.
    method Init(memmap: array?<Entry>, hhdmPresent: bool)
      requires db == null && phys == 0
      requires memmap != null ==> forall e :: e in memmap[..] && e.usable ==> Fits(e)
      modifies this, memmap
      ensures db != null ==> fresh(db) && db.Length == maxPfn + 1 && memmap != null
      ensures maxPfn == if memmap != null && hhdmPresent then MaxPfn(old(memmap[..])) else old(maxPfn)
      ensures db != null <==> memmap != null && hhdmPresent && exists i: nat :: Bootable(old(memmap[..]), i)
      ensures db != null ==> exists i: nat ::
                && Bootable(old(memmap[..]), i) && phys == old(memmap[..])[i].base
                && memmap[..] == old(memmap[..])[i := Carve(old(memmap[..])[i], StorageSize(maxPfn))]
      ensures memmap != null && (!hhdmPresent || forall i: nat :: !FirstFit(old(memmap[..]), StorageSize(maxPfn), i)) ==>
                phys == 0 && memmap[..] == old(memmap[..])
      // Even when it fails because of base 0, the entry has been cut.
      ensures memmap != null && hhdmPresent ==> forall i: nat :: FirstFit(old(memmap[..]), StorageSize(maxPfn), i) ==>
                phys == old(memmap[..])[i].base
                && memmap[..] == old(memmap[..])[i := Carve(old(memmap[..])[i], StorageSize(maxPfn))]
      ensures db != null ==> forall p :: 0 <= p < db.Length ==>
                db[p] == Page(if Usable(memmap[..], p) then PAGE_FREE else PAGE_RESERVED, 0, Null, Null)
    {
      if memmap == null {
        return;
      }
      if !hhdmPresent {
        return;
      }
      CalcMaxPfn(memmap);
      ghost var m := memmap[..];
      ReserveStorage(memmap);
      if phys == 0 {
        assert forall i: nat :: FirstFit(m, StorageSize(maxPfn), i) ==> m[i].base == 0;
        return;
      }
      ghost var i: nat :| FirstFit(m, StorageSize(maxPfn), i);
      assert Bootable(m, i);
      CarvedFits(m, i, StorageSize(maxPfn));
      Build(memmap);
    }

    // Allocates the descriptors, all reserved, then marks the usable ones.
    method Build(memmap: array<Entry>)
      requires forall e :: e in memmap[..] && e.usable ==> Fits(e)
      modifies this`db
      ensures db != null && fresh(db) && db.Length == maxPfn + 1
      ensures forall p :: 0 <= p < db.Length ==>
                db[p] == Page(if Usable(memmap[..], p) then PAGE_FREE else PAGE_RESERVED, 0, Null, Null)
    {
      var d := new Page[maxPfn + 1](_ => Page(Flags(false, false, false), 0, Null, Null));
      for pfn := 0 to maxPfn + 1
        invariant forall p :: 0 <= p < pfn ==> d[p] == Page(PAGE_RESERVED, 0, Null, Null)
      {
        d[pfn] := Page(PAGE_RESERVED, 0, Null, Null);
      }
      db := d;
      MarkUsable(memmap);
    }

    method MarkUsable(memmap: array<Entry>)
      requires db != null && db.Length == maxPfn + 1
      requires forall p :: 0 <= p < db.Length ==> db[p] == Page(PAGE_RESERVED, 0, Null, Null)
      requires forall e :: e in memmap[..] && e.usable ==> Fits(e)
      modifies db
      ensures forall p :: 0 <= p < db.Length ==>
                db[p] == Page(if Usable(memmap[..], p) then PAGE_FREE else PAGE_RESERVED, 0, Null, Null)
    {
      for i := 0 to memmap.Length
        invariant forall p :: 0 <= p < db.Length ==>
                    db[p] == Page(if UsableIn(memmap[..], i, p) then PAGE_FREE else PAGE_RESERVED, 0, Null, Null)
      {
        var e := memmap[i];
        assert e in memmap[..];
        ghost var before := db[..];
        if e.usable {
          MarkRange(e.base, e.length, PAGE_FREE);
        }
        forall p | 0 <= p < db.Length
          ensures db[p] == Page(if UsableIn(memmap[..], i + 1, p) then PAGE_FREE else PAGE_RESERVED, 0, Null, Null)
        {
          assert db[p] == if e.usable && Covers(Entry(e.base, e.length, true), p) then Page(PAGE_FREE, 0, Null, Null) else before[p];
          UsableNext(memmap[..], i, p);
        }
      }
    }
  }

  // ---- Conversions ----

  const NO_PFN: nat := WORD - 1  // (uint64_t)-1

  // pfndb_get_page; a database pointer is the index it has in the database.
  function GetPage(maxPfn: nat, pfn: nat): Link {
    if pfn > maxPfn then Null else To(pfn)
  }

  function GetPfn(maxPfn: nat, page: Link): nat {
    if page == Null || page.pfn > maxPfn then NO_PFN else page.pfn
  }

  function PageToPhys(maxPfn: nat, page: Link): nat {
    var pfn := GetPfn(maxPfn, page);
    if pfn == NO_PFN then 0 else pfn * PAGE_SIZE
  }

  function PhysToPage(maxPfn: nat, phys: nat): Link {
    GetPage(maxPfn, phys / PAGE_SIZE)
  }

  // The conversions are inverse on the range of the database; outside it each says so.
  lemma {:induction false} ConversionsInverse(maxPfn: nat, pfn: nat)
    requires maxPfn < WORD / PAGE_SIZE
    ensures GetPfn(maxPfn, GetPage(maxPfn, pfn)) == if pfn <= maxPfn then pfn else NO_PFN
    ensures pfn <= maxPfn ==> PhysToPage(maxPfn, PageToPhys(maxPfn, To(pfn))) == To(pfn)
    ensures pfn > maxPfn ==> PhysToPage(maxPfn, pfn * PAGE_SIZE) == Null
  {
  }

  lemma {:induction false} PhysInverse(maxPfn: nat, phys: nat)
    requires maxPfn < WORD / PAGE_SIZE && phys < WORD
    ensures var page := PhysToPage(maxPfn, phys);
            && (page == Null <==> phys >= (maxPfn + 1) * PAGE_SIZE)
            && (page.To? ==> PageToPhys(maxPfn, page) == phys - phys % PAGE_SIZE)
  {
  }

  // The failure value of pfndb_page_to_phys is an address too: it tells a page from no
  // page exactly when the page is not page 0.
  lemma {:induction false} ZeroIsAmbiguous(maxPfn: nat, pfn: nat)
    requires maxPfn < WORD / PAGE_SIZE && pfn <= maxPfn
    ensures PageToPhys(maxPfn, To(pfn)) != PageToPhys(maxPfn, Null) <==> pfn != 0
  {
  }

  lemma {:induction false} CarvedFits(m: seq<Entry>, i: nat, size: nat)
    requires FirstFit(m, size, i) && forall e :: e in m && e.usable ==> Fits(e)
    ensures forall e :: e in m[i := Carve(m[i], size)] && e.usable ==> Fits(e)
  {
  }

  // ---- What the database says about a sane memory map ----

  // Usable entries are page aligned and do not overlap.
  ghost predicate Sane(m: seq<Entry>) {
    && (forall i :: 0 <= i < |m| && m[i].usable ==>
                      m[i].base % PAGE_SIZE == 0 && m[i].length % PAGE_SIZE == 0 && Fits(m[i]))
    && forall i, j :: 0 <= i < |m| && 0 <= j < |m| && i != j && m[i].usable && m[j].usable ==>
                        m[i].base + m[i].length <= m[j].base || m[j].base + m[j].length <= m[i].base
  }

  // The page frames that hold the database.
  predicate InStorage(phys: nat, size: nat, pfn: nat) {
    phys / PAGE_SIZE <= pfn < (phys + size) / PAGE_SIZE
  }

  lemma {:induction false} CoversAligned(e: Entry, pfn: nat)
    requires e.usable && Fits(e) && e.base % PAGE_SIZE == 0 && e.length % PAGE_SIZE == 0
    ensures Covers(e, pfn) <==> e.base <= pfn * PAGE_SIZE < e.base + e.length
  {
  }

  // The least number of whole pages with room for a record of 24 bytes for every frame.
  lemma {:induction false} StorageSizeOk(maxPfn: nat)
    requires maxPfn < WORD / PAGE_SIZE
    ensures StorageSize(maxPfn) % 4096 == 0
    ensures (maxPfn + 1) * 24 <= StorageSize(maxPfn) < (maxPfn + 1) * 24 + 4096
  {
  }

  // The frames that hold the database are those that hold a byte of some record.
  lemma {:induction false} StorageFrames(phys: nat, maxPfn: nat, pfn: nat)
    requires phys % 4096 == 0 && maxPfn < WORD / PAGE_SIZE
    ensures InStorage(phys, StorageSize(maxPfn), pfn) <==> phys <= pfn * 4096 < phys + (maxPfn + 1) * 24
  {
    StorageSizeOk(maxPfn);
  }

  // After carving, a page is usable exactly when it was usable and does not hold the database.
  lemma {:induction false} CarvedUsable(m: seq<Entry>, i: nat, size: nat, pfn: nat)
    requires Sane(m) && FirstFit(m, size, i) && size % PAGE_SIZE == 0
    ensures Usable(m[i := Carve(m[i], size)], pfn) <==> Usable(m, pfn) && !InStorage(m[i].base, size, pfn)
    ensures InStorage(m[i].base, size, pfn) ==> Usable(m, pfn)
  {
    var m' := m[i := Carve(m[i], size)];
    if j: nat :| j < |m'| && Covers(m'[j], pfn) {
      CarvedCovers(m, i, size, j, pfn);
    }
    if j: nat :| j < |m| && Covers(m[j], pfn) {
      CarvedCovers(m, i, size, j, pfn);
      assert !InStorage(m[i].base, size, pfn) ==> Covers(m'[j], pfn);
    }
    if InStorage(m[i].base, size, pfn) {
      CoversAligned(m[i], pfn);
      assert Covers(m[i], pfn);
    }
  }

  lemma {:induction false} CarvedCovers(m: seq<Entry>, i: nat, size: nat, j: nat, pfn: nat)
    requires Sane(m) && FirstFit(m, size, i) && size % PAGE_SIZE == 0 && j < |m|
    ensures Covers(m[i := Carve(m[i], size)][j], pfn) <==> Covers(m[j], pfn) && !InStorage(m[i].base, size, pfn)
  {
    CarvedEntry(m[i], size, pfn);
    if j != i && m[j].usable {
      CoversAligned(m[j], pfn);
      CoversAligned(m[i], pfn);
    }
  }

  lemma {:induction false} CarvedEntry(e: Entry, size: nat, pfn: nat)
    requires e.usable && Fits(e) && e.base % PAGE_SIZE == 0 && e.length % PAGE_SIZE == 0
    requires size % PAGE_SIZE == 0 && e.length >= size
    ensures Covers(Carve(e, size), pfn) <==> Covers(e, pfn) && !InStorage(e.base, size, pfn)
    ensures InStorage(e.base, size, pfn) ==> Covers(e, pfn)
  {
    CoversAligned(e, pfn);
    CoversAligned(Carve(e, size), pfn);
  }
}
