/** The reg and compatible properties: sections 2.3.6 and 2.3.1 of the Devicetree
    Specification, and the decoding in fdt_get_reg and fdt_node_has_compatible. */
module FdtReg {
  import opened Machine
  import opened DeviceTree
  import opened FdtScan
  import opened FdtWalk
  import opened FdtLookup

  // ---- reg ----

  // One number of n 32-bit cells, most significant first; n is at most 2.
  function EncodeNumber(x: nat, n: nat): (r: seq<Byte>)
    requires n <= 2 && x < Limit(n)
    ensures |r| == 4 * n
  {
    if n == 0 then [] else if n == 1 then Be32(x) else Be32(x / WORD32) + Be32(x % WORD32)
  }

  // Numbers of n cells are below this.
  function Limit(n: nat): nat {
    if n == 0 then 1 else if n == 1 then WORD32 else WORD
  }

  predicate PairFits(p: (nat, nat), c: Cells) {
    p.0 < Limit(c.address) && p.1 < Limit(c.size)
  }

  function EncodePair(p: (nat, nat), c: Cells): (r: seq<Byte>)
    requires c.address <= 2 && c.size <= 2 && PairFits(p, c)
    ensures |r| == 4 * (c.address + c.size)
  {
    EncodeNumber(p.0, c.address) + EncodeNumber(p.1, c.size)
  }

  // A reg value: address and size pairs one after the other.
  function EncodeReg(pairs: seq<(nat, nat)>, c: Cells): seq<Byte>
    requires c.address <= 2 && c.size <= 2 && forall i :: 0 <= i < |pairs| ==> PairFits(pairs[i], c)
  {
    if pairs == [] then [] else EncodePair(pairs[0], c) + EncodeReg(pairs[1..], c)
  }

  // A 64-bit address and a 32-bit size, byte for byte.
  lemma {:induction false} RegExample()
    ensures EncodeReg([(0x1_0203_0405, 6)], Cells(2, 1)) == [0, 0, 0, 1, 2, 3, 4, 5, 0, 0, 0, 6]
  {
    var p, c := (0x1_0203_0405, 6), Cells(2, 1);
    var pairs: seq<(nat, nat)> := [p];
    assert pairs[1..] == [];
    assert Be32(1) == [0, 0, 0, 1] && Be32(0x203_0405) == [2, 3, 4, 5] && Be32(6) == [0, 0, 0, 6];
    assert EncodeNumber(p.0, 2) == Be32(1) + Be32(0x203_0405);
    assert EncodePair(p, c) == [0, 0, 0, 1, 2, 3, 4, 5, 0, 0, 0, 6];
    assert EncodeReg(pairs, c) == EncodePair(p, c) + EncodeReg(pairs[1..], c);
  }

  // The reading loop: addr = (addr << 32) | cell, where the shift drops the upper 32 bits.
  function ReadNumber(v: seq<Byte>, at: nat, n: nat): (r: nat)
    requires at + 4 * n <= |v|
    ensures r < WORD
  {
    if n == 0 then 0 else (ReadNumber(v, at, n - 1) % WORD32) * WORD32 + Read32(v, at + 4 * (n - 1))
  }

  // (index + 1U) * entry_cells > cell_count, as the code computes it.
  predicate PastEnd(index: nat, n: nat, count: nat) {
    ((index + 1) % WORD32 * n) % WORD32 > count
  }

  // Where the code reads: index * entry_cells in 32 bits, times the size of a cell.
  function EntryOffset(index: nat, n: nat): nat {
    (index * n) % WORD32 * 4
  }

  // What the test lets through is inside a value of this length.
  predicate InBounds(index: nat, n: nat, len: nat) {
    PastEnd(index, n, len / 4) || EntryOffset(index, n) + 4 * n <= len
  }

  // Everything fdt_get_reg would read of a value of this length is there.
  predicate Readable(c: Cells, index: nat, len: nat) {
    var n := c.address + c.size;
    c.address > 2 || c.size > 2 || n == 0 || len % 4 != 0 || InBounds(index, n, len)
  }

  // A refusal, an entry of the value, or a read outside the value, this far from its start.
  datatype RegAnswer = NoEntry | Entry(pair: (nat, nat)) | Stray(offset: nat)

  // fdt_get_reg once the property has been found.
  function RegEntry(v: seq<Byte>, c: Cells, index: nat): RegAnswer {
    var n := c.address + c.size;
    if c.address > 2 || c.size > 2 || n == 0 || |v| % 4 != 0 || PastEnd(index, n, |v| / 4) then NoEntry
    else
      var at := EntryOffset(index, n);
      if at + 4 * n > |v| then Stray(at)
      else Entry((ReadNumber(v, at, c.address), ReadNumber(v, at + 4 * c.address, c.size)))
  }

  lemma {:induction false} MulStep(i: nat, w: nat)
    requires i > 0
    ensures i * w == (i - 1) * w + w
  {
  }

  // Where entry i lies in a list of pairs.
  function PairOffset(i: nat, n: nat): nat {
    i * n * 4
  }

  lemma {:induction false} PairOffsetNext(i: nat, n: nat)
    requires i > 0
    ensures PairOffset(i, n) == PairOffset(i - 1, n) + 4 * n
  {
    MulStep(i, n);
  }

  // When the product fits in 32 bits, what is read is there, whatever the length.
  lemma {:induction false} FittingReadsInside(c: Cells, index: nat, len: nat)
    requires (index + 1) * (c.address + c.size) < WORD32
    ensures Readable(c, index, len)
    ensures var n := c.address + c.size;
            n > 0 ==> (PastEnd(index, n, len / 4) <==> (index + 1) * n > len / 4) && EntryOffset(index, n) == PairOffset(index, n)
  {
    var n := c.address + c.size;
    if n > 0 {
      Fitting(index, n, len);
    }
  }

  lemma {:induction false} Fitting(index: nat, n: nat, len: nat)
    requires n > 0 && (index + 1) * n < WORD32
    ensures InBounds(index, n, len) && (PastEnd(index, n, len / 4) <==> (index + 1) * n > len / 4)
    ensures EntryOffset(index, n) == PairOffset(index, n)
  {
    MulStep(index + 1, n);
    NoWrap(index, n);
    var p, q := (index + 1) * n, index * n;
    assert p == q + n && q % WORD32 == q;
  }

  lemma {:induction false} NoWrap(index: nat, n: nat)
    requires n > 0 && (index + 1) * n < WORD32
    ensures ((index + 1) % WORD32 * n) % WORD32 == (index + 1) * n
  {
    assert (index + 1) * n >= index + 1 by {
      assert (index + 1) * n == (index + 1) + (index + 1) * (n - 1);
    }
  }

  lemma {:induction false} ReadNumberBack(v: seq<Byte>, at: nat, x: nat, n: nat)
    requires n <= 2 && x < Limit(n) && at + 4 * n <= |v| && v[at..at + 4 * n] == EncodeNumber(x, n)
    ensures ReadNumber(v, at, n) == x
  {
    if n == 1 {
      WordBack(v, at, at, x, EncodeNumber(x, 1));
      assert ReadNumber(v, at, 0) == 0;
    } else if n == 2 {
      WordBack(v, at, at, x / WORD32, EncodeNumber(x, 2)[..4]);
      WordBack(v, at, at + 4, x % WORD32, EncodeNumber(x, 2)[4..]);
      assert ReadNumber(v, at, 0) == 0;
      assert ReadNumber(v, at, 1) == x / WORD32;
    }
  }

  lemma {:induction false} WordBack(v: seq<Byte>, at: nat, i: nat, x: nat, w: seq<Byte>)
    requires x < WORD32 && i + 4 <= |v| && at <= i && w == Be32(x) && v[i..i + 4] == w
    ensures Read32(v, i) == x
  {
    assert v[i] == v[i..i + 4][0] && v[i + 1] == v[i..i + 4][1];
    assert v[i + 2] == v[i..i + 4][2] && v[i + 3] == v[i..i + 4][3];
    ReadBe32(x, v, i);
  }

  lemma {:induction false} SliceTail(head: seq<Byte>, tail: seq<Byte>, a: nat, w: nat, at: nat)
    requires |head| == w && a + w <= |tail| && at == a + w
    ensures (head + tail)[at..at + w] == tail[a..a + w]
  {
    var x, y := (head + tail)[at..at + w], tail[a..a + w];
    forall k | 0 <= k < w
      ensures x[k] == y[k]
    {
    }
  }

  // Entry i of an encoded list lies at its entry offset.
  lemma {:induction false} EntryBytes(pairs: seq<(nat, nat)>, c: Cells, i: nat)
    requires c.address <= 2 && c.size <= 2 && forall j :: 0 <= j < |pairs| ==> PairFits(pairs[j], c)
    requires i < |pairs|
    ensures var n := c.address + c.size;
            EntryLies(EncodeReg(pairs, c), PairOffset(i, n), 4 * n, EncodePair(pairs[i], c))
    decreases i
  {
    var n := c.address + c.size;
    if i > 0 {
      EntryBytes(pairs[1..], c, i - 1);
      LaterEntry(pairs, c, i, n, EncodePair(pairs[i], c));
    } else {
      FirstEntry(pairs, c, n);
    }
  }

  lemma {:induction false} FirstEntry(pairs: seq<(nat, nat)>, c: Cells, n: nat)
    requires c.address <= 2 && c.size <= 2 && forall j :: 0 <= j < |pairs| ==> PairFits(pairs[j], c)
    requires pairs != [] && n == c.address + c.size
    ensures EntryLies(EncodeReg(pairs, c), PairOffset(0, n), 4 * n, EncodePair(pairs[0], c))
  {
    var head, tail := EncodePair(pairs[0], c), EncodeReg(pairs[1..], c);
    assert PairOffset(0, n) == 0;
    assert (head + tail)[0..4 * n] == head;
  }

  lemma {:induction false} LaterEntry(pairs: seq<(nat, nat)>, c: Cells, i: nat, n: nat, x: seq<Byte>)
    requires c.address <= 2 && c.size <= 2 && forall j :: 0 <= j < |pairs| ==> PairFits(pairs[j], c)
    requires 0 < i < |pairs| && n == c.address + c.size
    requires EntryLies(EncodeReg(pairs[1..], c), PairOffset(i - 1, n), 4 * n, x)
    ensures EntryLies(EncodeReg(pairs, c), PairOffset(i, n), 4 * n, x)
  {
    PairOffsetNext(i, n);
    LiesBehind(EncodePair(pairs[0], c), EncodeReg(pairs[1..], c), PairOffset(i - 1, n), 4 * n, x, PairOffset(i, n));
  }

  ghost predicate EntryLies(v: seq<Byte>, at: nat, w: nat, x: seq<Byte>) {
    at + w <= |v| && v[at..at + w] == x
  }

  lemma {:induction false} LiesBehind(head: seq<Byte>, tail: seq<Byte>, a: nat, w: nat, x: seq<Byte>, at: nat)
    requires |head| == w && EntryLies(tail, a, w, x) && at == a + w
    ensures EntryLies(head + tail, at, w, x)
  {
    SliceTail(head, tail, a, w, at);
  }

  lemma {:induction false} RegLength(pairs: seq<(nat, nat)>, c: Cells)
    requires c.address <= 2 && c.size <= 2 && forall j :: 0 <= j < |pairs| ==> PairFits(pairs[j], c)
    ensures |EncodeReg(pairs, c)| == |pairs| * (c.address + c.size) * 4
  {
    if pairs != [] {
      RegLength(pairs[1..], c);
      MulStep(|pairs|, c.address + c.size);
    }
  }

  // What the entry read from a list of pairs should be.
  function PairAt(pairs: seq<(nat, nat)>, i: nat): RegAnswer {
    if i < |pairs| then Entry(pairs[i]) else NoEntry
  }

  // The i-th entry of an encoded reg is the i-th pair, and past the end there is none.
  lemma {:induction false} RegRoundTrip(pairs: seq<(nat, nat)>, c: Cells, i: nat)
    requires c.address <= 2 && c.size <= 2 && c.address + c.size > 0
    requires forall j :: 0 <= j < |pairs| ==> PairFits(pairs[j], c)
    requires (i + 1) * (c.address + c.size) < WORD32
    ensures RegEntry(EncodeReg(pairs, c), c, i) == PairAt(pairs, i)
  {
    var v, n := EncodeReg(pairs, c), c.address + c.size;
    FittingReadsInside(c, i, |v|);
    PastEndOfPairs(pairs, c, i);
    if i < |pairs| {
      EntryBytes(pairs, c, i);
      RegEntryIs(v, c, n, i, PairOffset(i, n), pairs[i]);
    }
  }

  lemma {:induction false} RegEntryIs(v: seq<Byte>, c: Cells, n: nat, i: nat, at: nat, p: (nat, nat))
    requires c.address <= 2 && c.size <= 2 && n == c.address + c.size && n > 0 && PairFits(p, c)
    requires |v| % 4 == 0 && !PastEnd(i, n, |v| / 4) && at == EntryOffset(i, n)
    requires EntryLies(v, at, 4 * n, EncodePair(p, c))
    ensures RegEntry(v, c, i) == Entry(p)
  {
    PairBack(v, at, p, c);
  }

  // The bound test refuses exactly the indexes past the last pair.
  lemma {:induction false} PastEndOfPairs(pairs: seq<(nat, nat)>, c: Cells, i: nat)
    requires c.address <= 2 && c.size <= 2 && c.address + c.size > 0
    requires forall j :: 0 <= j < |pairs| ==> PairFits(pairs[j], c)
    requires (i + 1) * (c.address + c.size) < WORD32
    ensures var v := EncodeReg(pairs, c);
            |v| % 4 == 0 && (PastEnd(i, c.address + c.size, |v| / 4) <==> i >= |pairs|)
  {
    var n := c.address + c.size;
    RegLength(pairs, c);
    EntryCount(i, |pairs|, n);
    NoWrap(i, n);
  }

  lemma {:induction false} EntryCount(i: nat, m: nat, n: nat)
    requires n > 0
    ensures (i + 1) * n > (m * n * 4) / 4 <==> i >= m
    ensures (m * n * 4) % 4 == 0
  {
    assert (m * n * 4) / 4 == m * n;
    if i >= m {
      assert (i + 1 - m) * n > 0;
      assert (i + 1) * n == m * n + (i + 1 - m) * n;
    } else {
      assert (m - i - 1) * n >= 0;
      assert m * n == (i + 1) * n + (m - i - 1) * n;
    }
  }

  lemma {:induction false} PairBack(v: seq<Byte>, at: nat, p: (nat, nat), c: Cells)
    requires c.address <= 2 && c.size <= 2 && PairFits(p, c)
    requires at + 4 * (c.address + c.size) <= |v|
    requires v[at..at + 4 * (c.address + c.size)] == EncodePair(p, c)
    ensures ReadNumber(v, at, c.address) == p.0 && ReadNumber(v, at + 4 * c.address, c.size) == p.1
  {
    var mid := at + 4 * c.address;
    assert v[at..mid] == EncodePair(p, c)[..4 * c.address];
    assert v[mid..mid + 4 * c.size] == EncodePair(p, c)[4 * c.address..];
    ReadNumberBack(v, at, p.0, c.address);
    ReadNumberBack(v, mid, p.1, c.size);
  }

  // ---- The 32-bit bound test ----

  // It says the right thing for every length exactly when the product fits in 32 bits.
  lemma {:induction false} PastEndExact(index: nat, n: nat)
    requires index < WORD32
    ensures (forall count: nat :: count < WORD32 ==> (PastEnd(index, n, count) <==> (index + 1) * n > count))
            <==> (index + 1) * n < WORD32
  {
    var p := (index + 1) * n;
    if p < WORD32 {
      if index + 1 == WORD32 {
        assert n == 0;
      }
    } else {
      var got := ((index + 1) % WORD32 * n) % WORD32;
      assert !PastEnd(index, n, got) && p > got;
    }
  }

  // A concrete index that gets past the test although no property is that long.
  lemma {:induction false} PastEndWraps()
    ensures !PastEnd(0xffff_ffff, 3, 0)
  {
  }

  // The code reads outside some value exactly when the wrapped count is short of one entry.
  lemma {:induction false} InBoundsExact(index: nat, n: nat)
    requires index < WORD32 && 0 < n <= 4
    ensures (forall len: nat :: len / 4 < WORD32 ==> InBounds(index, n, len)) <==> ((index + 1) * n) % WORD32 >= n
  {
    var got := ((index + 1) * n) % WORD32;
    WrappedCount(index, n);
    if got < n {
      assert !InBounds(index, n, 4 * got);
    }
  }

  // What is refused: cell counts other than 0 to 2 or none at all, a value that is not whole
  // words, and an index past the end by the wrapped count.
  lemma {:induction false} RefusedExactly(v: seq<Byte>, c: Cells, index: nat)
    requires index < 0x1_0000_0000
    ensures var n := c.address + c.size;
            RegEntry(v, c, index) == NoEntry <==>
            c.address > 2 || c.size > 2 || n == 0 || |v| % 4 != 0 || ((index + 1) * n) % 0x1_0000_0000 > |v| / 4
  {
    var n := c.address + c.size;
    if 0 < n <= 4 {
      WrappedCount(index, n);
    }
  }

  // A read outside the value starts almost 16 GiB behind it: the blob, whose size is a
  // 32-bit number, ends before.
  lemma {:induction false} StrayIsFar(v: seq<Byte>, c: Cells, index: nat)
    requires index < WORD32 && |v| < WORD32
    ensures !Readable(c, index, |v|) <==> RegEntry(v, c, index).Stray?
    ensures RegEntry(v, c, index).Stray?
            ==> RegEntry(v, c, index).offset >= 4 * (WORD32 - 4) && ((index + 1) * (c.address + c.size)) % WORD32 < c.address + c.size
  {
    if RegEntry(v, c, index).Stray? {
      WrappedCount(index, c.address + c.size);
    }
  }

  lemma {:induction false} WrappedCount(index: nat, n: nat)
    requires index < WORD32 && 0 < n <= 4
    ensures ((index + 1) % WORD32 * n) % WORD32 == ((index + 1) * n) % WORD32
    ensures var got := ((index + 1) * n) % WORD32;
            (index * n) % WORD32 == if got >= n then got - n else WORD32 + got - n
  {
    MulStep(index + 1, n);
    var p, q := (index + 1) * n, index * n;
    assert p == q + n;
    if index + 1 == WORD32 {
      assert p == WORD32 * n;
      assert p % WORD32 == 0;
    }
  }

  // ---- compatible ----

  // A string list: each string followed by a NUL (section 2.2.4).
  function EncodeStrings(list: seq<seq<Byte>>): seq<Byte> {
    if list == [] then [] else list[0] + [0] + EncodeStrings(list[1..])
  }

  // The loop of fdt_node_has_compatible over a value, from an offset.
  function HasString(v: seq<Byte>, offset: nat, want: seq<Byte>): bool
    requires offset <= |v|
    decreases |v| - offset
  {
    if offset >= |v| || !Terminated(v, offset) then false
    else if CStr(v, offset) == want then true
    else HasString(v, offset + StrLen(v, offset) + 1, want)
  }

  ghost predicate NoNuls(list: seq<seq<Byte>>) {
    forall i :: 0 <= i < |list| ==> 0 !in list[i]
  }

  lemma {:induction false} StrLenOf(v: seq<Byte>, i: nat, s: seq<Byte>)
    requires 0 !in s && i + |s| < |v| && v[i..i + |s| + 1] == s + [0]
    ensures StrLen(v, i) == |s| && CStr(v, i) == s && Terminated(v, i)
  {
    var x := v[i..i + |s| + 1];
    forall k | 0 <= k < |x|
      ensures v[i + k] == (s + [0])[k]
    {
      assert x[k] == v[i + k];
    }
    forall k | i <= k < i + |s|
      ensures v[k] == s[k - i] && v[k] != 0
    {
      assert v[i + (k - i)] == (s + [0])[k - i];
    }
    assert v[i + |s|] == (s + [0])[|s|];
    StrLenIs(v, i, |s|);
    assert v[i..i + |s|] == s;
  }

  // On a string list the loop finds a string exactly when it is in the list.
  lemma {:induction false} HasStringIsMember(v: seq<Byte>, offset: nat, list: seq<seq<Byte>>, want: seq<Byte>)
    requires offset <= |v| && v[offset..] == EncodeStrings(list) && NoNuls(list)
    ensures HasString(v, offset, want) <==> want in list
    decreases |list|
  {
    if list != [] {
      var s, rest := list[0], EncodeStrings(list[1..]);
      assert v[offset..] == (s + [0]) + rest;
      assert v[offset..offset + |s| + 1] == v[offset..][..|s| + 1] == s + [0];
      StrLenOf(v, offset, s);
      assert v[offset + |s| + 1..] == v[offset..][|s| + 1..] == rest;
      HasStringIsMember(v, offset + |s| + 1, list[1..], want);
    }
  }
}
