/** Address translation as the hardware does it: section 4.3.2 of the RISC-V Privileged
    Architecture (version 20211203), for Sv39, Sv48 and Sv57 (sections 4.4 to 4.6).
    This is the reference the page-table builder is measured against. */
module Sv {
  import opened Machine
  import opened Bits

  const PT_ENTRIES: nat := 512
  const PTE_LIMIT: nat := 0x40_0000_0000_0000  // bits 63..54 clear

  // Physical memory that can hold page tables: page number to its 512 entries.
  type Memory = map<nat, seq<nat>>

  // Bit numbers of a page-table entry.
  const V: nat := 0
  const R: nat := 1
  const W: nat := 2
  const X: nat := 3
  const U: nat := 4
  const G: nat := 5
  const A: nat := 6
  const D: nat := 7

  function Pow512(n: nat): (r: nat)
    ensures r > 0
  {
    if n == 0 then 1 else 512 * Pow512(n - 1)
  }

  // vpn[level]: the base-512 digits of a virtual page number.
  function Prefix(vpn: nat, n: nat): nat {
    if n == 0 then vpn else Prefix(vpn / 512, n - 1)
  }

  function Digit(vpn: nat, level: nat): (d: nat)
    ensures d < PT_ENTRIES
  {
    Prefix(vpn, level) % 512
  }

  // The n low base-512 digits of x: its remainder modulo 512^n.
  function Low(x: nat, n: nat): (r: nat)
    ensures r < Pow512(n)
  {
    if n == 0 then 0 else x % 512 + 512 * Low(x / 512, n - 1)
  }

  lemma {:induction false} LowIsMod(x: nat, n: nat)
    ensures Low(x, n) == x % Pow512(n)
  {
    if n > 0 {
      LowIsMod(x / 512, n - 1);
      DivMod(x, 512, Pow512(n - 1), Pow512(n));
    }
  }

  function Ppn(pte: nat): nat {
    pte / 1024
  }

  predicate Leaf(pte: nat) {
    Bit(pte, R) || Bit(pte, X)
  }

  // Steps 3 and 4 for a pointer to the next level; D, A and U are reserved in it.
  predicate Pointer(pte: nat) {
    && Bit(pte, V) && pte < PTE_LIMIT
    && !Bit(pte, R) && !Bit(pte, W) && !Bit(pte, X)
    && !Bit(pte, U) && !Bit(pte, A) && !Bit(pte, D)
  }

  // Steps 3, 4 and 6 for a leaf found at a level: no reserved encoding, aligned superpage.
  predicate GoodLeaf(pte: nat, level: nat) {
    && Bit(pte, V) && pte < PTE_LIMIT && Leaf(pte)
    && (Bit(pte, W) ==> Bit(pte, R))
    && Low(Ppn(pte), level) == 0
  }

  // The flags are the low ten bits of the leaf entry, found at a level: 0 for a page, more
  // for a superpage.
  datatype Translation = Fault | Page(ppn: nat, flags: nat, level: nat)

  // From the table in page t, which is at the given level.
  function Walk(mem: Memory, t: nat, level: nat, vpn: nat): Translation
    decreases level
  {
    if t !in mem || |mem[t]| != PT_ENTRIES then Fault
    else
      var pte := mem[t][Digit(vpn, level)];
      if GoodLeaf(pte, level) then Page(Ppn(pte) + Low(vpn, level), pte % 1024, level)
      else if Pointer(pte) && level > 0 then Walk(mem, Ppn(pte), level - 1, vpn)
      else Fault
  }

  // Bits 63 down to the top translated bit are all equal.
  predicate Canonical(va: nat, levels: nat)
    requires levels <= 5
  {
    var high := Shr(va, 11 + 9 * levels);
    va < WORD && (high == 0 || high == Pow2(53 - 9 * levels) - 1)
  }

  // The part of the virtual page number that is translated.
  function Vpn(va: nat, levels: nat): nat {
    Low(va / PAGE_SIZE, levels)
  }

  function Translate(mem: Memory, root: nat, levels: nat, va: nat): Translation
    requires 3 <= levels <= 5
  {
    if Canonical(va, levels) then Walk(mem, root, levels - 1, Vpn(va, levels)) else Fault
  }

  // ---- Digits of page numbers ----

  lemma {:induction false} PrefixNext(vpn: nat, n: nat)
    ensures Prefix(vpn, n + 1) == Prefix(vpn, n) / 512
    ensures Prefix(vpn, n) == Prefix(vpn, n + 1) * 512 + Digit(vpn, n)
  {
    if n > 0 {
      PrefixNext(vpn / 512, n - 1);
    }
  }

  lemma {:induction false} PrefixOfSmall(vpn: nat, n: nat)
    requires vpn < Pow512(n)
    ensures Prefix(vpn, n) == 0
  {
    if n > 0 {
      PrefixOfSmall(vpn / 512, n - 1);
    }
  }

  // A page number whose digits from h up are all clear or all set is fixed by its
  // remainder modulo 2h.
  lemma {:induction false} SignExtended(p: nat, h: nat, t: nat)
    requires h > 0 && t % 2 == 1 && (p / h == 0 || p / h == t)
    ensures p % (2 * h) == p % h + if p / h == 0 then 0 else h
  {
    if p / h == 0 {
      DivUnique(p, 2 * h, 0, p);
    } else {
      var q, lo := t / 2, p % h;
      assert p == t * h + lo && t == 2 * q + 1;
      assert (2 * q + 1) * h == q * (2 * h) + h;
      DivUnique(p, 2 * h, q, h + lo);
    }
  }

  lemma {:induction false} SameExtension(p: nat, q: nat, h: nat, t: nat)
    requires h > 0 && t % 2 == 1 && (p / h == 0 || p / h == t) && (q / h == 0 || q / h == t)
    requires p % (2 * h) == q % (2 * h)
    ensures p == q
  {
    SignExtended(p, h, t);
    SignExtended(q, h, t);
    assert p == h * (p / h) + p % h && q == h * (q / h) + q % h;
  }

  // Distinct canonical pages have distinct translated page numbers.
  lemma {:induction false} CanonicalVpn(a: nat, b: nat, levels: nat)
    requires 3 <= levels <= 5 && Canonical(a, levels) && Canonical(b, levels)
    requires Vpn(a, levels) == Vpn(b, levels)
    ensures a / PAGE_SIZE == b / PAGE_SIZE
  {
    CanonicalPage(a, levels);
    CanonicalPage(b, levels);
    SameExtension(a / PAGE_SIZE, b / PAGE_SIZE, Half(levels), Top(levels));
  }

  // Half the number of translated pages, and what stands above it in a high address.
  function Half(levels: nat): nat {
    if levels == 3 then 0x400_0000 else if levels == 4 then 0x8_0000_0000 else 0x1000_0000_0000
  }

  function Top(levels: nat): nat {
    if levels == 3 then 0x3ff_ffff else if levels == 4 then 0x1_ffff else 0xff
  }

  lemma {:induction false} CanonicalPage(a: nat, levels: nat)
    requires 3 <= levels <= 5 && Canonical(a, levels)
    ensures var p := a / PAGE_SIZE;
            && (p / Half(levels) == 0 || p / Half(levels) == Top(levels))
            && Vpn(a, levels) == p % (2 * Half(levels))
  {
    Constants();
    LowIsMod(a / PAGE_SIZE, levels);
    ShrDivides(a, 11 + 9 * levels);
    DivDiv(a, PAGE_SIZE, Half(levels), PAGE_SIZE * Half(levels));
  }

  lemma {:induction false} Constants()
    ensures Pow2(38) == 0x40_0000_0000 && Pow2(47) == 0x8000_0000_0000 && Pow2(56) == 0x100_0000_0000_0000
    ensures Pow2(26) == 0x400_0000 && Pow2(17) == 0x2_0000 && Pow2(8) == 0x100
    ensures Pow512(3) == 0x800_0000 && Pow512(4) == 0x10_0000_0000 && Pow512(5) == 0x2000_0000_0000
  {
    assert Pow2(10) == 1024;
    assert Pow2(20) == 0x10_0000;
    assert Pow2(30) == 0x4000_0000;
    assert Pow2(40) == 0x100_0000_0000;
    assert Pow2(50) == 0x4_0000_0000_0000;
  }

  // ---- An example in numbers ----

  // Three levels of Sv39: the tables in pages 1, 2 and 3, a page at index 3 of the last one
  // and a superpage at index 5 of the second one.
  ghost function ExampleTables(): Memory {
    map[1 := Zeros()[1 := 0x801],
        2 := Zeros()[2 := 0xc01][5 := 0x2010_00c7],
        3 := Zeros()[3 := 0x2008_00c7]]
  }

  ghost function Zeros(): seq<nat> {
    seq(512, _ => 0)
  }

  lemma {:induction false} TranslateExample()
    ensures Translate(ExampleTables(), 1, 3, 0x4040_3abc) == Page(0x8_0200, 0xc7, 0)
    ensures Translate(ExampleTables(), 1, 3, 0x40a0_7abc) == Page(0x8_0407, 0xc7, 1)
    ensures Translate(ExampleTables(), 1, 3, 0x4040_4abc) == Fault
  {
    var mem := ExampleTables();
    ExampleEntries();
    ExampleDigits(0x4040_3abc, 0x4_0403, 3);
    ExampleDigits(0x40a0_7abc, 0x4_0a07, 7);
    ExampleDigits(0x4040_4abc, 0x4_0404, 4);
    assert mem[1][1] == 0x801 && mem[2][2] == 0xc01 && mem[2][5] == 0x2010_00c7 && mem[3][3] == 0x2008_00c7 && mem[3][4] == 0;
  }

  lemma {:induction false} ExampleEntries()
    ensures Pointer(0x801) && !Leaf(0x801) && Ppn(0x801) == 2
    ensures Pointer(0xc01) && !Leaf(0xc01) && Ppn(0xc01) == 3
    ensures GoodLeaf(0x2010_00c7, 1) && GoodLeaf(0x2008_00c7, 0) && !Leaf(0) && !Pointer(0)
  {
  }

  lemma {:induction false} ExampleDigits(va: nat, vpn: nat, d: nat)
    requires vpn == va / 4096 && d == vpn % 512 && va < 0x40_0000_0000
    ensures Canonical(va, 3) && Vpn(va, 3) == vpn && Digit(vpn, 0) == d == Low(vpn, 1)
    ensures Digit(vpn, 1) == vpn / 512 % 512 && Digit(vpn, 2) == vpn / 512 / 512 % 512
  {
    Constants();
    ShrDivides(va, 38);
    LowIsMod(vpn, 3);
    assert Prefix(vpn / 512, 1) == Prefix(vpn / 512 / 512, 0);
    assert Prefix(vpn, 1) == Prefix(vpn / 512, 0);
    assert Prefix(vpn, 2) == Prefix(vpn / 512, 1);
    assert Low(vpn / 512, 0) == 0;
  }
}
