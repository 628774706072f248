/** Page-table entries as kernel/src/mm/paging.c builds and tests them, and what those bit
    operations mean to the hardware's reading of an entry. */
module Pte {
  import opened Machine
  import opened Bits
  import opened Sv

  const PTE_V: nat := 1
  const PTE_R: nat := 2
  const PTE_W: nat := 4
  const PTE_X: nat := 8
  const PTE_G: nat := 32
  const PTE_A: nat := 64
  const PTE_D: nat := 128
  const PTE_RWX: nat := 14

  const FLAG_READ: nat := 1
  const FLAG_WRITE: nat := 2
  const FLAG_EXEC: nat := 4
  const FLAG_GLOBAL: nat := 8

  function LeafFlags(flags: nat): nat {
    var p0 := Or(PTE_V, PTE_A);
    var p1 := if And(flags, FLAG_READ) != 0 then Or(p0, PTE_R) else p0;
    var p2 := if And(flags, FLAG_WRITE) != 0 then Or(p1, Or(Or(PTE_R, PTE_W), PTE_D)) else p1;
    var p3 := if And(flags, FLAG_EXEC) != 0 then Or(p2, PTE_X) else p2;
    if And(flags, FLAG_GLOBAL) != 0 then Or(p3, PTE_G) else p3
  }

  function PteToPhys(pte: nat): nat {
    ((pte / 1024) * PAGE_SIZE) % WORD
  }

  function TablePte(phys: nat): nat {
    Or(((phys / PAGE_SIZE) * 1024) % WORD, PTE_V)
  }

  function LeafPte(phys: nat, flags: nat): nat {
    Or(((phys / PAGE_SIZE) * 1024) % WORD, LeafFlags(flags))
  }

  function LevelShift(level: nat): nat {
    12 + level * 9
  }

  function BlockSize(level: nat): (r: nat)
    ensures r > 0
  {
    Pow2(LevelShift(level))
  }

  function LevelIndex(va: nat, level: nat): nat {
    And(Shr(va, LevelShift(level)), 0x1ff)
  }

  predicate EntryCovers(entry: nat, va: nat, pa: nat, flags: nat, level: nat) {
    var mapped := (PteToPhys(entry) + And(va, BlockSize(level) - 1)) % WORD;
    mapped == pa && Allows(entry, flags)
  }

  // The tests on the bits of the entry.
  predicate Allows(entry: nat, flags: nat) {
    var want := And(LeafFlags(flags), PTE_RWX);
    && And(entry, PTE_V) != 0
    && And(entry, want) == want
    && !(And(flags, FLAG_WRITE) != 0 && And(entry, PTE_D) == 0)
    && And(entry, PTE_A) != 0
  }

  // ---- Meaning ----

  predicate Reads(flags: nat) { Bit(flags, 0) }
  predicate Writes(flags: nat) { Bit(flags, 1) }
  predicate Executes(flags: nat) { Bit(flags, 2) }

  // The request names at least one kind of access.
  predicate Accessible(flags: nat) {
    Reads(flags) || Writes(flags) || Executes(flags)
  }

  // Leaf flags f name every access the request names, without an accessed or dirty fault.
  predicate Names(f: nat, flags: nat) {
    && Bit(f, V) && Bit(f, A)
    && (Reads(flags) ==> Bit(f, R))
    && (Writes(flags) ==> Bit(f, R) && Bit(f, W) && Bit(f, D))
    && (Executes(flags) ==> Bit(f, X))
  }

  // And they grant it to the kernel, which runs in supervisor mode with SUM clear: a page
  // marked for user mode faults there (step 5 of section 4.3.2).
  predicate Grants(f: nat, flags: nat) {
    Names(f, flags) && !Bit(f, U)
  }

  lemma {:induction false} FlagTests(x: nat)
    ensures And(x, 1) != 0 <==> Bit(x, 0)
    ensures And(x, 2) != 0 <==> Bit(x, 1)
    ensures And(x, 4) != 0 <==> Bit(x, 2)
    ensures And(x, 8) != 0 <==> Bit(x, 3)
    ensures And(x, 64) != 0 <==> Bit(x, 6)
    ensures And(x, 128) != 0 <==> Bit(x, 7)
  {
    AndPow2(x, 0);
    AndPow2(x, 1);
    AndPow2(x, 2);
    AndPow2(x, 3);
    AndPow2(x, 6);
    AndPow2(x, 7);
    assert Pow2(6) == 64 && Pow2(7) == 128 && Pow2(3) == 8;
  }

  // A test against R|W|X finds any of the three.
  lemma {:induction false} AccessTest(x: nat)
    ensures And(x, PTE_RWX) != 0 <==> Bit(x, R) || Bit(x, W) || Bit(x, X)
  {
    AndStep(x, 14);
    AndStep(x / 2, 7);
    AndStep(x / 2 / 2, 3);
    AndStep(x / 2 / 2 / 2, 1);
    assert Bit(x, 1) == Bit(x / 2, 0);
    assert Bit(x, 2) == Bit(x / 2, 1) == Bit(x / 2 / 2, 0);
    assert Bit(x, 3) == Bit(x / 2, 2) == Bit(x / 2 / 2, 1) == Bit(x / 2 / 2 / 2, 0);
  }

  // ---- Level arithmetic ----

  lemma {:induction false} ShrConstants(x: nat)
    ensures Shr(x, 9) == x / 512 && Shr(x, 12) == x / PAGE_SIZE
  {
    ShrDivides(x, 9);
    ShrDivides(x, 12);
    assert Pow2(9) == 512 && Pow2(12) == 4096;
  }

  lemma {:induction false} ShrIsPrefix(x: nat, level: nat)
    ensures Shr(x, level * 9) == Prefix(x, level)
  {
    if level > 0 {
      ShrAdd(x, 9, (level - 1) * 9);
      ShrConstants(x);
      ShrIsPrefix(x / 512, level - 1);
    }
  }

  lemma {:induction false} DigitMod(x: nat, levels: nat, level: nat)
    requires level < levels
    ensures Digit(Low(x, levels), level) == Digit(x, level)
  {
    if level > 0 {
      DigitMod(x / 512, levels - 1, level - 1);
    }
  }

  // The index the code computes is the digit the hardware uses.
  lemma {:induction false} IndexIsDigit(va: nat, levels: nat, level: nat)
    requires level < levels
    ensures LevelIndex(va, level) == Digit(Vpn(va, levels), level)
  {
    ShrAdd(va, 12, level * 9);
    ShrConstants(va);
    ShrIsPrefix(va / PAGE_SIZE, level);
    AndMask(Shr(va, LevelShift(level)), 9);
    assert Pow2(9) == 512;
    DigitMod(va / PAGE_SIZE, levels, level);
  }

  lemma {:induction false} BlockSizePages(level: nat)
    ensures BlockSize(level) == PAGE_SIZE * Pow512(level)
  {
    if level == 0 {
      assert Pow2(12) == 4096;
    } else {
      BlockSizePages(level - 1);
      Pow2Add(LevelShift(level - 1), 9);
      assert Pow2(9) == 512;
    }
  }

  lemma {:induction false} LowLow(x: nat, n: nat, m: nat)
    requires m <= n
    ensures Low(Low(x, n), m) == Low(x, m)
  {
    if m > 0 {
      LowLow(x / 512, n - 1, m - 1);
    }
  }

  // The part of the address below a block of the level.
  lemma {:induction false} BlockOffset(va: nat, levels: nat, level: nat)
    requires level <= levels && va % PAGE_SIZE == 0
    ensures And(va, BlockSize(level) - 1) == PAGE_SIZE * (Low(Vpn(va, levels), level))
  {
    AndMask(va, LevelShift(level));
    BlockSizePages(level);
    DivMod(va, PAGE_SIZE, Pow512(level), BlockSize(level));
    LowLow(va / PAGE_SIZE, levels, level);
    LowIsMod(va / PAGE_SIZE, level);
  }

  // ---- What built entries mean ----

  lemma {:induction false} LeafFlagsBit(flags: nat, i: nat)
    ensures Bit(LeafFlags(flags), i) <==>
            || Bit(PTE_V, i) || Bit(PTE_A, i)
            || (Reads(flags) && Bit(PTE_R, i))
            || (Writes(flags) && (Bit(PTE_R, i) || Bit(PTE_W, i) || Bit(PTE_D, i)))
            || (Executes(flags) && Bit(PTE_X, i))
            || (Bit(flags, 3) && Bit(PTE_G, i))
  {
    FlagTests(flags);
    var p0 := Or(PTE_V, PTE_A);
    OrBit(PTE_V, PTE_A, i);
    var p1 := if Reads(flags) then Or(p0, PTE_R) else p0;
    OrBit(p0, PTE_R, i);
    var rwd := Or(Or(PTE_R, PTE_W), PTE_D);
    OrBit(PTE_R, PTE_W, i);
    OrBit(Or(PTE_R, PTE_W), PTE_D, i);
    var p2 := if Writes(flags) then Or(p1, rwd) else p1;
    OrBit(p1, rwd, i);
    var p3 := if Executes(flags) then Or(p2, PTE_X) else p2;
    OrBit(p2, PTE_X, i);
    OrBit(p3, PTE_G, i);
  }

  lemma {:induction false} OrFlags(x: nat, y: nat)
    requires x < 1024 && y < 1024
    ensures Or(x, y) < 1024
  {
    assert Pow2(10) == 1024;
    OrBound(x, y, 10);
  }

  lemma {:induction false} LeafFlagsBound(flags: nat)
    ensures LeafFlags(flags) < 1024
  {
    var p0 := Or(PTE_V, PTE_A);
    OrFlags(PTE_V, PTE_A);
    var p1 := if And(flags, FLAG_READ) != 0 then Or(p0, PTE_R) else p0;
    OrFlags(p0, PTE_R);
    var rwd := Or(Or(PTE_R, PTE_W), PTE_D);
    OrFlags(PTE_R, PTE_W);
    OrFlags(Or(PTE_R, PTE_W), PTE_D);
    var p2 := if And(flags, FLAG_WRITE) != 0 then Or(p1, rwd) else p1;
    OrFlags(p1, rwd);
    var p3 := if And(flags, FLAG_EXEC) != 0 then Or(p2, PTE_X) else p2;
    OrFlags(p2, PTE_X);
    OrFlags(p3, PTE_G);
  }

  // A leaf's flags: valid, accessed, and exactly the accesses asked for (write implies
  // read and dirty); never user, and no access means the entry is not a leaf at all.
  lemma {:induction false} LeafFlagsMeaning(flags: nat)
    ensures var f := LeafFlags(flags);
            && Bit(f, V) && Bit(f, A) && !Bit(f, U)
            && (Bit(f, R) <==> Reads(flags) || Writes(flags))
            && (Bit(f, W) <==> Writes(flags)) && (Bit(f, D) <==> Writes(flags))
            && (Bit(f, X) <==> Executes(flags))
            && (Bit(f, G) <==> Bit(flags, 3))
    ensures Grants(LeafFlags(flags), flags)
  {
    LeafFlagsBit(flags, 0);
    LeafFlagsBit(flags, 1);
    LeafFlagsBit(flags, 2);
    LeafFlagsBit(flags, 3);
    LeafFlagsBit(flags, 4);
    LeafFlagsBit(flags, 5);
    LeafFlagsBit(flags, 6);
    LeafFlagsBit(flags, 7);
  }

  // The flag digits of an entry are those of its low ten bits.
  lemma {:induction false} LowBits(pte: nat, i: nat)
    requires i < 10
    ensures Bit(pte, i) <==> Bit(pte % 1024, i)
  {
    assert Pow2(10) == 1024;
    BitLow(pte / 1024, 10, pte % 1024, i);
  }

  lemma {:induction false} EntryFields(phys: nat, f: nat)
    requires phys % PAGE_SIZE == 0 && phys < 0x100_0000_0000_0000 && f < 1024
    ensures var pte := Or(((phys / PAGE_SIZE) * 1024) % WORD, f);
            && pte < PTE_LIMIT && Ppn(pte) == phys / PAGE_SIZE && pte % 1024 == f
            && PteToPhys(pte) == phys
  {
    var q := phys / PAGE_SIZE;
    assert (q * 1024) % WORD == q * 1024;
    JoinFields(q, f);
    DivUnique(q * 1024 + f, 1024, q, f);
  }

  lemma {:induction false} JoinFields(q: nat, f: nat)
    requires f < 1024
    ensures Or(q * 1024, f) == q * 1024 + f
  {
    assert Pow2(10) == 1024;
    OrFields(q, 10, f);
  }

  lemma {:induction false} TablePteMeaning(phys: nat)
    requires phys % PAGE_SIZE == 0 && phys < 0x100_0000_0000_0000
    ensures Pointer(TablePte(phys)) && Ppn(TablePte(phys)) == phys / PAGE_SIZE
    ensures PteToPhys(TablePte(phys)) == phys && And(TablePte(phys), PTE_RWX) == 0
  {
    EntryFields(phys, PTE_V);
    var pte := TablePte(phys);
    LowBits(pte, 0);
    LowBits(pte, 1);
    LowBits(pte, 2);
    LowBits(pte, 3);
    LowBits(pte, 4);
    LowBits(pte, 6);
    LowBits(pte, 7);
    AccessTest(pte);
  }

  lemma {:induction false} LeafPteMeaning(phys: nat, flags: nat)
    requires phys % PAGE_SIZE == 0 && phys < 0x100_0000_0000_0000 && Accessible(flags)
    ensures GoodLeaf(LeafPte(phys, flags), 0) && Ppn(LeafPte(phys, flags)) == phys / PAGE_SIZE
    ensures LeafPte(phys, flags) % 1024 == LeafFlags(flags) && Grants(LeafFlags(flags), flags)
  {
    LeafFlagsBound(flags);
    LeafFlagsMeaning(flags);
    EntryFields(phys, LeafFlags(flags));
    var pte := LeafPte(phys, flags);
    LowBits(pte, 0);
    LowBits(pte, 1);
    LowBits(pte, 2);
    LowBits(pte, 3);
  }

  // The access digits wanted of an existing leaf.
  lemma {:induction false} WantedBits(entry: nat, flags: nat)
    ensures var want := And(LeafFlags(flags), PTE_RWX);
            And(entry, want) == want <==>
            && (Reads(flags) || Writes(flags) ==> Bit(entry, R))
            && (Writes(flags) ==> Bit(entry, W))
            && (Executes(flags) ==> Bit(entry, X))
  {
    var f := LeafFlags(flags);
    var want := And(f, PTE_RWX);
    LeafFlagsMeaning(flags);
    AndContains(entry, want);
    forall i: nat
      ensures Bit(want, i) <==> 1 <= i <= 3 && Bit(f, i)
    {
      AccessPart(f, i);
    }
    if Contains(entry, want) {
      assert Bit(want, 1) ==> Bit(entry, 1);
      assert Bit(want, 2) ==> Bit(entry, 2);
      assert Bit(want, 3) ==> Bit(entry, 3);
    }
  }

  lemma {:induction false} AccessPart(f: nat, i: nat)
    ensures Bit(And(f, PTE_RWX), i) <==> 1 <= i <= 3 && Bit(f, i)
  {
    AndBit(f, PTE_RWX, i);
    AccessBits(i);
  }

  lemma {:induction false} AccessBits(i: nat)
    ensures Bit(PTE_RWX, i) <==> 1 <= i <= 3
  {
    if i > 3 {
      assert Bit(14, i) == Bit(7, i - 1) == Bit(3, i - 2);
      assert Bit(3, i - 2) == Bit(1, i - 3) == Bit(0, i - 4);
      ZeroBit(i - 4);
    }
  }

  // An existing entry is accepted exactly when it maps the address to the page asked for
  // and grants the access asked for.
  lemma {:induction false} CoversMeaning(entry: nat, va: nat, pa: nat, flags: nat, levels: nat, level: nat)
    requires level < levels <= 5 && va % PAGE_SIZE == 0 && entry < PTE_LIMIT
    ensures EntryCovers(entry, va, pa, flags, level) <==>
            && PAGE_SIZE * (Ppn(entry) + Low(Vpn(va, levels), level)) == pa
            && Names(entry % 1024, flags)
  {
    var off := Low(Vpn(va, levels), level);
    BlockOffset(va, levels, level);
    OffsetBound(Vpn(va, levels), level);
    var below := And(va, BlockSize(level) - 1);
    CoversAddress(entry, below, off);
    CoversAccess(entry, flags);
    CoversIs(entry, va, pa, flags, level, below, PAGE_SIZE * (Ppn(entry) + off));
  }

  lemma {:induction false} CoversIs(entry: nat, va: nat, pa: nat, flags: nat, level: nat, below: nat, mapped: nat)
    requires below == And(va, BlockSize(level) - 1) && mapped == (PteToPhys(entry) + below) % WORD
    requires Allows(entry, flags) <==> Names(entry % 1024, flags)
    ensures EntryCovers(entry, va, pa, flags, level) <==> mapped == pa && Names(entry % 1024, flags)
  {
  }

  // The test does not look at the U bit: an existing leaf it accepts gives the kernel the
  // access exactly when that bit is clear.
  lemma {:induction false} CoversGrants(entry: nat, va: nat, pa: nat, flags: nat, levels: nat, level: nat)
    requires level < levels <= 5 && va % PAGE_SIZE == 0 && entry < PTE_LIMIT
    requires EntryCovers(entry, va, pa, flags, level)
    ensures Grants(entry % 1024, flags) <==> !Bit(entry, U)
  {
    CoversMeaning(entry, va, pa, flags, levels, level);
    LowBits(entry, 4);
  }

  // A leaf for user mode that is accepted for the kernel: all of V, R, W, X, U, A and D set.
  lemma {:induction false} UserLeafAccepted()
    ensures GoodLeaf(0x4df, 0) && EntryCovers(0x4df, 0, 0x1000, 7, 0) && !Grants(0x4df % 1024, 7)
  {
    UserLeaf(0x4df, 0x1000, 7);
  }

  lemma {:induction false} UserLeaf(e: nat, pa: nat, flags: nat)
    requires e == 0x4df && pa == PAGE_SIZE * Ppn(e)
    ensures GoodLeaf(e, 0) && EntryCovers(e, 0, pa, flags, 0) && !Grants(e % 1024, flags)
  {
    EightDigits(e, 0xdf);
    EightDigits(e % 1024, 0xdf);
    CoversMeaning(e, 0, pa, flags, 3, 0);
  }

  lemma {:induction false} EightDigits(x: nat, y: nat)
    requires x % 256 == y == 0xdf
    ensures Bit(x, V) && Bit(x, R) && Bit(x, W) && Bit(x, X) && Bit(x, U) && Bit(x, A) && Bit(x, D)
  {
    var q := x / 256;
    LowDigit(x, V, 1, 128 * q + 111);
    LowDigit(x, R, 2, 64 * q + 55);
    LowDigit(x, W, 4, 32 * q + 27);
    LowDigit(x, X, 8, 16 * q + 13);
    LowDigit(x, U, 16, 8 * q + 6);
    LowDigit(x, A, 64, 2 * q + 1);
    LowDigit(x, D, 128, q);
  }

  lemma {:induction false} LowDigit(x: nat, i: nat, w: nat, h: nat)
    requires i < 8 && w == Pow2(i) && w * (2 * h + 1) <= x < w * (2 * h + 1) + w
    ensures Bit(x, i)
  {
    DivUnique(x, w, 2 * h + 1, x - w * (2 * h + 1));
    BitIsDigit(x, i);
    ShrDivides(x, i);
  }

  lemma {:induction false} BitIsDigit(x: nat, i: nat)
    ensures Bit(x, i) <==> Shr(x, i) % 2 == 1
  {
    if i > 0 {
      BitIsDigit(x / 2, i - 1);
    }
  }

  lemma {:induction false} CoversAddress(entry: nat, below: nat, off: nat)
    requires entry < PTE_LIMIT && below == PAGE_SIZE * off && off < 0x10_0000_0000
    ensures (PteToPhys(entry) + below) % WORD == PAGE_SIZE * (Ppn(entry) + off)
  {
  }

  lemma {:induction false} CoversAccess(entry: nat, flags: nat)
    ensures Allows(entry, flags) <==> Names(entry % 1024, flags)
  {
    WantedBits(entry, flags);
    FlagTests(entry);
    FlagTests(flags);
    LowBits(entry, 0);
    LowBits(entry, 1);
    LowBits(entry, 2);
    LowBits(entry, 3);
    LowBits(entry, 6);
    LowBits(entry, 7);
  }

  lemma {:induction false} OffsetBound(vpn: nat, level: nat)
    requires level < 5
    ensures Low(vpn, level) < 0x10_0000_0000
  {
    Constants();
    LowIsMod(vpn, level);
  }
}
