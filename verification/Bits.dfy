/** Unsigned machine words as natural numbers, with the bit operators the kernel uses.
    A shift by a constant is a division or multiplication by a power of two; the
    bitwise operators recurse over the binary digits. */
module Bits {

  function Pow2(k: nat): (r: nat)
    ensures r > 0
  {
    if k == 0 then 1 else 2 * Pow2(k - 1)
  }

  // Digit i of x, counting from the least significant one.
  predicate Bit(x: nat, i: nat) {
    if i == 0 then x % 2 == 1 else Bit(x / 2, i - 1)
  }

  function Xor(x: nat, y: nat): nat {
    if x == 0 && y == 0 then 0
    else (if x % 2 == y % 2 then 0 else 1) + 2 * Xor(x / 2, y / 2)
  }

  function Or(x: nat, y: nat): nat {
    if x == 0 && y == 0 then 0
    else (if x % 2 == 0 && y % 2 == 0 then 0 else 1) + 2 * Or(x / 2, y / 2)
  }

  function And(x: nat, y: nat): nat {
    if x == 0 || y == 0 then 0
    else (if x % 2 == 1 && y % 2 == 1 then 1 else 0) + 2 * And(x / 2, y / 2)
  }

  // p is a multiple of 2^k: its k low digits are zero.
  predicate Aligned(p: nat, k: nat) {
    k == 0 || (p % 2 == 0 && Aligned(p / 2, k - 1))
  }

  lemma {:induction false} XorZero(x: nat)
    ensures Xor(x, 0) == x
  {
    if x != 0 {
      XorZero(x / 2);
    }
  }

  lemma {:induction false} OrBit(x: nat, y: nat, i: nat)
    ensures Bit(Or(x, y), i) <==> Bit(x, i) || Bit(y, i)
    decreases i, x + y
  {
    if x == 0 && y == 0 {
      ZeroBit(i);
    } else if i > 0 {
      OrBit(x / 2, y / 2, i - 1);
    }
  }

  lemma {:induction false} ZeroBit(i: nat)
    ensures !Bit(0, i)
  {
    if i > 0 {
      ZeroBit(i - 1);
    }
  }

  // Testing a single-bit mask tests that digit.
  lemma {:induction false} AndPow2(x: nat, i: nat)
    ensures And(x, Pow2(i)) != 0 <==> Bit(x, i)
  {
    if x == 0 {
      ZeroBit(i);
    } else if i > 0 {
      AndPow2(x / 2, i - 1);
    } else {
      assert And(x / 2, Pow2(0) / 2) == 0;
    }
  }

  // ---- Powers of two, aligned runs and buddies ----

  lemma {:induction false} Pow2Mono(j: nat, k: nat)
    requires j <= k
    ensures Pow2(j) <= Pow2(k)
  {
    if j < k {
      Pow2Mono(j, k - 1);
    }
  }

  // Aligned means divisible by 2^k.
  lemma {:induction false} AlignedIsMultiple(p: nat, k: nat)
    ensures Aligned(p, k) <==> p % Pow2(k) == 0
  {
    if k > 0 {
      AlignedIsMultiple(p / 2, k - 1);
      ModDouble(p, Pow2(k - 1));
    }
  }

  // ---- Masks and shifts ----

  lemma {:induction false} AndStep(x: nat, y: nat)
    ensures And(x, y) == (if x % 2 == 1 && y % 2 == 1 then 1 else 0) + 2 * And(x / 2, y / 2)
  {
  }

  ghost predicate Contains(x: nat, y: nat) {
    forall i: nat :: Bit(y, i) ==> Bit(x, i)
  }

  // x & y == y tests that every digit set in y is set in x.
  lemma {:induction false} AndContains(x: nat, y: nat)
    ensures And(x, y) == y <==> Contains(x, y)
    decreases y
  {
    if y == 0 {
      forall i: nat
        ensures !Bit(y, i)
      {
        ZeroBit(i);
      }
    } else {
      AndStep(x, y);
      AndContains(x / 2, y / 2);
      ContainsHalf(x, y);
    }
  }

  lemma {:induction false} ContainsHalf(x: nat, y: nat)
    ensures Contains(x, y) <==> Contains(x / 2, y / 2) && (y % 2 == 1 ==> x % 2 == 1)
  {
    if Contains(x, y) {
      assert Bit(y, 0) ==> Bit(x, 0);
      forall i: nat | Bit(y / 2, i)
        ensures Bit(x / 2, i)
      {
        assert Bit(y, i + 1);
      }
    }
    if Contains(x / 2, y / 2) && (y % 2 == 1 ==> x % 2 == 1) {
      forall i: nat | Bit(y, i)
        ensures Bit(x, i)
      {
        assert i > 0 ==> Bit(y / 2, i - 1);
      }
    }
  }

  lemma {:induction false} AndBit(x: nat, y: nat, i: nat)
    ensures Bit(And(x, y), i) <==> Bit(x, i) && Bit(y, i)
    decreases i
  {
    AndStep(x, y);
    if i > 0 {
      AndBit(x / 2, y / 2, i - 1);
    }
  }

  // Masking with 2^k - 1 keeps the remainder modulo 2^k.
  lemma {:induction false} AndMask(x: nat, k: nat)
    ensures And(x, Pow2(k) - 1) == x % Pow2(k)
  {
    if k > 0 {
      AndStep(x, Pow2(k) - 1);
      assert (Pow2(k) - 1) / 2 == Pow2(k - 1) - 1;
      AndMask(x / 2, k - 1);
      ModDouble(x, Pow2(k - 1));
    }
  }

  lemma {:induction false} ModDouble(x: nat, m: nat)
    requires m > 0
    ensures x % (2 * m) == x % 2 + 2 * ((x / 2) % m)
  {
    DivMod(x, 2, m, 2 * m);
  }

  function Shr(x: nat, k: nat): nat {
    if k == 0 then x else Shr(x / 2, k - 1)
  }

  lemma {:induction false} ShrAdd(x: nat, a: nat, b: nat)
    ensures Shr(x, a + b) == Shr(Shr(x, a), b)
    decreases a
  {
    if a > 0 {
      ShrAdd(x / 2, a - 1, b);
    }
  }

  lemma {:induction false} MulGrows(a: nat, m: nat)
    requires a > 0
    ensures a * m >= m
  {
    if a > 1 {
      MulGrows(a - 1, m);
      assert a * m == (a - 1) * m + m;
    }
  }

  lemma {:induction false} MulSub(a: int, b: int, m: int)
    ensures (a - b) * m == a * m - b * m
  {
  }

  // Division with remainder is unique.
  lemma {:induction false} DivUnique(x: nat, m: nat, q: nat, r: nat)
    requires x == q * m + r && r < m
    ensures x / m == q && x % m == r
  {
    var p, s := x / m, x % m;
    assert x == p * m + s;
    if p < q {
      MulGrows(q - p, m);
      MulSub(q, p, m);
    } else if p > q {
      MulGrows(p - q, m);
      MulSub(p, q, m);
    }
  }

  lemma {:induction false} DivDivBound(r: nat, s: nat, m: nat, n: nat)
    requires r < n && s < m
    ensures r * m + s < m * n
  {
    MulSub(n, r, m);
    MulGrows(n - r, m);
  }

  lemma {:induction false} DivDivSum(q: nat, r: nat, s: nat, m: nat, n: nat)
    ensures (q * n + r) * m + s == q * (m * n) + (r * m + s)
  {
    assert (q * n + r) * m == (q * n) * m + r * m;
    assert (q * n) * m == q * (m * n);
  }

  lemma {:induction false} DivDiv(x: nat, m: nat, n: nat, w: nat)
    requires m > 0 && n > 0 && w == m * n
    ensures w > 0 && x / w == (x / m) / n
  {
    DivMod(x, m, n, w);
  }

  lemma {:induction false} Recompose(x: nat, m: nat)
    requires m > 0
    ensures x == (x / m) * m + x % m
  {
  }

  // Dividing in two steps.
  lemma {:induction false} DivMod(x: nat, m: nat, n: nat, w: nat)
    requires m > 0 && n > 0 && w == m * n
    ensures w > 0 && x / w == (x / m) / n
    ensures x % w == x % m + m * ((x / m) % n)
  {
    var y, s := x / m, x % m;
    var q, r := y / n, y % n;
    DivDivBound(r, s, m, n);
    DivDivSum(q, r, s, m, n);
    Recompose(x, m);
    Recompose(y, n);
    DivUnique(x, w, q, r * m + s);
  }

  lemma {:induction false} ShrDivides(x: nat, k: nat)
    ensures Shr(x, k) == x / Pow2(k)
  {
    if k > 0 {
      ShrDivides(x / 2, k - 1);
      DivMod(x, 2, Pow2(k - 1), Pow2(k));
    }
  }

  lemma {:induction false} Pow2Add(a: nat, b: nat)
    ensures Pow2(a + b) == Pow2(a) * Pow2(b)
  {
    if a > 0 {
      Pow2Add(a - 1, b);
    }
  }

  // Joining a shifted field and a smaller one is an addition.
  lemma {:induction false} OrFields(x: nat, k: nat, y: nat)
    requires y < Pow2(k)
    ensures Or(x * Pow2(k), y) == x * Pow2(k) + y
  {
    if k == 0 {
      OrZero(x);
    } else {
      OrFields(x, k - 1, y / 2);
      OrDouble(x * Pow2(k - 1), y);
      TwiceProduct(x, Pow2(k - 1));
    }
  }

  lemma {:induction false} OrDouble(z: nat, y: nat)
    ensures Or(2 * z, y) == y % 2 + 2 * Or(z, y / 2)
  {
    OrStep(2 * z, y);
  }

  lemma {:induction false} TwiceProduct(x: nat, a: nat)
    ensures x * (2 * a) == 2 * (x * a)
  {
  }

  lemma {:induction false} OrZero(x: nat)
    ensures Or(x, 0) == x
  {
    if x != 0 {
      OrZero(x / 2);
    }
  }

  lemma {:induction false} OrStep(x: nat, y: nat)
    ensures Or(x, y) == (if x % 2 == 0 && y % 2 == 0 then 0 else 1) + 2 * Or(x / 2, y / 2)
  {
  }

  lemma {:induction false} OrBound(x: nat, y: nat, k: nat)
    requires x < Pow2(k) && y < Pow2(k)
    ensures Or(x, y) < Pow2(k)
  {
    if k > 0 {
      OrStep(x, y);
      OrBound(x / 2, y / 2, k - 1);
    }
  }

  // The low field of a word has the low digits of the word.
  lemma {:induction false} BitLow(x: nat, k: nat, y: nat, i: nat)
    requires y < Pow2(k) && i < k
    ensures Bit(x * Pow2(k) + y, i) <==> Bit(y, i)
  {
    var z := x * Pow2(k - 1);
    assert x * Pow2(k) == 2 * z;
    if i > 0 {
      assert (2 * z + y) / 2 == z + y / 2;
      BitLow(x, k - 1, y / 2, i - 1);
    }
  }

  // ---- Buddies: flipping bit k of an aligned number ----

  function Buddy(p: nat, k: nat): nat {
    Xor(p, Pow2(k))
  }

  lemma {:induction false} XorPow2(p: nat, k: nat)
    ensures Xor(p, Pow2(k)) == if Bit(p, k) then p - Pow2(k) else p + Pow2(k)
    ensures Bit(p, k) ==> p >= Pow2(k)
  {
    if k == 0 {
      XorZero(p / 2);
      assert Xor(p / 2, Pow2(0) / 2) == p / 2;
    } else {
      XorPow2(p / 2, k - 1);
    }
  }

  // The lower end of the order-(k+1) run that holds p.
  function Parent(p: nat, k: nat): nat {
    if Bit(p, k) then (XorPow2(p, k); p - Pow2(k)) else p
  }

  lemma {:induction false} ParentAligned(p: nat, k: nat)
    requires Aligned(p, k)
    ensures Aligned(Parent(p, k), k + 1)
  {
    XorPow2(p, k);
    if k > 0 {
      XorPow2(p / 2, k - 1);
      ParentAligned(p / 2, k - 1);
      assert Parent(p, k) / 2 == Parent(p / 2, k - 1);
    }
  }

  // The two halves of an aligned run are aligned, and are each other's buddy.
  lemma {:induction false} HalvesAligned(p: nat, k: nat)
    requires Aligned(p, k + 1)
    ensures Aligned(p, k) && Aligned(p + Pow2(k), k)
    ensures !Bit(p, k) && Bit(p + Pow2(k), k)
  {
    if k > 0 {
      HalvesAligned(p / 2, k - 1);
      assert (p + Pow2(k)) / 2 == p / 2 + Pow2(k - 1);
    }
  }

  // A block and its buddy are the two halves of the parent run.
  lemma {:induction false} BuddyHalves(p: nat, k: nat)
    requires Aligned(p, k)
    ensures var q := Parent(p, k);
            && Aligned(q, k + 1)
            && (p == q || p == q + Pow2(k))
            && Buddy(p, k) == (if p == q then q + Pow2(k) else q)
            && Aligned(Buddy(p, k), k)
  {
    ParentAligned(p, k);
    XorPow2(p, k);
    HalvesAligned(Parent(p, k), k);
  }

  lemma {:induction false} HalvesAreBuddies(p: nat, k: nat)
    requires Aligned(p, k + 1)
    ensures Buddy(p, k) == p + Pow2(k) && Buddy(p + Pow2(k), k) == p
    ensures Parent(p, k) == p && Parent(p + Pow2(k), k) == p
  {
    HalvesAligned(p, k);
    XorPow2(p, k);
    XorPow2(p + Pow2(k), k);
  }

  lemma {:induction false} AlignedDown(p: nat, j: nat, k: nat)
    requires Aligned(p, k) && j <= k
    ensures Aligned(p, j)
  {
    if j > 0 {
      AlignedDown(p / 2, j - 1, k - 1);
    }
  }

  // Aligned runs nest or are disjoint: a smaller one that meets a larger one lies inside it.
  lemma {:induction false} RunsNest(p: nat, j: nat, q: nat, k: nat, i: nat)
    requires Aligned(p, j) && Aligned(q, k) && j <= k
    requires p <= i < p + Pow2(j) && q <= i < q + Pow2(k)
    ensures q <= p && p + Pow2(j) <= q + Pow2(k)
    decreases j
  {
    if j > 0 {
      RunsNest(p / 2, j - 1, q / 2, k - 1, i / 2);
    }
  }
}
