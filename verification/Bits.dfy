/** Bitwise operations on natural numbers, as the 32- and 64-bit code uses them. */
module Bits {

  const TWO64: nat := 0x1_0000_0000_0000_0000
  const PAGE: nat := 4096

  /** 64-bit wrap-around. */
  function Wrap64(x: int): (r: nat)
    ensures 0 <= x < TWO64 ==> r == x
    ensures x < 0 <= x + TWO64 ==> r == x + TWO64
    ensures TWO64 <= x < 2 * TWO64 ==> r == x - TWO64
    ensures r < TWO64
  {
    x % TWO64
  }

  /** 64-bit round-up to a page multiple: sizes within 4095 of 2^64 wrap to 0. */
  function AlignUp(n: nat): (r: nat)
    ensures n <= TWO64 - PAGE ==> n <= r < n + PAGE
    ensures r < TWO64 && r % PAGE == 0
  {
    Wrap64(n + PAGE - 1) / PAGE * PAGE
  }

  function Pow2(n: nat): (r: nat)
    ensures r >= 1
  {
    if n == 0 then 1 else 2 * Pow2(n - 1)
  }

  function And(a: nat, b: nat): nat {
    if a == 0 || b == 0 then 0
    else 2 * And(a / 2, b / 2) + (if a % 2 == 1 && b % 2 == 1 then 1 else 0)
  }

  function Or(a: nat, b: nat): nat
    decreases a + b
  {
    if a == 0 && b == 0 then 0
    else 2 * Or(a / 2, b / 2) + (if a % 2 == 1 || b % 2 == 1 then 1 else 0)
  }

  /** Shift right by `k`. */
  function Shr(a: nat, k: nat): nat {
    if k == 0 then a else Shr(a / 2, k - 1)
  }

  /** The low `k` bits. */
  function Low(a: nat, k: nat): nat {
    if k == 0 then 0 else 2 * Low(a / 2, k - 1) + a % 2
  }

  lemma {:induction false} Pow2Monotone(a: nat, b: nat)
    requires a <= b
    ensures Pow2(a) <= Pow2(b)
  {
    if a < b { Pow2Monotone(a, b - 1); }
  }

  lemma {:induction false} Pow2Sum(a: nat, b: nat)
    ensures Pow2(a + b) == Pow2(a) * Pow2(b)
    decreases b
  {
    if b > 0 { Pow2Sum(a, b - 1); }
  }

  lemma {:induction false} DoubleProduct(a: nat, b: nat)
    ensures a * (2 * b) == 2 * (a * b)
  {
  }

  /** A number is its high part and its low part. */
  lemma {:induction false} Split(x: nat, k: nat)
    ensures x == Shr(x, k) * Pow2(k) + Low(x, k) && Low(x, k) < Pow2(k)
    decreases k
  {
    if k > 0 {
      Split(x / 2, k - 1);
      DoubleProduct(Shr(x / 2, k - 1), Pow2(k - 1));
    }
  }

  lemma {:induction false} ProductsAscend(a: nat, b: nat, d: nat)
    requires a <= b
    ensures a * d <= b * d
    decreases b
  {
    if a < b {
      ProductsAscend(a, b - 1, d);
      assert b * d == (b - 1) * d + d;
    }
  }

  lemma {:induction false} MulAtLeast(n: nat, d: nat)
    requires n >= 1
    ensures n * d >= d
  {
  }

  lemma {:induction false} DivModUnique(x: nat, d: nat, q: nat, r: nat)
    requires d > 0 && r < d && x == q * d + r
    ensures x / d == q && x % d == r
  {
    var q', r' := x / d, x % d;
    assert x == q' * d + r' by { assert x == d * (x / d) + x % d; }
    assert (q - q') * d == r' - r;
    if q > q' {
      MulAtLeast(q - q', d);
      assert false;
    } else if q < q' {
      MulAtLeast(q' - q, d);
      assert false;
    }
  }

  /** Shifts and masks are division and remainder by a power of two. */
  lemma {:induction false} ShrIsDiv(x: nat, k: nat)
    ensures x / Pow2(k) == Shr(x, k) && x % Pow2(k) == Low(x, k)
  {
    Split(x, k);
    DivModUnique(x, Pow2(k), Shr(x, k), Low(x, k));
  }

  lemma {:induction false} ShrShr(a: nat, j: nat, k: nat)
    ensures Shr(Shr(a, j), k) == Shr(a, j + k)
    decreases j
  {
    if j > 0 { ShrShr(a / 2, j - 1, k); }
  }

  /** A field inside the low bits is the same field of the whole number. */
  lemma {:induction false} LowField(a: nat, n: nat, j: nat, k: nat)
    requires j + k <= n
    ensures Low(Shr(Low(a, n), j), k) == Low(Shr(a, j), k)
    decreases n
  {
    if n > 0 {
      assert Low(a, n) / 2 == Low(a / 2, n - 1) && Low(a, n) % 2 == a % 2;
      if j > 0 {
        LowField(a / 2, n - 1, j - 1, k);
      } else if k > 0 {
        LowField(a / 2, n - 1, 0, k - 1);
      }
    }
  }

  lemma {:induction false} ShrSmall(x: nat, k: nat)
    requires x < Pow2(k)
    ensures Shr(x, k) == 0 && Low(x, k) == x
    decreases k
  {
    if k > 0 { ShrSmall(x / 2, k - 1); }
  }

  lemma {:induction false} LowZero(k: nat)
    ensures Low(0, k) == 0 && Shr(0, k) == 0
  {
    if k > 0 { LowZero(k - 1); }
  }

  /** Masking with 2^k - 1 is taking the remainder. */
  lemma {:induction false} AndMask(x: nat, k: nat)
    ensures And(x, Pow2(k) - 1) == Low(x, k)
    decreases k
  {
    if x == 0 {
      LowZero(k);
    } else if k > 0 {
      AndMask(x / 2, k - 1);
      assert (Pow2(k) - 1) / 2 == Pow2(k - 1) - 1 && (Pow2(k) - 1) % 2 == 1;
    }
  }

  /** The values of the powers that the code uses. */
  lemma {:induction false} Powers()
    ensures Pow2(9) == 512 && Pow2(12) == 0x1000 && Pow2(21) == 0x20_0000 && Pow2(32) == 0x1_0000_0000
    ensures Pow2(36) == 0x10_0000_0000 && Pow2(40) == 0x100_0000_0000 && Pow2(52) == 0x10_0000_0000_0000
  {
    assert Pow2(4) == 16 && Pow2(8) == 256;
    assert Pow2(9) == 2 * Pow2(8);
    Pow2Sum(8, 4);
    Pow2Sum(9, 12);
    Pow2Sum(12, 12);
    Pow2Sum(24, 8);
    Pow2Sum(24, 12);
    Pow2Sum(36, 4);
    Pow2Sum(40, 12);
  }

  /** Bit `k` as a number. */
  function Bit(x: nat, k: nat): nat {
    x / Pow2(k) % 2
  }

  lemma {:induction false} ShrBit(x: nat, k: nat)
    ensures Shr(x, k) % 2 == Bit(x, k)
  {
    ShrIsDiv(x, k);
  }

  /** A conjunction with one bit. */
  lemma {:induction false} AndBit(x: nat, k: nat)
    ensures And(x, Pow2(k)) == if Shr(x, k) % 2 == 1 then Pow2(k) else 0
    decreases k
  {
    if x == 0 {
      LowZero(k);
    } else if k > 0 {
      AndBit(x / 2, k - 1);
      assert Pow2(k) / 2 == Pow2(k - 1) && Pow2(k) % 2 == 0;
    } else {
      AndZero(x / 2);
    }
  }

  lemma {:induction false} AndZero(x: nat)
    ensures And(x, 0) == 0
  {
  }

  /** A disjunction with one bit. */
  lemma {:induction false} OrBit(x: nat, k: nat)
    ensures Or(x, Pow2(k)) == if Shr(x, k) % 2 == 1 then x else x + Pow2(k)
    decreases k
  {
    OrHalf(x, Pow2(k));
    if k > 0 {
      OrBit(x / 2, k - 1);
      assert Pow2(k) / 2 == Pow2(k - 1) && Pow2(k) % 2 == 0;
    } else {
      OrZero(x / 2);
    }
  }

  lemma {:induction false} OrZero(a: nat)
    ensures Or(a, 0) == a
  {
    if a > 0 { OrZero(a / 2); }
  }

  lemma {:induction false} OrHalf(a: nat, b: nat)
    ensures Or(a, b) / 2 == Or(a / 2, b / 2)
    ensures Or(a, b) % 2 == (if a % 2 == 1 || b % 2 == 1 then 1 else 0)
  {
  }

  /** Fields of a disjunction are disjunctions of the fields. */
  lemma {:induction false} OrFields(a: nat, b: nat, k: nat)
    ensures Shr(Or(a, b), k) == Or(Shr(a, k), Shr(b, k))
    ensures Low(Or(a, b), k) == Or(Low(a, k), Low(b, k))
    decreases k
  {
    if k > 0 {
      OrHalf(a, b);
      OrFields(a / 2, b / 2, k - 1);
      OrHalf(Low(a, k), Low(b, k));
    }
  }
}
