/** Power-of-two arithmetic behind the allocator and the ring: the logarithms built on
    "count leading zeroes", and the align_up / align_down masks of xi/ext/align.h. */
module Bits {

  /** Bytes in a page of memory. */
  const PAGE: nat := 4096

  function Pow2(n: nat): (p: nat)
    ensures p >= 1
  {
    if n == 0 then 1 else 2 * Pow2(n - 1)
  }

  /** Number of binary digits of n; 0 has none. */
  function BitLen(n: nat): nat {
    if n == 0 then 0 else 1 + BitLen(n / 2)
  }

  lemma {:induction false} BitLenBounds(n: nat)
    requires n > 0
    ensures BitLen(n) >= 1
    ensures Pow2(BitLen(n) - 1) <= n < Pow2(BitLen(n))
  {
    if n > 1 { BitLenBounds(n / 2); }
  }

  lemma {:induction false} Pow2Monotone(a: nat, b: nat)
    requires a <= b
    ensures Pow2(a) <= Pow2(b)
    decreases b - a
  {
    if a < b { Pow2Monotone(a + 1, b); }
  }

  lemma AtMostPow2(c: nat, b: nat)
    requires c > 0 ==> Pow2(c - 1) < Pow2(b)
    ensures c <= b
  {
    if c > b { Pow2Monotone(b, c - 1); }
  }

  lemma {:induction false} Pow2Sum(a: nat, b: nat)
    ensures Pow2(a + b) == Pow2(a) * Pow2(b)
  {
    if a > 0 { Pow2Sum(a - 1, b); }
  }

  /** The only k with 2^k <= n < 2^(k+1) is BitLen(n) - 1. */
  lemma {:induction false} BitLenUnique(n: nat, k: nat)
    requires Pow2(k) <= n < Pow2(k + 1)
    ensures BitLen(n) == k + 1
  {
    BitLenBounds(n);
    var b := BitLen(n);
    if b > k + 1 { Pow2Monotone(k + 1, b - 1); }
    if b < k + 1 { Pow2Monotone(b, k); }
  }

  lemma {:induction false} BitLenMonotone(m: nat, n: nat)
    requires m <= n
    ensures BitLen(m) <= BitLen(n)
  {
    if 0 < m { BitLenMonotone(m / 2, n / 2); }
  }

  lemma {:induction false} BitLenFits(n: nat, w: nat)
    requires n < Pow2(w)
    ensures BitLen(n) <= w
  {
    if n > 0 { BitLenFits(n / 2, w - 1); }
  }

  lemma Pow2Of32()
    ensures Pow2(30) == 0x4000_0000 && Pow2(31) == 0x8000_0000 && Pow2(32) == 0x1_0000_0000
  {
    assert Pow2(8) == 256;
    Pow2Sum(8, 8);
    Pow2Sum(16, 8);
    Pow2Sum(24, 6);
    assert Pow2(6) == 64;
  }

  type u32 = n: nat | n < 0x1_0000_0000

  /** count_leading_zeroes of a 32-bit word. */
  function Clz(n: u32): nat {
    Pow2Of32();
    BitLenFits(n, 32);
    32 - BitLen(n)
  }

  /** Bitwise and, digit by digit. */
  function And(x: nat, y: nat): nat
    decreases x
  {
    if x == 0 || y == 0 then 0
    else (if x % 2 == 1 && y % 2 == 1 then 1 else 0) + 2 * And(x / 2, y / 2)
  }

  /** Complement within w bits. */
  function Not(w: nat, x: nat): nat
    requires x < Pow2(w)
  {
    Pow2(w) - 1 - x
  }

  /** align_up of a w-bit unsigned integer, wrap-around of the sum included. */
  function AlignUp(w: nat, v: nat, align: nat): nat
    requires 1 <= align <= Pow2(w) && v < Pow2(w)
  {
    And((v + align - 1) % Pow2(w), Not(w, align - 1))
  }

  /** align_down of a w-bit unsigned integer. */
  function AlignDown(w: nat, v: nat, align: nat): nat
    requires 1 <= align <= Pow2(w) && v < Pow2(w)
  {
    And(v, Not(w, align - 1))
  }

  lemma {:induction false} MulGap(a: int, b: int, d: nat)
    ensures a < b ==> a * d + d <= b * d
    decreases b - a
  {
    if a + 1 < b { MulGap(a + 1, b, d); }
    assert (a + 1) * d == a * d + d;
  }

  lemma QuotientUnique(v: nat, d: nat, q: nat, r: nat)
    requires d > 0 && r < d && v == q * d + r
    ensures v / d == q && v % d == r
  {
    DivModOf(v, d);
    MulGap(q, v / d, d);
    MulGap(v / d, q, d);
  }

  lemma DivModOf(v: nat, d: nat)
    requires d > 0
    ensures v == v / d * d + v % d && v % d < d
  {
  }

  lemma MultipleOf(q: nat, a: nat)
    requires a > 0
    ensures (q * a) % a == 0 && (q * a) / a == q
  {
    QuotientUnique(q * a, a, q, 0);
  }

  lemma HalveQuotient(v: nat, p: nat)
    requires p >= 1
    ensures v / (2 * p) * (2 * p) == 2 * ((v / 2) / p * p)
  {
    var q := (v / 2) / p;
    var r := (v / 2) % p;
    DivModOf(v / 2, p);
    assert q * (2 * p) == 2 * (q * p);
    QuotientUnique(v, 2 * p, q, 2 * r + v % 2);
  }

  lemma {:induction false} AndAllOnes(w: nat, v: nat)
    requires v < Pow2(w)
    ensures And(v, Pow2(w) - 1) == v
    decreases w
  {
    if v > 0 { AndAllOnes(w - 1, v / 2); }
  }

  /** v rounded down to a multiple of p. */
  function RoundDown(v: nat, p: nat): nat
    requires p > 0
  {
    v / p * p
  }

  lemma RoundDownStep(v: nat, p: nat)
    requires p > 0
    ensures RoundDown(v, 2 * p) == 2 * RoundDown(v / 2, p)
  {
    HalveQuotient(v, p);
  }

  lemma RoundDownBounds(v: nat, p: nat)
    requires p > 0
    ensures RoundDown(v, p) <= v < RoundDown(v, p) + p && RoundDown(v, p) % p == 0
  {
    DivModOf(v, p);
    MultipleOf(v / p, p);
  }

  lemma NextPow2(n: nat)
    ensures Pow2(n + 1) == 2 * Pow2(n)
  {
  }

  /** The mask that clears the low k bits. */
  lemma MaskEven(w: nat, k: nat)
    requires 0 < k <= w
    ensures Pow2(k) <= Pow2(w) && Pow2(k - 1) <= Pow2(w - 1)
    ensures Not(w, Pow2(k) - 1) == 2 * Not(w - 1, Pow2(k - 1) - 1)
  {
    hide Pow2;
    Pow2Monotone(k, w);
    Pow2Monotone(k - 1, w - 1);
    NextPow2(w - 1);
    NextPow2(k - 1);
  }

  lemma MaskNone(w: nat, v: nat)
    requires v < Pow2(w)
    ensures Pow2(0) == 1 && And(v, Not(w, 0)) == RoundDown(v, 1)
  {
    AndAllOnes(w, v);
  }

  /** Masking off the low k bits rounds down to a multiple of 2^k. */
  lemma {:induction false} MaskIsRounding(w: nat, v: nat, k: nat)
    requires k <= w && v < Pow2(w)
    ensures 1 <= Pow2(k) <= Pow2(w)
    ensures And(v, Not(w, Pow2(k) - 1)) == RoundDown(v, Pow2(k))
    decreases w
  {
    hide And, Pow2, Not, RoundDown;
    Pow2Monotone(k, w);
    if k == 0 {
      MaskNone(w, v);
    } else {
      NextPow2(w - 1);
      NextPow2(k - 1);
      MaskEven(w, k);
      MaskIsRounding(w - 1, v / 2, k - 1);
      RoundDownStep(v, Pow2(k - 1));
      AndEven(v, Not(w - 1, Pow2(k - 1) - 1));
    }
  }

  lemma AndEven(v: nat, m: nat)
    ensures And(v, 2 * m) == 2 * And(v / 2, m)
  {
    var mm := 2 * m;
    assert mm % 2 == 0 && mm / 2 == m;
    if v != 0 && mm != 0 {
      assert And(v, mm) == 0 + 2 * And(v / 2, mm / 2);
    }
  }

  /** What align_up promises: with a power-of-two alignment and no overflow of the sum, the
      least multiple of the alignment that is not below v. */
  lemma AlignUpLeast(w: nat, v: nat, k: nat)
    requires k <= w && v + Pow2(k) - 1 < Pow2(w)
    ensures Pow2(k) <= Pow2(w)
    ensures var r := AlignUp(w, v, Pow2(k));
            v <= r < v + Pow2(k) && r % Pow2(k) == 0 && r == RoundDown(v + Pow2(k) - 1, Pow2(k))
  {
    hide And, Pow2, Not, RoundDown;
    MaskIsRounding(w, v + Pow2(k) - 1, k);
    QuotientUnique(v + Pow2(k) - 1, Pow2(w), 0, v + Pow2(k) - 1);
    RoundDownBounds(v + Pow2(k) - 1, Pow2(k));
  }

  /** What align_down promises: the greatest multiple of the alignment that is not above v. */
  lemma AlignDownGreatest(w: nat, v: nat, k: nat)
    requires k <= w && v < Pow2(w)
    ensures Pow2(k) <= Pow2(w)
    ensures var r := AlignDown(w, v, Pow2(k)); r <= v < r + Pow2(k) && r % Pow2(k) == 0
  {
    MaskIsRounding(w, v, k);
    RoundDownBounds(v, Pow2(k));
  }
}
