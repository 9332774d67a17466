/** The size classes of the small-object pools and the sizing of a pool's spans. */
module SizeClasses {
  import opened Bits

  function Log2Floor(n: u32): nat
    requires n >= 1
  {
    BitLenBounds(n);
    32 - Clz(n) - 1
  }

  function Log2Ceil(n: u32): nat
    requires n >= 1
  {
    32 - Clz(n - 1)
  }

  /** idx_to_size: the two low bits of the index are a fraction, the rest an exponent. */
  function IdxToSize(idx: nat): nat {
    (4 + And(idx, 3)) * Pow2(idx / 4) / 4
  }

  /** usizeo_idx. */
  function SizeToIdx(size: u32): nat
    requires size >= 4
  {
    LogAtLeast2(size);
    4 * Log2Floor(size) - 3 + (size - 1) / Pow2(Log2Floor(size) - 2)
  }

  lemma LogBounds(n: u32)
    requires n >= 1
    ensures Pow2(Log2Floor(n)) <= n < Pow2(Log2Floor(n) + 1)
  {
    hide BitLen, Pow2;
    BitLenBounds(n);
  }

  lemma LogAtLeast2(n: u32)
    requires n >= 4
    ensures Log2Floor(n) >= 2
  {
    LogBounds(n);
    if Log2Floor(n) < 2 { Pow2Monotone(Log2Floor(n) + 1, 2); }
  }

  lemma AndLow(x: nat)
    ensures And(x, 3) == x % 4
  {
    assert And(x, 3) == (if x == 0 then 0 else x % 2 + 2 * And(x / 2, 1));
    assert And(x / 2, 1) == x / 2 % 2;
  }

  /** The size of a class in terms of its mantissa 4..7 and exponent. */
  lemma IdxToSizeIs(e: nat, f: nat)
    requires f < 4
    ensures IdxToSize(4 * e + f) == (4 + f) * Pow2(e) / 4
    ensures e >= 2 ==> IdxToSize(4 * e + f) == (4 + f) * Pow2(e - 2)
  {
    hide And;
    AndLow(4 * e + f);
    assert (4 * e + f) % 4 == f && (4 * e + f) / 4 == e;
    if e >= 2 {
      NextPow2(e - 2);
      NextPow2(e - 1);
      QuarterOf(4 + f, Pow2(e - 2));
    }
  }

  lemma QuarterOf(x: nat, p: nat)
    ensures x * (2 * (2 * p)) / 4 == x * p
  {
    assert x * (2 * (2 * p)) == 4 * (x * p);
  }

  /** Where SizeToIdx lands: with p a quarter of the power of two below size and q the number of
      whole p's below size, the class is (q + 1) * p. */
  lemma ClassOf(size: u32)
    requires size >= 4
    ensures var l := Log2Floor(size);
            && l >= 2
            && var p := Pow2(l - 2); var q := (size - 1) / p;
            && 4 * p <= size < 8 * p && 3 <= q <= 7 && (q == 3 <==> size == 4 * p)
            && q * p < size <= (q + 1) * p
            && SizeToIdx(size) == 4 * l - 3 + q
            && IdxToSize(SizeToIdx(size)) == (q + 1) * p
  {
    hide Log2Floor, Pow2, IdxToSize;
    LogAtLeast2(size);
    LogBounds(size);
    var l := Log2Floor(size);
    var p := Pow2(l - 2);
    NextPow2(l - 2);
    NextPow2(l - 1);
    NextPow2(l);
    var q := (size - 1) / p;
    DivModOf(size - 1, p);
    QuotientRange(size - 1, p, q);
    QuotientSpan(size, p, q);
    QuotientClass(l, p, q);
  }

  lemma QuotientSpan(size: nat, p: nat, q: nat)
    requires p >= 1 && size >= 1 && size - 1 == q * p + (size - 1) % p && (size - 1) % p < p
    ensures q * p < size <= (q + 1) * p
  {
    assert (q + 1) * p == q * p + p;
  }

  lemma QuotientClass(l: nat, p: nat, q: nat)
    requires l >= 2 && p == Pow2(l - 2) && 3 <= q <= 7
    ensures IdxToSize(4 * l - 3 + q) == (q + 1) * p
  {
    hide Pow2, IdxToSize;
    if q == 7 {
      IdxToSizeIs(l + 1, 0);
      NextPow2(l - 2);
    } else {
      IdxToSizeIs(l, q - 3);
    }
  }

  lemma QuotientRange(v: nat, p: nat, q: nat)
    requires p >= 1 && 4 * p - 1 <= v < 8 * p - 1 && q * p <= v < q * p + p
    ensures 3 <= q <= 7 && (q == 3 <==> v == 4 * p - 1)
  {
    MulGap(q, 3, p);
    MulGap(7, q, p);
    MulGap(3, q, p);
  }

  /** A request gets a class that holds it and wastes less than a quarter of it. */
  lemma ClassHolds(size: u32)
    requires size >= 4
    ensures var c := IdxToSize(SizeToIdx(size)); size <= c && 4 * (c - size) < size
  {
    ClassOf(size);
    hide IdxToSize, SizeToIdx, Log2Floor;
  }

  lemma ClassStep(i: nat)
    ensures IdxToSize(i) <= IdxToSize(i + 1)
  {
    hide IdxToSize, Pow2;
    var e, f := i / 4, i % 4;
    IdxToSizeIs(e, f);
    var p := Pow2(e);
    if f < 3 {
      IdxToSizeIs(e, f + 1);
      MulGap(4 + f, 5 + f, p);
      QuarterMonotone((4 + f) * p, (5 + f) * p);
    } else {
      IdxToSizeIs(e + 1, 0);
      NextPow2(e);
      QuarterMonotone(7 * p, 4 * (2 * p));
    }
  }

  lemma QuarterMonotone(a: nat, b: nat)
    requires a <= b
    ensures a / 4 <= b / 4
  {
  }

  lemma {:induction false} ClassesMonotone(i: nat, j: nat)
    requires i <= j
    ensures IdxToSize(i) <= IdxToSize(j)
    decreases j - i
  {
    if i < j {
      ClassStep(i);
      ClassesMonotone(i + 1, j);
    }
  }

  /** ... and the least such class: every class that holds the request is at least as large. */
  lemma ClassLeast(size: u32, i: nat)
    requires size >= 4 && IdxToSize(i) >= size
    ensures SizeToIdx(size) <= i && IdxToSize(SizeToIdx(size)) <= IdxToSize(i)
  {
    hide IdxToSize, SizeToIdx, Log2Floor;
    ClassOf(size);
    var idx := SizeToIdx(size);
    ClassBelow(size);
    if i < idx { ClassesMonotone(i, idx - 1); } else { ClassesMonotone(idx, i); }
  }

  lemma ClassBelow(size: u32)
    requires size >= 4
    ensures SizeToIdx(size) >= 1 && IdxToSize(SizeToIdx(size) - 1) < size
  {
    hide IdxToSize, SizeToIdx, Log2Floor, Pow2;
    ClassOf(size);
    var l := Log2Floor(size);
    var p := Pow2(l - 2);
    var q := (size - 1) / p;
    if q == 3 {
      NextPow2(l - 2);
      IdxToSizeIs(l - 1, 3);
      SevenQuarters(p);
    } else {
      IdxToSizeIs(l, q - 4);
    }
  }

  lemma SevenQuarters(p: nat)
    requires p >= 1
    ensures 7 * (2 * p) / 4 < 4 * p
  {
  }

  /** The class sizes from 4 up are fixed points: their own index is found again. */
  lemma IdxRoundTrip(i: nat)
    requires i >= 8 && IdxToSize(i) < 0x1_0000_0000
    ensures IdxToSize(i) >= 4 && SizeToIdx(IdxToSize(i)) == i
  {
    hide IdxToSize, SizeToIdx, Log2Floor, Pow2;
    var e, f := i / 4, i % 4;
    IdxToSizeIs(e, f);
    var p := Pow2(e - 2);
    var size := IdxToSize(i);
    Between(f, p);
    SizeLog(size, e, p);
    ClassOf(size);
    QuotientUnique(size - 1, p, 3 + f, p - 1);
  }

  lemma Between(f: nat, p: nat)
    requires f < 4 && p >= 1
    ensures 4 * p <= (4 + f) * p < 8 * p && (4 + f) * p == (3 + f) * p + p
  {
    assert (4 + f) * p == 4 * p + f * p;
    assert f * p <= 3 * p by { MulGap(f, 3, p); }
    assert (3 + f) * p == 3 * p + f * p;
  }

  lemma SizeLog(size: u32, e: nat, p: nat)
    requires e >= 2 && p == Pow2(e - 2) && 4 * p <= size < 8 * p
    ensures size >= 1 && Log2Floor(size) == e
  {
    assert Pow2(e) == 4 * p && Pow2(e + 1) == 8 * p;
    BitLenUnique(size, e);
  }

  // ---------------------------------------------------------------- the pools in use

  const NR_SMALL_POOLS: nat := 57
  const MAX_SMALL: nat := 16384

  /** nr_small_pools and max_small_allocation have these values, and every request from 4 bytes
      to the maximum lands in an existing pool. */
  lemma PoolsInUse(size: u32)
    requires 4 <= size <= MAX_SMALL
    ensures NR_SMALL_POOLS == SizeToIdx(4 * PAGE) + 1 && MAX_SMALL == IdxToSize(NR_SMALL_POOLS - 1)
    ensures SizeToIdx(size) < NR_SMALL_POOLS && size <= IdxToSize(SizeToIdx(size)) <= MAX_SMALL
  {
    hide IdxToSize, SizeToIdx;
    Pow2Sum(6, 6);
    assert Pow2(6) == 64 && Pow2(2) == 4;
    Pow2Sum(12, 2);
    IdxToSizeIs(14, 0);
    IdxRoundTrip(56);
    ClassLeast(size, 56);
    ClassHolds(size);
  }

  /** Rounding a request up to a power of two names a pool of exactly that size. */
  lemma PowerClass(size: u32)
    requires 4 <= size <= MAX_SMALL
    ensures var k := Log2Ceil(size);
            && size <= Pow2(k) < 2 * size && 2 <= k <= 14 && 4 <= Pow2(k) <= MAX_SMALL
            && IdxToSize(SizeToIdx(Pow2(k))) == Pow2(k)
  {
    hide IdxToSize, SizeToIdx, Clz, Pow2, Log2Ceil;
    var k := Log2Ceil(size);
    CeilBounds(size);
    Powers();
    NextPow2(k - 1);
    AtMostPow2(k, 14);
    AtMostPow2(2, k);
    Pow2Monotone(k, 14);
    Pow2Monotone(2, k);
    PowerIdx(k);
  }

  /** The pool, by its name, that a plain request is served from; 0 stands for the page allocator. */
  function SizedPool(size: nat): (p: nat) {
    var bytes := if size <= 8 then 8 else size;
    if bytes <= MAX_SMALL then SizeToIdx(bytes) + 1 else 0
  }

  function AlignedBytes(align: nat, size: nat): (b: nat)
    ensures b >= 8
  {
    var bytes := if size > align then size else align;
    if bytes <= 8 then 8 else bytes
  }

  /** The same for an aligned request. */
  function AlignedPool(align: nat, size: nat): (p: nat) {
    var bytes := AlignedBytes(align, size);
    if bytes <= MAX_SMALL && align <= PAGE then
      PowerClass(bytes);
      SizeToIdx(Pow2(Log2Ceil(bytes))) + 1
    else 0
  }

  lemma SizedPoolIs(size: nat)
    ensures var bytes := if size <= 8 then 8 else size;
            SizedPool(size) == if bytes <= MAX_SMALL then SizeToIdx(bytes) + 1 else 0
  {
    hide SizeToIdx;
  }

  /** What a plain request is served with: up to 16384 bytes an object of the least class that holds it
      and a pointer, which wastes less than a quarter; above that whole pages. */
  lemma SizedPoolServes(size: nat)
    ensures SizedPool(size) <= 57 && (SizedPool(size) != 0 <==> size <= 16384)
    ensures size <= 16384 ==>
              var q, z := if size <= 8 then 8 else size, IdxToSize(SizedPool(size) - 1);
              q <= z && 4 * z < 5 * q && forall i: nat :: IdxToSize(i) >= q ==> z <= IdxToSize(i)
  {
    hide IdxToSize, SizeToIdx;
    SizedPoolIs(size);
    if size <= MAX_SMALL {
      var q := if size <= 8 then 8 else size;
      PoolsInUse(q);
      ClassHolds(q);
      forall i: nat | IdxToSize(i) >= q
        ensures IdxToSize(SizeToIdx(q)) <= IdxToSize(i)
      {
        ClassLeast(q, i);
      }
    }
  }

  /** The same for an aligned request: an object of the least power of two, if that will do. */
  lemma AlignedPoolServes(align: nat, size: nat)
    ensures var q := if size <= 8 && align <= 8 then 8 else if size > align then size else align;
            && AlignedPool(align, size) <= 57 && (AlignedPool(align, size) != 0 <==> q <= 16384 && align <= 4096)
            && (AlignedPool(align, size) != 0 ==>
                  var z := IdxToSize(AlignedPool(align, size) - 1);
                  q <= z < 2 * q && exists k: nat :: z == Pow2(k))
  {
    hide IdxToSize, SizeToIdx, Log2Ceil, Pow2;
    AlignedPoolIs(align, size);
    var q := AlignedBytes(align, size);
    if q <= MAX_SMALL {
      PowerClass(q);
      PoolsInUse(Pow2(Log2Ceil(q)));
    }
  }

  lemma AlignedPoolIs(align: nat, size: nat)
    ensures var bytes := AlignedBytes(align, size);
            if bytes <= MAX_SMALL && align <= PAGE then
              4 <= Pow2(Log2Ceil(bytes)) <= MAX_SMALL
              && AlignedPool(align, size) == SizeToIdx(Pow2(Log2Ceil(bytes))) + 1
            else AlignedPool(align, size) == 0
    ensures AlignedBytes(align, size) == (if size <= 8 && align <= 8 then 8 else if size > align then size else align)
  {
    hide SizeToIdx, Log2Ceil, Pow2, IdxToSize;
    if AlignedBytes(align, size) <= MAX_SMALL { PowerClass(AlignedBytes(align, size)); }
  }

  lemma PowerClasses(k: nat)
    requires k >= 3
    ensures IdxToSize(4 * k) == Pow2(k) && 8 * IdxToSize(4 * k - 1) == 7 * Pow2(k)
  {
    hide IdxToSize, Pow2;
    NextPow2(k - 1);
    NextPow2(k - 2);
    NextPow2(k - 3);
    IdxToSizeIs(k, 0);
    IdxToSizeIs(k - 1, 3);
  }

  /** A request of q bytes is in the class of the power of two above it just when it is above the
      class before, of seven eighths. */
  lemma PowerClassFrom(q: u32, k: nat)
    requires 3 <= k <= 14 && 4 <= q <= Pow2(k) <= MAX_SMALL
    ensures SizeToIdx(q) == SizeToIdx(Pow2(k)) <==> 8 * q > 7 * Pow2(k)
  {
    hide IdxToSize, SizeToIdx, Pow2, Log2Floor;
    PowerClasses(k);
    IdxRoundTrip(4 * k);
    ClassHolds(q);
    ClassLeast(q, 4 * k);
    if q <= IdxToSize(4 * k - 1) {
      ClassLeast(q, 4 * k - 1);
    } else if SizeToIdx(q) <= 4 * k - 1 {
      ClassesMonotone(SizeToIdx(q), 4 * k - 1);
    }
  }

  /** Freeing an aligned block with the size that was asked for goes to the block's own pool just in
      these cases. */
  predicate SizedFits(align: nat, size: nat) {
    var bytes := AlignedBytes(align, size);
    if bytes <= MAX_SMALL && align <= PAGE then 8 * (if size <= 8 then 8 else size) > 7 * Pow2(Log2Ceil(bytes))
    else size > MAX_SMALL
  }

  lemma SizedAfterAligned(align: nat, size: nat)
    ensures SizedPool(size) == AlignedPool(align, size) <==> SizedFits(align, size)
  {
    hide IdxToSize, SizeToIdx, Pow2, Log2Ceil;
    var bytes := AlignedBytes(align, size);
    var q := if size <= 8 then 8 else size;
    if bytes <= MAX_SMALL && align <= PAGE {
      PowerClass(bytes);
      AtLeastThree(bytes);
      PowerClassFrom(q, Log2Ceil(bytes));
    }
  }

  lemma AtLeastThree(bytes: u32)
    requires 8 <= bytes <= MAX_SMALL
    ensures Log2Ceil(bytes) >= 3
  {
    hide Log2Ceil, Pow2;
    CeilBounds(bytes);
    if Log2Ceil(bytes) < 3 {
      Pow2Monotone(Log2Ceil(bytes), 2);
      Powers();
    }
  }

  lemma SixtyFour()
    ensures Pow2(6) == 64
  {
  }

  /** It is not always so: 80 bytes aligned to 64 come from the pool of 128-byte objects and go to that
      of 80-byte ones; 100 bytes aligned to two pages come from the page allocator. */
  lemma SizedMissesAligned()
    ensures !SizedFits(64, 80) && SizedPool(80) != AlignedPool(64, 80)
    ensures !SizedFits(8192, 100) && SizedPool(100) != 0 == AlignedPool(8192, 100)
  {
    hide IdxToSize, SizeToIdx, Pow2, Log2Ceil;
    SizedAfterAligned(64, 80);
    SizedAfterAligned(8192, 100);
    PowerClass(80);
    SixtyFour();
    if Log2Ceil(80) < 7 { Pow2Monotone(Log2Ceil(80), 6); }
    Pow2Monotone(7, Log2Ceil(80));
    NextPow2(6);
  }

  lemma Powers()
    ensures Pow2(1) == 2 && Pow2(2) == 4 && Pow2(12) == PAGE && Pow2(14) == MAX_SMALL
  {
    assert Pow2(6) == 64;
    Pow2Sum(6, 6);
    Pow2Sum(12, 2);
  }

  lemma PowerIdx(k: nat)
    requires 2 <= k <= 14 && 4 <= Pow2(k) <= MAX_SMALL
    ensures IdxToSize(SizeToIdx(Pow2(k))) == Pow2(k)
  {
    hide IdxToSize, SizeToIdx, Pow2;
    IdxToSizeIs(k, 0);
    NextPow2(k - 2);
    NextPow2(k - 1);
    IdxRoundTrip(4 * k);
  }

  lemma CeilBounds(n: u32)
    requires n >= 2
    ensures var k := Log2Ceil(n); k >= 1 && n <= Pow2(k) && Pow2(k - 1) < n
  {
    BitLenBounds(n - 1);
  }

  /** allocate_aligned on the small path: an object at any multiple of its power-of-two size
      inside a page-aligned span meets every alignment up to the page size. */
  lemma SmallAligned(page: nat, j: nat, k: nat, a: nat)
    requires a <= k && a <= 12
    ensures (page * PAGE + j * Pow2(k)) % Pow2(a) == 0
  {
    hide Pow2;
    Powers();
    Pow2Sum(12 - a, a);
    Pow2Sum(k - a, a);
    Factor(page, Pow2(12 - a), j, Pow2(k - a), Pow2(a));
  }

  lemma Factor(x: nat, u: nat, y: nat, v: nat, p: nat)
    requires p > 0
    ensures (x * (u * p) + y * (v * p)) % p == 0
  {
    assert x * (u * p) == (x * u) * p;
    assert y * (v * p) == (y * v) * p;
    assert (x * u) * p + (y * v) * p == (x * u + y * v) * p;
    MultipleOf(x * u + y * v, p);
  }

  // ---------------------------------------------------------------- sizing the spans of a pool

  /** waste() > 0.05 for spans of sb bytes. */
  predicate Wasteful(sb: nat, objectSize: nat)
    requires objectSize > 0
  {
    20 * (sb % objectSize) > sb
  }

  /** The condition under which the pool constructor doubles its span. */
  predicate TooSmall(span: nat, objectSize: nat)
    requires objectSize > 0
  {
    var sb := span * PAGE;
    objectSize > sb || (span < 32 && Wasteful(sb, objectSize)) || sb / objectSize < 32
  }

  lemma BigEnough(objectSize: nat)
    requires 0 < objectSize <= MAX_SMALL
    ensures !TooSmall(128, objectSize)
  {
    DivAtLeast(128 * PAGE, objectSize, 32);
  }

  lemma DivAtLeast(v: nat, d: nat, n: nat)
    requires d > 0 && n * d <= v
    ensures v / d >= n
  {
    DivModOf(v, d);
    MulGap(v / d, n, d);
  }

  lemma DivAtMost(v: nat, d: nat, n: nat)
    requires d > 0 && v < (n + 1) * d
    ensures v / d <= n
  {
    DivModOf(v, d);
    MulGap(n, v / d, d);
    assert (n + 1) * d == n * d + d;
  }

  /** A span that was doubled held fewer than 32 objects before, so it holds at most 63 now. */
  lemma DoubledCount(span: nat, objectSize: nat)
    requires 0 < objectSize && TooSmall(span, objectSize)
    ensures 2 * span * PAGE / objectSize <= 63
  {
    var sb := span * PAGE;
    DivModOf(sb, objectSize);
    FewObjects(sb, objectSize, span);
    DivAtMost(2 * sb, objectSize, 63);
  }

  lemma FewObjects(sb: nat, objectSize: nat, span: nat)
    requires objectSize > 0 && sb == span * PAGE && TooSmall(span, objectSize)
    ensures sb < 32 * objectSize
  {
    DivModOf(sb, objectSize);
    if sb / objectSize < 32 { MulGap(sb / objectSize, 32, objectSize); }
  }

  /** The least power of two of pages that holds 32 objects. */
  ghost predicate LeastSpan(span: nat, objectSize: nat)
    requires objectSize > 0
  {
    && (exists k: nat :: span == Pow2(k))
    && span * 4096 / objectSize >= 32 && forall j: nat :: Pow2(j) < span ==> Pow2(j) * 4096 / objectSize < 32
  }

  /** The span-sizing loop of the small_pool constructor. It ends for every class in use, with the least
      power of two of pages that holds 32 objects. That has at most 128 pages and holds 32 to 4096 objects, so that the
      place of a page in its span fits in 8 bits and the objects of a span can be counted in 16. */
  method SpanSize(objectSize: nat) returns (span: nat)
    requires 0 < objectSize <= MAX_SMALL
    ensures LeastSpan(span, objectSize) && !TooSmall(span, objectSize)
    ensures 1 <= span <= 128 && 32 <= span * PAGE / objectSize <= 4096
  {
    hide LeastSpan;
    span := 1;
    ghost var k := 0;
    DivAtMost(PAGE, objectSize, 4096);
    while TooSmall(span, objectSize)
      invariant 0 <= k <= 7 && span == Pow2(k) && 1 <= span <= 128
      invariant span * PAGE / objectSize <= 4096
      invariant forall j: nat :: j < k ==> TooSmall(Pow2(j), objectSize)
      decreases 128 - span
    {
      BigEnough(objectSize);
      DoubledCount(span, objectSize);
      k := k + 1;
      Small128(k);
      span := span * 2;
    }
    SpanIsLeast(span, k, objectSize);
  }

  lemma SpanIsLeast(span: nat, k: nat, objectSize: nat)
    requires objectSize > 0 && span == Pow2(k) && !TooSmall(span, objectSize)
    requires forall j: nat :: j < k ==> TooSmall(Pow2(j), objectSize)
    ensures LeastSpan(span, objectSize)
  {
    hide TooSmall, Pow2;
    WasteNeverDecides(span, objectSize);
    forall j: nat | Pow2(j) < span
      ensures Pow2(j) * 4096 / objectSize < 32
    {
      if j >= k { Pow2Monotone(k, j); }
      WasteNeverDecides(Pow2(j), objectSize);
    }
  }

  /** Of the three reasons for doubling the span only the third counts: what holds 32 objects wastes less
      than a thirty-second. */
  lemma WasteNeverDecides(span: nat, objectSize: nat)
    requires objectSize > 0
    ensures TooSmall(span, objectSize) <==> span * 4096 / objectSize < 32
  {
    var sb := span * PAGE;
    DivModOf(sb, objectSize);
    if sb / objectSize >= 32 { MulGap(32, sb / objectSize, objectSize); } else { FewObjects(sb, objectSize, span); }
  }

  lemma Small128(k: nat)
    requires k >= 1 && Pow2(k - 1) != 128 && k <= 8
    ensures k <= 7 && Pow2(k) <= 128
  {
    assert Pow2(7) == 128;
    Pow2Monotone(k, 7);
  }
}
