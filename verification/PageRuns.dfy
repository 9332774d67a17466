/** Calls on the page allocator as steps of the page pool, and what holds over every run. */
module PageRuns {
  import opened Bits
  import opened PageModel
  import opened PageOps

  const SIZEOF_PAGE: nat := 32
  const BOOTSTRAP_PAGES: nat := 8192

  /** What a page allocation returns: std::bad_alloc, nullptr, or the first page. */
  datatype Got = BadAlloc | Null | At(page: nat)

  // ---------------------------------------------------------------- the page array

  /** Pages taken by the array of page structures for nr pages and the sentinel. */
  function ArrayPages(nr: u32): nat {
    Pow2Sum(32, 32);
    Pow2Of32();
    AlignUp(64, SIZEOF_PAGE * (nr + 1), PAGE) / PAGE
  }

  lemma ArrayPagesFit(nr: u32)
    ensures var a := ArrayPages(nr);
            PAGE * (a - 1) < SIZEOF_PAGE * (nr + 1) <= PAGE * a && 1 <= a <= nr / 128 + 2
  {
    Pow2Sum(32, 32);
    Pow2Of32();
    assert Pow2(12) == PAGE;
    AlignUpLeast(64, SIZEOF_PAGE * (nr + 1), 12);
  }

  /** The page array sits in its own span; page 0 is kept even when the array has moved. There is a
      page behind the array: do_resize takes the new array from the old pool. */
  ghost predicate ArrayOk(h: Heap) {
    h.nr > 0 ==>
      && h.arr in h.spans && h.nr < 0x1_0000_0000
      && h.spans[h.arr] == Span(ArrayPages(h.nr), Reserved)
      && h.arr + ArrayPages(h.nr) < h.nr
      && (h.arr == 0 ==> ArrayPages(h.nr) >= 2)
      && (h.arr != 0 ==> 0 in h.spans && h.spans[0].len == 1)
      && forall s :: s in h.spans && h.spans[s].kind.Reserved? ==> s == 0 || s == h.arr
  }

  ghost predicate FullInv(h: Heap) {
    Inv(h) && ArrayOk(h)
  }

  // ---------------------------------------------------------------- initialize

  /** A pool nobody has touched. */
  ghost function Untouched(): Heap {
    Heap(0, map[], seq(NR_SPAN_LISTS, _ => []), 0, 0)
  }

  ghost function Bootstrapping(): Heap {
    BootstrapArray();
    var r := ArrayPages(BOOTSTRAP_PAGES);
    Heap(BOOTSTRAP_PAGES, map[0 := Span(r, Reserved), r := Span(BOOTSTRAP_PAGES - r, Raw)], seq(NR_SPAN_LISTS, _ => []),
         0, 0)
  }

  ghost function Initialized(): Heap {
    PushFree(Bootstrapping(), ArrayPages(BOOTSTRAP_PAGES))
  }

  ghost function Started(h: Heap): Heap {
    if h.nr == 0 then Initialized() else h
  }

  lemma UntouchedInv()
    ensures FullInv(Untouched())
  {
    assert FreePages(Untouched().spans, 0) == {};
  }

  lemma BootstrapArray()
    ensures BOOTSTRAP_PAGES == 8192 && NR_SPAN_LISTS == 32
    ensures ArrayPages(BOOTSTRAP_PAGES) == 65
  {
    ArrayPagesFit(BOOTSTRAP_PAGES);
  }

  lemma BootstrappingCore()
    ensures Core(Bootstrapping())
    ensures Bootstrapping() == Heap(8192, map[0 := Span(65, Reserved), 65 := Span(8127, Raw)],
                                    seq(NR_SPAN_LISTS, _ => []), 0, 0)
  {
    BootstrapArray();
    hide ArrayPages;
    var m := Bootstrapping().spans;
    assert m == map[0 := Span(65, Reserved), 65 := Span(8127, Raw)];
    forall i | 0 <= i < BOOTSTRAP_PAGES
      ensures Covered(m, i)
    {
      if i < 65 { assert Covers(m, 0, i); } else { assert Covers(m, 65, i); }
    }
  }

  lemma InitializedCore()
    ensures Core(Initialized()) && Initialized().nrFree == 8127
    ensures Initialized().spans == map[0 := Span(65, Reserved), 65 := Span(8127, Free)]
    ensures Initialized().nr == 8192 && Initialized().arr == 0
  {
    BootstrapArray();
    BootstrappingCore();
    hide Core, ArrayPages, Push, Bootstrapping;
    PushCore(Bootstrapping(), 65);
  }

  lemma OneFreeSpan(m: map<nat, Span>, nr: nat, a: nat)
    requires a <= nr && a in m && m[a] == Span(nr - a, Free) && forall s: nat :: IsFree(m, s) ==> s == a
    ensures FreePages(m, nr) == Range(a, nr)
  {
    hide Range;
    forall i | 0 <= i < nr
      ensures FreeAt(m, i) <==> a <= i
    {
      if a <= i { assert IsFree(m, a) && Covers(m, a, i); }
    }
    hide FreeAt;
    assert FreePages(m, nr) == Range(a, nr);
  }

  lemma InitializedCount()
    ensures CountOk(Initialized())
  {
    hide Initialized, Core, FreePages, Range;
    InitializedCore();
    OneFreeSpan(Initialized().spans, 8192, 65);
  }

  lemma InitializedInv()
    ensures FullInv(Initialized()) && Initialized().nr == BOOTSTRAP_PAGES
    ensures Initialized().spans == map[0 := Span(65, Reserved), 65 := Span(8127, Free)]
  {
    InitializedCore();
    InitializedCount();
    BootstrapArray();
    hide Core, ArrayPages, Initialized, CountOk;
  }

  lemma StartedInv(h: Heap)
    requires FullInv(h)
    ensures FullInv(Started(h)) && Started(h).nr > 0
  {
    InitializedInv();
  }

  // ---------------------------------------------------------------- allocation

  /** The overflow guard of find_and_unlink_span: 2u << idx wraps at 32 bits. */
  ghost predicate SearchThrows(n: u32) {
    n >= (2 * Pow2(IndexOfConservative(n))) % 0x1_0000_0000
  }

  /** The guard fires for every request above 2^30 pages, and only for those. */
  lemma SearchThrowsExactly(n: u32)
    requires 1 <= n <= 0x8000_0000
    ensures SearchThrows(n) <==> n > 0x4000_0000
  {
    ConservativeIndex(n);
    Pow2Of32();
    var c := IndexOfConservative(n);
    hide IndexOfConservative, FloorLog2;
    if n <= 0x4000_0000 {
      AtMostPow2(c, 30);
      Pow2Monotone(c, 30);
      WrapsAt32(Pow2(c));
    } else {
      AtMostPow2(c, 31);
      if c <= 30 {
        Pow2Monotone(c, 30);
      }
      WrapsAt32(Pow2(c));
    }
  }

  lemma WrapsAt32(p: nat)
    ensures p < 0x8000_0000 ==> (2 * p) % 0x1_0000_0000 == 2 * p
    ensures p == 0x8000_0000 ==> (2 * p) % 0x1_0000_0000 == 0
  {
  }

  /** allocate_large_and_trim on an initialised pool, with nothing trimmed in front. */
  ghost function CarveFirst(h: Heap, n: u32): (Heap, Got)
    requires Inv(h) && n >= 1
  {
    var s := Pick(h, n);
    if s == 0 then (h, Null)
    else
      PickSound(h, n);
      (Take(h, s, 0, n), At(s))
  }

  /** The same with the front trimmed to an alignment of 2^k pages. */
  ghost function CarveAligned(h: Heap, k: nat, n: u32): (Heap, Got)
    requires Inv(h) && n >= 1 && n + Pow2(k) - 1 <= 0x8000_0000
  {
    var s := Pick(h, n + Pow2(k) - 1);
    if s == 0 then (h, Null)
    else
      TrimFits(h, k, n);
      var r := AlignUp(32, s, Pow2(k));
      (Take(h, s, r - s, n), At(r))
  }

  /** allocate_large. */
  ghost function AllocLarge(h: Heap, n: u32): (Heap, Got)
    requires FullInv(h) && 1 <= n <= 0x8000_0000
  {
    StartedInv(h);
    if SearchThrows(n) then (h, BadAlloc) else CarveFirst(Started(h), n)
  }

  /** allocate_large_aligned, for an alignment of 2^k pages. */
  ghost function AllocAligned(h: Heap, k: nat, n: u32): (Heap, Got)
    requires FullInv(h) && n >= 1 && n + Pow2(k) - 1 <= 0x8000_0000
  {
    StartedInv(h);
    if SearchThrows(n + Pow2(k) - 1) then (h, BadAlloc) else CarveAligned(Started(h), k, n)
  }

  lemma Unlisted(h: Heap)
    requires Core(h)
    ensures |h.lists| == NR_SPAN_LISTS && h.nr < 0x1_0000_0000
  {
  }

  lemma CoreOf(h: Heap)
    requires Inv(h)
    ensures Core(h)
  {
    hide Core;
  }

  lemma FreeIn(m: map<nat, Span>, s: nat)
    requires IsFree(m, s)
    ensures s in m
  {
  }

  /** Aligned allocation stays inside the span it found, and the carved span is aligned. */
  lemma TrimFits(h: Heap, k: nat, n: u32)
    requires Inv(h) && n >= 1 && n + Pow2(k) - 1 <= 0x8000_0000
    requires Pick(h, n + Pow2(k) - 1) != 0
    ensures var s := Pick(h, n + Pow2(k) - 1);
            && IsFree(h.spans, s) && s < 0x1_0000_0000 && Pow2(k) <= Pow2(32) == 0x1_0000_0000
            && var r := AlignUp(32, s, Pow2(k));
            s <= r < s + Pow2(k) && r % Pow2(k) == 0 && (r - s) + n <= h.spans[s].len
  {
    hide *;
    CoreOf(h);
    Unlisted(h);
    var s := Pick(h, n + Pow2(k) - 1);
    PickSound(h, n + Pow2(k) - 1);
    CoreSpan(h, s);
    FreeIn(h.spans, s);
    Pow2Of32();
    if k > 32 { Pow2Monotone(32, k); }
    AlignUpLeast(32, s, k);
  }

  /** What a successful carve at r of n pages does to a pool: the pages were free, they now
      form one span in use, nothing else in use changed, and the counter is exact. */
  ghost predicate Carved(h: Heap, h': Heap, r: nat, n: nat) {
    && h'.nr == h.nr && h'.arr == h.arr && r != 0
    && r !in Used(h.spans) && Used(h'.spans) == Used(h.spans)[r := Span(n, Large)]
    && FreePages(h.spans, h.nr) == FreePages(h'.spans, h.nr) + Range(r, r + n)
    && FreePages(h'.spans, h.nr) !! Range(r, r + n)
    && h'.nrFree == h.nrFree - n
  }

  ghost predicate NoFreeSpanOf(h: Heap, n: nat) {
    forall s: nat :: IsFree(h.spans, s) ==> h.spans[s].len < n
  }

  lemma UsedSettled(m: map<nat, Span>)
    ensures Settled(m) <==> Settled(Used(m))
  {
    forall s | s in m && m[s].kind.Raw?
      ensures s in Used(m) && Used(m)[s].kind.Raw?
    {
    }
    assert forall s :: s in Used(m) ==> s in m && m[s] == Used(m)[s];
  }

  ghost function ReservedSpans(m: map<nat, Span>): map<nat, Span> {
    map x | x in m && m[x].kind.Reserved? :: m[x]
  }

  lemma ReservedAreUsed(m: map<nat, Span>)
    ensures ReservedSpans(Used(m)) == ReservedSpans(m)
  {
  }

  lemma ArrayOkKept(h: Heap, h': Heap)
    requires ArrayOk(h) && h'.nr == h.nr && h'.arr == h.arr
    requires ReservedSpans(h'.spans) == ReservedSpans(h.spans)
    requires h.nr > 0 ==> 0 in h.spans && h.spans[0].kind.Reserved?
    ensures ArrayOk(h')
  {
    hide ArrayPages;
    var m, m', r := h.spans, h'.spans, ReservedSpans(h.spans);
    forall x: nat
      ensures x in m && m[x].kind.Reserved? <==> x in m' && m'[x].kind.Reserved?
      ensures x in m && m[x].kind.Reserved? ==> m'[x] == m[x]
    {
      assert x in r <==> x in m && m[x].kind.Reserved?;
      assert x in ReservedSpans(m') <==> x in m' && m'[x].kind.Reserved?;
    }
  }

  lemma TakeInv(h: Heap, s: nat, off: nat, n: nat)
    requires Inv(h) && IsFree(h.spans, s) && off + n <= h.spans[s].len && n >= 1
    ensures Inv(Take(h, s, off, n))
  {
    hide Core, Take, FreePages, CountOk, NoAdjacent, Taken, SpansInside, SpansDisjoint, Used, Settled, Range;
    var r := Take(h, s, off, n);
    CoreSpan(h, s);
    TakeCore(h, s, off, n);
    TakePages(h, s, off, n);
    TakenNoAdjacent(h.spans, h.nr, s, off, n);
    UsedSettled(h.spans);
    UsedSettled(r.spans);
    SettledUpdate(Used(h.spans), s + off, n);
  }

  lemma TakeArray(h: Heap, s: nat, off: nat, n: nat)
    requires FullInv(h) && IsFree(h.spans, s) && off + n <= h.spans[s].len && n >= 1
    ensures ArrayOk(Take(h, s, off, n)) && Carved(h, Take(h, s, off, n), s + off, n)
  {
    hide Core, Take, FreePages, CountOk, NoAdjacent, Taken, ArrayOk, SpansInside, SpansDisjoint, Used, Settled;
    var r := Take(h, s, off, n);
    CoreSpan(h, s);
    TakeCore(h, s, off, n);
    TakePages(h, s, off, n);
    ReservedAreUsed(h.spans);
    ReservedAreUsed(r.spans);
    ReservedUpdate(Used(h.spans), s + off, n);
    hide *;
    ArrayFrame(h, r);
    TakeCarved(h, s, off, n);
  }

  lemma TakeCarved(h: Heap, s: nat, off: nat, n: nat)
    requires Core(h) && IsFree(h.spans, s) && off + n <= h.spans[s].len && n >= 1
    ensures Carved(h, Take(h, s, off, n), s + off, n)
  {
    hide Core, Take, FreePages, CountOk, Taken, SpansInside, SpansDisjoint, Used;
    CoreSpan(h, s);
    TakeCore(h, s, off, n);
    TakePages(h, s, off, n);
  }

  lemma TakeFull(h: Heap, s: nat, off: nat, n: nat)
    requires FullInv(h) && IsFree(h.spans, s) && off + n <= h.spans[s].len && n >= 1
    ensures FullInv(Take(h, s, off, n)) && Carved(h, Take(h, s, off, n), s + off, n)
  {
    hide Inv, ArrayOk, Take, Carved;
    TakeInv(h, s, off, n);
    TakeArray(h, s, off, n);
  }

  lemma ArrayFrame(h: Heap, h': Heap)
    requires FullInv(h) && h'.nr == h.nr && h'.arr == h.arr
    requires ReservedSpans(h'.spans) == ReservedSpans(h.spans)
    ensures ArrayOk(h')
  {
    ArrayOkKept(h, h');
  }

  lemma SettledUpdate(u: map<nat, Span>, r: nat, n: nat)
    requires Settled(u)
    ensures Settled(u[r := Span(n, Large)])
  {
  }

  lemma ReservedUpdate(u: map<nat, Span>, r: nat, n: nat)
    requires r !in u
    ensures ReservedSpans(u[r := Span(n, Large)]) == ReservedSpans(u)
  {
  }

  lemma Unpack(h: Heap)
    requires FullInv(h)
    ensures Core(h) && CountOk(h) && NoAdjacent(h.spans) && Settled(h.spans) && ArrayOk(h) && Inv(h)
    ensures |h.lists| == NR_SPAN_LISTS
  {
  }

  lemma CarveFirstOk(h: Heap, n: u32)
    requires FullInv(h) && n >= 1
    ensures var (h', got) := CarveFirst(h, n);
            && FullInv(h') && !got.BadAlloc?
            && (got.Null? ==> h' == h && NoFreeSpanOf(h, n))
            && (got.At? ==> Carved(h, h', got.page, n))
  {
    hide FullInv, Take, Carved, Pick, Core, Inv, IsFree;
    Unpack(h);
    if Pick(h, n) == 0 {
      PickComplete(h, n);
    } else {
      PickSound(h, n);
      TakeFull(h, Pick(h, n), 0, n);
    }
  }

  lemma CarveAlignedOk(h: Heap, k: nat, n: u32)
    requires FullInv(h) && n >= 1 && n + Pow2(k) - 1 <= 0x8000_0000
    ensures var (h', got) := CarveAligned(h, k, n);
            && FullInv(h') && !got.BadAlloc?
            && (got.Null? ==> h' == h && NoFreeSpanOf(h, n + Pow2(k) - 1))
            && (got.At? ==> Carved(h, h', got.page, n) && got.page % Pow2(k) == 0)
  {
    hide FullInv, Take, Carved, Pick, Core, Inv, AlignUp, Pow2, IsFree;
    Unpack(h);
    var s := Pick(h, n + Pow2(k) - 1);
    if s == 0 {
      PickComplete(h, n + Pow2(k) - 1);
    } else {
      TrimFits(h, k, n);
      TakeFull(h, s, AlignUp(32, s, Pow2(k)) - s, n);
    }
  }

  /** Every outcome of allocate_large: a throw exactly above 2^30 pages, null exactly when no
      free span is long enough, otherwise a carve of n free pages. */
  lemma AllocLargeOk(h: Heap, n: u32)
    requires FullInv(h) && 1 <= n <= 0x8000_0000
    ensures var (h', got) := AllocLarge(h, n);
            && FullInv(h')
            && (got.BadAlloc? <==> n > 0x4000_0000) && (got.BadAlloc? ==> h' == h)
            && (got.Null? ==> h' == Started(h) && NoFreeSpanOf(Started(h), n))
            && (got.At? ==> Carved(Started(h), h', got.page, n))
  {
    hide FullInv, SearchThrows, Started, Carved, CarveFirst;
    SearchThrowsExactly(n);
    StartedInv(h);
    CarveFirstOk(Started(h), n);
  }

  /** allocate_large_aligned: additionally the first page is a multiple of the alignment; null
      only when no free span has the n + align - 1 pages it asks for. */
  lemma AllocAlignedOk(h: Heap, k: nat, n: u32)
    requires FullInv(h) && n >= 1 && n + Pow2(k) - 1 <= 0x8000_0000
    ensures var (h', got) := AllocAligned(h, k, n);
            && FullInv(h')
            && (got.BadAlloc? <==> n + Pow2(k) - 1 > 0x4000_0000) && (got.BadAlloc? ==> h' == h)
            && (got.Null? ==> h' == Started(h) && NoFreeSpanOf(Started(h), n + Pow2(k) - 1))
            && (got.At? ==> Carved(Started(h), h', got.page, n) && got.page % Pow2(k) == 0)
  {
    hide FullInv, SearchThrows, Started, Carved, CarveAligned;
    SearchThrowsExactly(n + Pow2(k) - 1);
    StartedInv(h);
    CarveAlignedOk(Started(h), k, n);
  }

  /** The span a search settles on is less than twice as long as any it could have been satisfied with at
      once. */
  ghost predicate GoodFit(m: map<nat, Span>, s: nat, n: nat) {
    && IsFree(m, s) && n <= m[s].len
    && forall t: nat, e: nat :: IsFree(m, t) && n <= Pow2(e) <= m[t].len ==> m[s].len < 2 * m[t].len
  }

  lemma PickFits(h: Heap, n: u32)
    requires Inv(h) && n >= 1
    ensures |h.lists| == NR_SPAN_LISTS && (Pick(h, n) != 0 ==> GoodFit(h.spans, Pick(h, n), n))
  {
    hide Core, Pick, Pow2;
    CoreOf(h);
    Unlisted(h);
    if Pick(h, n) != 0 {
      PickSound(h, n);
      forall t: nat, e: nat | IsFree(h.spans, t) && n <= Pow2(e) <= h.spans[t].len
        ensures h.spans[Pick(h, n)].len < 2 * h.spans[t].len
      {
        PickGoodFit(h, n, t, e);
      }
    }
  }

  /** What is handed out are the first pages of a free span that is a good fit ... */
  lemma AllocLargeFront(h: Heap, n: u32)
    requires FullInv(h) && 1 <= n <= 0x8000_0000
    ensures AllocLarge(h, n).1.At? ==> GoodFit(Started(h).spans, AllocLarge(h, n).1.page, n)
  {
    hide FullInv, SearchThrows, Started, Pick, Take, Inv, GoodFit, ArrayOk;
    StartedInv(h);
    FullIsInv(Started(h));
    PickFits(Started(h), n);
  }

  /** ... or those from the first multiple of the alignment on. */
  lemma AllocAlignedFront(h: Heap, k: nat, n: u32) returns (s: nat)
    requires FullInv(h) && n >= 1 && n + Pow2(k) - 1 <= 0x8000_0000
    ensures AllocAligned(h, k, n).1.At? ==>
              var r := AllocAligned(h, k, n).1.page;
              && GoodFit(Started(h).spans, s, n + Pow2(k) - 1) && s <= r < s + Pow2(k) && r % Pow2(k) == 0
              && IsFree(Started(h).spans, s) && r + n <= s + Started(h).spans[s].len
  {
    hide FullInv, SearchThrows, Started, Pick, Take, Inv, GoodFit, ArrayOk, Pow2, AlignUp, IsFree;
    StartedInv(h);
    FullIsInv(Started(h));
    PickFits(Started(h), n + Pow2(k) - 1);
    s := Pick(Started(h), n + Pow2(k) - 1);
    if s != 0 { TrimFits(Started(h), k, n); }
  }

  lemma FullIsInv(h: Heap)
    requires FullInv(h)
    ensures Inv(h)
  {
    hide Inv, ArrayOk;
  }

  // ---------------------------------------------------------------- free and shrink

  /** The span at s, of n pages, is gone from the spans in use; exactly its pages became free. */
  ghost predicate Released(h: Heap, h': Heap, s: nat, n: nat) {
    && h'.nr == h.nr && h'.arr == h.arr
    && Used(h'.spans) == Used(h.spans) - {s}
    && FreePages(h'.spans, h.nr) == FreePages(h.spans, h.nr) + Range(s, s + n)
    && FreePages(h.spans, h.nr) !! Range(s, s + n)
    && h'.nrFree == h.nrFree + n
  }

  lemma ReleasedOk(h: Heap, s: nat)
    requires Core(h) && s in h.spans && !IsFree(h.spans, s) && s != 0
    ensures Core(FreeSpan(h, s)) && Released(h, FreeSpan(h, s), s, h.spans[s].len)
    ensures CountOk(h) ==> CountOk(FreeSpan(h, s))
    ensures NoAdjacent(h.spans) ==> NoAdjacent(FreeSpan(h, s).spans)
  {
    hide Core, FreeSpan, FreePages, Used, CountOk, NoAdjacent, Merged;
    FreeSpanCore(h, s);
    FreeSpanMerges(h, s);
    FreeSpanPages(h, s);
    if NoAdjacent(h.spans) { FreeSpanNoAdjacent(h, s); }
  }

  lemma FreeSpanArray(h: Heap, s: nat)
    requires ArrayOk(h) && Core(h) && s in h.spans && !IsFree(h.spans, s) && !h.spans[s].kind.Reserved?
    requires Used(FreeSpan(h, s).spans) == Used(h.spans) - {s}
    requires FreeSpan(h, s).nr == h.nr && FreeSpan(h, s).arr == h.arr
    ensures ArrayOk(FreeSpan(h, s))
  {
    hide ArrayPages, FreeSpan;
    var h' := FreeSpan(h, s);
    ReservedAreUsed(h.spans);
    ReservedAreUsed(h'.spans);
    assert ReservedSpans(Used(h.spans) - {s}) == ReservedSpans(Used(h.spans));
    assert h.nr > 0 ==> 0 in h.spans && h.spans[0].kind.Reserved?;
    hide *;
    ArrayOkKept(h, h');
  }

  lemma NotReserved(h: Heap, s: nat)
    requires Core(h) && s in h.spans && !h.spans[s].kind.Reserved?
    ensures s != 0
  {
    CoreSpan(h, s);
  }

  /** free_large, and the return of a small-object span. */
  lemma FreeFull(h: Heap, s: nat)
    requires FullInv(h) && s in h.spans && (h.spans[s].kind.Large? || h.spans[s].kind.Small?)
    ensures FullInv(FreeSpan(h, s)) && Released(h, FreeSpan(h, s), s, h.spans[s].len)
  {
    hide Core, FreeSpan, CountOk, NoAdjacent, ArrayOk, FreePages, Used;
    Unpack(h);
    NotReserved(h, s);
    var h' := FreeSpan(h, s);
    ReleasedOk(h, s);
    FreeSpanArray(h, s);
    UsedSettled(h.spans);
    UsedSettled(h'.spans);
    assert Settled(Used(h.spans) - {s});
  }

  /** shrink of a large span to its first n pages. */
  ghost function ShrinkSpan(h: Heap, s: nat, n: nat): Heap
    requires s in h.spans && 1 <= n <= h.spans[s].len
  {
    if n == h.spans[s].len then h else FreeSpan(Split(h, s, n), s + n)
  }

  lemma SplitUsed(h: Heap, s: nat, n: nat)
    requires Core(h) && s in h.spans && !IsFree(h.spans, s) && 0 < n < h.spans[s].len
    ensures var h', sp := Split(h, s, n), h.spans[s];
            && Core(h') && s + n !in h.spans
            && Used(h'.spans) == Used(h.spans)[s := Span(n, sp.kind)][s + n := Span(sp.len - n, sp.kind)]
            && FreePages(h'.spans, h.nr) == FreePages(h.spans, h.nr)
            && (NoAdjacent(h.spans) ==> NoAdjacent(h'.spans))
  {
    hide Core, FreePages, FreeAt;
    SplitCore(h, s, n);
    FreePagesSame(h.spans, Split(h, s, n).spans, h.nr);
  }

  /** The span at s was cut to n pages; exactly the pages behind them became free. */
  ghost predicate Shrunk(h: Heap, h': Heap, s: nat, n: nat)
    requires s in h.spans
  {
    var e := s + h.spans[s].len;
    && h'.nr == h.nr && h'.arr == h.arr
    && Used(h'.spans) == Used(h.spans)[s := Span(n, Large)]
    && FreePages(h'.spans, h.nr) == FreePages(h.spans, h.nr) + Range(s + n, e)
    && FreePages(h.spans, h.nr) !! Range(s + n, e)
    && h'.nrFree == h.nrFree + h.spans[s].len - n
  }

  /** shrink keeps the first n pages in place and frees exactly the rest. */
  lemma ShrinkFull(h: Heap, s: nat, n: nat)
    requires FullInv(h) && s in h.spans && h.spans[s].kind.Large? && 1 <= n <= h.spans[s].len
    ensures FullInv(ShrinkSpan(h, s, n)) && Shrunk(h, ShrinkSpan(h, s, n), s, n)
  {
    hide Core, FreeSpan, CountOk, NoAdjacent, ArrayOk, FreePages, Used, Split;
    Unpack(h);
    if n == h.spans[s].len {
      KeepUsed(h.spans, s);
    } else {
      ShrinkSteps(h, s, n);
    }
  }

  lemma KeepUsed(m: map<nat, Span>, s: nat)
    requires s in m && !m[s].kind.Free?
    ensures Used(m)[s := m[s]] == Used(m)
  {
  }

  lemma ShrinkSteps(h: Heap, s: nat, n: nat)
    requires FullInv(h) && s in h.spans && h.spans[s].kind.Large? && 1 <= n < h.spans[s].len
    ensures FullInv(ShrinkSpan(h, s, n)) && Shrunk(h, ShrinkSpan(h, s, n), s, n)
  {
    hide Core, FreeSpan, CountOk, NoAdjacent, ArrayOk, FreePages, Used, Settled, FullInv;
    Unpack(h);
    SplitUsed(h, s, n);
    SplitFull(h, s, n);
    ReleaseTail(h, s, n, Split(h, s, n), s + n);
  }

  lemma ReleaseTail(h: Heap, s: nat, n: nat, h1: Heap, t: nat)
    requires s in h.spans && 1 <= n < h.spans[s].len && t == s + n && t !in h.spans
    requires FullInv(h1) && h1.nr == h.nr && h1.arr == h.arr && h1.nrFree == h.nrFree
    requires t in h1.spans && h1.spans[t] == Span(h.spans[s].len - n, Large)
    requires Used(h1.spans) == Used(h.spans)[s := Span(n, Large)][t := h1.spans[t]]
    requires FreePages(h1.spans, h.nr) == FreePages(h.spans, h.nr)
    ensures FullInv(FreeSpan(h1, t)) && Shrunk(h, FreeSpan(h1, t), s, n)
  {
    hide Core, FreeSpan, CountOk, NoAdjacent, ArrayOk, FreePages, Used, Settled, FullInv;
    FreeFull(h1, t);
    NotUsed(h.spans, t);
    UpdateThenRemove(Used(h.spans), s, Span(n, Large), t, h1.spans[t]);
  }

  lemma NotUsed(m: map<nat, Span>, s: nat)
    requires s !in m
    ensures s !in Used(m)
  {
  }

  lemma SplitCount(h: Heap, s: nat, n: nat)
    requires CountOk(h) && s in h.spans && 0 < n < h.spans[s].len
    requires FreePages(Split(h, s, n).spans, h.nr) == FreePages(h.spans, h.nr)
    ensures CountOk(Split(h, s, n))
  {
  }

  lemma UpdateThenRemove<V>(u: map<nat, V>, s: nat, a: V, t: nat, b: V)
    requires t !in u && s != t
    ensures u[s := a][t := b] - {t} == u[s := a]
  {
  }

  lemma SplitFull(h: Heap, s: nat, n: nat)
    requires FullInv(h) && s in h.spans && h.spans[s].kind.Large? && 0 < n < h.spans[s].len
    ensures FullInv(Split(h, s, n))
  {
    hide Core, CountOk, NoAdjacent, ArrayPages, FreePages;
    Unpack(h);
    SplitUsed(h, s, n);
    SplitCount(h, s, n);
    ReservedSplit(h, s, n);
    ArrayFrame(h, Split(h, s, n));
  }

  lemma ReservedSplit(h: Heap, s: nat, n: nat)
    requires Core(h) && s in h.spans && h.spans[s].kind.Large? && 0 < n < h.spans[s].len
    ensures ReservedSpans(Split(h, s, n).spans) == ReservedSpans(h.spans)
  {
    hide Core;
    SplitCore(h, s, n);
  }

  // ---------------------------------------------------------------- do_resize

  /** The invariant that survives while spans are being reshaped. */
  ghost predicate Mid(h: Heap) {
    Core(h) && CountOk(h) && NoAdjacent(h.spans)
  }

  /** The new pages join the pool as one span without tags. */
  ghost function AddPages(h: Heap, nr: nat): Heap
    requires h.nr < nr
  {
    h.(nr := nr, spans := h.spans[h.nr := Span(nr - h.nr, Raw)])
  }

  lemma AddPagesTiled(m: map<nat, Span>, nr: nat, nr': nat)
    requires Tiled(m, nr) && nr < nr'
    ensures nr !in m && Tiled(m[nr := Span(nr' - nr, Raw)], nr')
  {
    var m' := m[nr := Span(nr' - nr, Raw)];
    assert nr !in m;
    forall i | 0 <= i < nr'
      ensures Covered(m', i)
    {
      if i < nr {
        assert Covered(m, i);
        var x :| Covers(m, x, i);
        assert Covers(m', x, i);
      } else {
        assert Covers(m', nr, i);
      }
    }
  }

  lemma AddPagesFree(m: map<nat, Span>, nr: nat, nr': nat)
    requires SpansInside(m, nr) && nr !in m && nr < nr'
    ensures FreePages(m[nr := Span(nr' - nr, Raw)], nr') == FreePages(m, nr)
  {
    hide FreeAt;
    var m' := m[nr := Span(nr' - nr, Raw)];
    forall i | 0 <= i < nr'
      ensures FreeAt(m', i) <==> FreeAt(m, i)
      ensures FreeAt(m, i) ==> i < nr
    {
      AddPagesFreeAt(m, nr, nr', i);
    }
  }

  lemma AddPagesFreeAt(m: map<nat, Span>, nr: nat, nr': nat, i: nat)
    requires SpansInside(m, nr) && nr !in m && nr < nr'
    ensures FreeAt(m[nr := Span(nr' - nr, Raw)], i) <==> FreeAt(m, i)
    ensures FreeAt(m, i) ==> i < nr
  {
    var m' := m[nr := Span(nr' - nr, Raw)];
    if FreeAt(m, i) { var x :| IsFree(m, x) && Covers(m, x, i); assert IsFree(m', x) && Covers(m', x, i); }
    if FreeAt(m', i) { var x :| IsFree(m', x) && Covers(m', x, i); assert IsFree(m, x) && Covers(m, x, i); }
  }

  lemma AddPagesMid(h: Heap, nr: nat)
    requires Mid(h) && 0 < h.nr < nr < 0x1_0000_0000
    ensures var h' := AddPages(h, nr);
            && Mid(h') && h.nr !in h.spans && Used(h'.spans) == Used(h.spans)[h.nr := Span(nr - h.nr, Raw)]
            && FreePages(h'.spans, nr) == FreePages(h.spans, h.nr)
  {
    hide FreePages, FreeAt, Tiled, SpansInside, SpansDisjoint, ListsOk;
    AddPagesTiled(h.spans, h.nr, nr);
    assert SpansInside(h.spans, h.nr) by { CoreSpan(h, 0); }
    AddPagesFree(h.spans, h.nr, nr);
    ListsSame(h.spans, AddPages(h, nr).spans, h.lists);
  }

  lemma SetKindMid(h: Heap, s: nat, k: Kind)
    requires Mid(h) && s in h.spans && !IsFree(h.spans, s) && !k.Free? && s != 0
    ensures var h' := SetKind(h, s, k);
            && Mid(h') && Used(h'.spans) == Used(h.spans)[s := Span(h.spans[s].len, k)]
            && FreePages(h'.spans, h.nr) == FreePages(h.spans, h.nr)
  {
    hide Core, FreePages, FreeAt;
    SetKindCore(h, s, k);
    FreePagesSame(h.spans, SetKind(h, s, k).spans, h.nr);
  }

  lemma FreeSpanMid(h: Heap, s: nat)
    requires Mid(h) && s in h.spans && !IsFree(h.spans, s) && s != 0
    ensures Mid(FreeSpan(h, s)) && Released(h, FreeSpan(h, s), s, h.spans[s].len)
  {
    hide Core, CountOk, NoAdjacent, FreeSpan, Released;
    ReleasedOk(h, s);
  }

  lemma SplitMid(h: Heap, s: nat, n: nat)
    requires Mid(h) && s in h.spans && !IsFree(h.spans, s) && 0 < n < h.spans[s].len
    ensures var h', sp := Split(h, s, n), h.spans[s];
            && Mid(h') && s + n !in h.spans
            && Used(h'.spans) == Used(h.spans)[s := Span(n, sp.kind)][s + n := Span(sp.len - n, sp.kind)]
            && FreePages(h'.spans, h.nr) == FreePages(h.spans, h.nr)
  {
    hide Core, CountOk, NoAdjacent, FreePages, Used;
    SplitUsed(h, s, n);
    SplitCount(h, s, n);
  }

  /** First page and number of pages of the old array that are given back: page 0 stays. */
  function OldArray(h: Heap): (nat, nat)
    requires h.nr < 0x1_0000_0000
  {
    if h.arr == 0 then (1, if ArrayPages(h.nr) >= 1 then ArrayPages(h.nr) - 1 else 0) else (h.arr, ArrayPages(h.nr))
  }

  /** The new array's span at p becomes the page array and the new pages join the pool. */
  ghost function Relocated(h: Heap, p: nat, nr: nat): Heap
    requires p in h.spans && h.nr < nr
  {
    AddPages(SetKind(h, p, Reserved).(arr := p), nr)
  }

  /** Give the old array back, keeping page 0. */
  ghost function ReturnArray(h: Heap, oldArr: nat): Heap
    requires oldArr in h.spans && (oldArr == 0 ==> h.spans[0].len >= 2)
  {
    if oldArr == 0 then FreeSpan(Split(h, 0, 1), 1) else FreeSpan(h, oldArr)
  }

  lemma RelocatedOk(h: Heap, p: nat, nr: nat)
    requires FullInv(h) && 0 < h.nr < nr < 0x1_0000_0000 && p in h.spans && h.spans[p] == Span(ArrayPages(nr), Large)
    ensures var h' := Relocated(h, p, nr);
            && Mid(h') && h'.nr == nr && h'.arr == p && h'.nrFree == h.nrFree
            && h.arr in h'.spans && h'.spans[h.arr] == h.spans[h.arr]
            && p in h'.spans && p != h.arr && p != 0
            && Used(h'.spans) == Used(h.spans)[p := Span(ArrayPages(nr), Reserved)][h.nr := Span(nr - h.nr, Raw)]
            && h.nr !in Used(h.spans)
            && FreePages(h'.spans, nr) == FreePages(h.spans, h.nr)
  {
    hide Core, CountOk, NoAdjacent, FreePages, Used, ArrayPages, Settled;
    Unpack(h);
    NotReserved(h, p);
    SetKindMid(h, p, Reserved);
    var h1 := SetKind(h, p, Reserved).(arr := p);
    MidAnyArr(SetKind(h, p, Reserved), p);
    AddPagesMid(h1, nr);
    NotUsed(h.spans, h.nr);
  }

  lemma MidAnyArr(h: Heap, a: nat)
    requires Mid(h)
    ensures Mid(h.(arr := a))
  {
    hide Tiled, ListsOk, FreePages, NoAdjacent;
  }

  lemma ReturnFirstArray(h: Heap)
    requires Mid(h) && 0 in h.spans && h.spans[0].kind.Reserved? && h.spans[0].len >= 2
    ensures var h', n := ReturnArray(h, 0), h.spans[0].len - 1;
            && Mid(h') && h'.nr == h.nr && h'.arr == h.arr && h'.nrFree == h.nrFree + n
            && FreePages(h'.spans, h.nr) == FreePages(h.spans, h.nr) + Range(1, 1 + n)
            && FreePages(h.spans, h.nr) !! Range(1, 1 + n)
            && Used(h'.spans) == Used(h.spans)[0 := Span(1, Reserved)]
  {
    hide Core, CountOk, NoAdjacent, FreePages, Used, FreeSpan, Mid, Range;
    SplitMid(h, 0, 1);
    var h1 := Split(h, 0, 1);
    FreeSpanMid(h1, 1);
    NotUsed(h.spans, 1);
    UpdateThenRemove(Used(h.spans), 0, Span(1, Reserved), 1, h1.spans[1]);
  }

  /** What giving the old array back does to the spans in use and to the free pages. */
  lemma ReturnArrayOk(h: Heap, oldArr: nat)
    requires Mid(h) && oldArr in h.spans && h.spans[oldArr].kind.Reserved?
    requires oldArr == 0 ==> h.spans[0].len >= 2
    ensures var h', sp := ReturnArray(h, oldArr), h.spans[oldArr];
            var (o, n) := if oldArr == 0 then (1, sp.len - 1) else (oldArr, sp.len);
            && Mid(h') && h'.nr == h.nr && h'.arr == h.arr && h'.nrFree == h.nrFree + n
            && FreePages(h'.spans, h.nr) == FreePages(h.spans, h.nr) + Range(o, o + n)
            && FreePages(h.spans, h.nr) !! Range(o, o + n)
            && Used(h'.spans) == (if oldArr == 0 then Used(h.spans)[0 := Span(1, Reserved)]
                                  else Used(h.spans) - {oldArr})
  {
    hide *;
    if oldArr == 0 {
      ReturnFirstArray(h);
    } else {
      ReturnOtherArray(h, oldArr);
    }
  }

  lemma ReturnOtherArray(h: Heap, s: nat)
    requires Mid(h) && s in h.spans && h.spans[s].kind.Reserved? && s != 0
    ensures var h', n := ReturnArray(h, s), h.spans[s].len;
            && Mid(h') && h'.nr == h.nr && h'.arr == h.arr && h'.nrFree == h.nrFree + n
            && FreePages(h'.spans, h.nr) == FreePages(h.spans, h.nr) + Range(s, s + n)
            && FreePages(h.spans, h.nr) !! Range(s, s + n)
            && Used(h'.spans) == Used(h.spans) - {s}
  {
    hide Core, CountOk, NoAdjacent, FreePages, Used, FreeSpan, Mid, Range;
    FreeSpanMid(h, s);
  }

  lemma UsedOnly(m: map<nat, Span>, s: nat)
    requires s in Used(m)
    ensures s in m && m[s] == Used(m)[s] && !IsFree(m, s)
  {
  }

  lemma UsedHas(m: map<nat, Span>, s: nat)
    requires s in m && !IsFree(m, s)
    ensures s in Used(m) && Used(m)[s] == m[s]
  {
  }

  ghost predicate Movable(h: Heap, p: nat, nr: nat) {
    FullInv(h) && 0 < h.nr < nr < 0x1_0000_0000 && p in h.spans && h.spans[p] == Span(ArrayPages(nr), Large)
  }

  lemma ReturnReady(h: Heap, p: nat, nr: nat)
    requires Movable(h, p, nr)
    ensures var h2 := Relocated(h, p, nr);
            && h.arr in h2.spans && h2.spans[h.arr] == h.spans[h.arr]
            && h.spans[h.arr] == Span(ArrayPages(h.nr), Reserved) && (h.arr == 0 ==> ArrayPages(h.nr) >= 2)
  {
    hide Core, CountOk, NoAdjacent, FreePages, Used, Settled, Relocated, Mid, ArrayPages;
    Unpack(h);
    RelocatedOk(h, p, nr);
  }

  /** The relocation proper: the new array is the span at p, nr pages in the pool afterwards. */
  ghost function Moved(h: Heap, p: nat, nr: nat): Heap
    requires Movable(h, p, nr)
  {
    MovedReady(h, p, nr);
    FreeSpan(ReturnArray(Relocated(h, p, nr), h.arr), h.nr)
  }

  lemma MovedReady(h: Heap, p: nat, nr: nat)
    requires Movable(h, p, nr)
    ensures var h2 := Relocated(h, p, nr);
            && h.arr in h2.spans && (h.arr == 0 ==> h2.spans[0].len >= 2)
            && h.nr in ReturnArray(h2, h.arr).spans
  {
    ReturnReady(h, p, nr);
    MovedHalf(h, p, nr);
  }

  /** After the old array has gone back and before the new pages are released. */
  lemma MovedHalf(h: Heap, p: nat, nr: nat)
    requires Movable(h, p, nr) && h.arr in Relocated(h, p, nr).spans
    requires h.arr == 0 ==> Relocated(h, p, nr).spans[0].len >= 2
    ensures var h3 := ReturnArray(Relocated(h, p, nr), h.arr);
            var (o, n) := OldArray(h);
            && Mid(h3) && h3.nr == nr && h3.arr == p && h3.nrFree == h.nrFree + n
            && FreePages(h3.spans, nr) == FreePages(h.spans, h.nr) + Range(o, o + n)
            && FreePages(h.spans, h.nr) !! Range(o, o + n)
    ensures var h3 := ReturnArray(Relocated(h, p, nr), h.arr);
            && h.nr in h3.spans && h3.spans[h.nr] == Span(nr - h.nr, Raw)
            && Used(h3.spans) == MovedUsed(h, p, nr)[h.nr := Span(nr - h.nr, Raw)]
  {
    hide Core, CountOk, NoAdjacent, FreePages, Used, Settled, Relocated, Mid, ArrayPages, ReturnArray, FullInv,
         MovedUsed, Range, IsFree;
    ReturnReady(h, p, nr);
    RelocatedOk(h, p, nr);
    ReturnArrayOk(Relocated(h, p, nr), h.arr);
    MovedHalfUsed(h, p, nr);
    UsedOnly(ReturnArray(Relocated(h, p, nr), h.arr).spans, h.nr);
  }

  /** The spans in use after a relocation: the array's old span is gone, or cut to page 0. */
  ghost function MovedUsed(h: Heap, p: nat, nr: u32): map<nat, Span> {
    (if h.arr == 0 then Used(h.spans)[0 := Span(1, Reserved)]
     else Used(h.spans) - {h.arr})[p := Span(ArrayPages(nr), Reserved)]
  }

  lemma MovedHalfUsed(h: Heap, p: nat, nr: nat)
    requires Movable(h, p, nr) && h.arr in Relocated(h, p, nr).spans
    requires h.arr == 0 ==> Relocated(h, p, nr).spans[0].len >= 2
    ensures Used(ReturnArray(Relocated(h, p, nr), h.arr).spans) == MovedUsed(h, p, nr)[h.nr := Span(nr - h.nr, Raw)]
  {
    hide Core, CountOk, NoAdjacent, FreePages, Used, Settled, Relocated, Mid, ArrayPages, ReturnArray, FullInv;
    ReturnReady(h, p, nr);
    RelocatedOk(h, p, nr);
    ReturnArrayOk(Relocated(h, p, nr), h.arr);
    ZeroUsed(h);
    Reorder(Used(h.spans), p, Span(ArrayPages(nr), Reserved), h.nr, Span(nr - h.nr, Raw), h.arr, Span(1, Reserved));
  }

  lemma ZeroUsed(h: Heap)
    requires FullInv(h) && h.nr > 0
    ensures h.arr < h.nr && h.arr in Used(h.spans)
  {
    hide ArrayPages;
    CoreSpan(h, h.arr);
  }

  lemma Reorder<V>(u: map<nat, V>, p: nat, a: V, q: nat, b: V, z: nat, c: V)
    requires z != p && z != q
    ensures u[p := a][q := b][z := c] == u[z := c][p := a][q := b]
    ensures u[p := a][q := b] - {z} == (u - {z})[p := a][q := b]
  {
  }

  /** Growing keeps every client span, returns exactly the old array's pages (page 0 stays),
      adds exactly the new pages, and re-establishes the whole invariant. */
  ghost predicate Grown(h: Heap, h': Heap, p: nat, nr: u32)
    requires h.nr < nr
  {
    var (o, n) := OldArray(h);
    && h'.nr == nr && h'.arr == p
    && Used(h'.spans) == MovedUsed(h, p, nr)
    && FreePages(h'.spans, nr) == FreePages(h.spans, h.nr) + Range(o, o + n) + Range(h.nr, nr)
    && FreePages(h.spans, h.nr) !! Range(o, o + n)
    && h'.nrFree == h.nrFree + n + (nr - h.nr)
  }

  lemma MovedReleases(h: Heap, p: nat, nr: nat)
    requires Movable(h, p, nr)
    ensures h.arr in Relocated(h, p, nr).spans && (h.arr == 0 ==> Relocated(h, p, nr).spans[0].len >= 2)
    ensures Mid(Moved(h, p, nr)) && Released(ReturnArray(Relocated(h, p, nr), h.arr), Moved(h, p, nr), h.nr, nr - h.nr)
  {
    hide Core, CountOk, NoAdjacent, FreePages, Used, Settled, Relocated, Mid, ArrayPages, ReturnArray, FullInv,
         MovedUsed, FreeSpan, OldArray, Released;
    MovedReady(h, p, nr);
    MovedHalf(h, p, nr);
    FreeSpanMid(ReturnArray(Relocated(h, p, nr), h.arr), h.nr);
  }

  lemma MovedOk(h: Heap, p: nat, nr: nat)
    requires Movable(h, p, nr)
    ensures Mid(Moved(h, p, nr)) && Grown(h, Moved(h, p, nr), p, nr)
  {
    hide Core, CountOk, NoAdjacent, FreePages, Used, Settled, Relocated, Mid, ArrayPages, ReturnArray, FullInv,
         MovedUsed, FreeSpan, OldArray,
         Moved, Tiled, ListsOk, Inv, ArrayOk, Released, Grown;
    MovedReleases(h, p, nr);
    MovedHalf(h, p, nr);
    MovedUsedFresh(h, p, nr);
    GrownFrom(h, ReturnArray(Relocated(h, p, nr), h.arr), Moved(h, p, nr), p, nr);
  }

  lemma GrownFrom(h: Heap, h3: Heap, h': Heap, p: nat, nr: nat)
    requires 0 < h.nr < nr < 0x1_0000_0000 && Released(h3, h', h.nr, nr - h.nr)
    requires var (o, n) := OldArray(h);
             && h3.nr == nr && h3.arr == p && h3.nrFree == h.nrFree + n
             && FreePages(h3.spans, nr) == FreePages(h.spans, h.nr) + Range(o, o + n)
             && FreePages(h.spans, h.nr) !! Range(o, o + n)
    requires Used(h3.spans) == MovedUsed(h, p, nr)[h.nr := Span(nr - h.nr, Raw)] && h.nr !in MovedUsed(h, p, nr)
    ensures Grown(h, h', p, nr)
  {
    hide FreePages, Used, MovedUsed, OldArray, Range, ArrayPages, IsFree, FreeAt;
    UpdateThenRemoveSame(MovedUsed(h, p, nr), h.nr, Span(nr - h.nr, Raw));
    assert Used(h'.spans) == MovedUsed(h, p, nr);
  }

  lemma UpdateThenRemoveSame<V>(u: map<nat, V>, t: nat, b: V)
    requires t !in u
    ensures u[t := b] - {t} == u
  {
  }

  lemma MovedUsedFresh(h: Heap, p: nat, nr: nat)
    requires Movable(h, p, nr)
    ensures h.nr !in MovedUsed(h, p, nr)
  {
    hide CountOk, NoAdjacent, ArrayPages, Settled;
    Unpack(h);
    CoreSpan(h, p);
    if h.nr in h.spans { CoreSpan(h, h.nr); }
  }

  lemma MovedFull(h: Heap, p: nat, nr: nat)
    requires Movable(h, p, nr) && ArrayPages(nr) >= 1
    ensures FullInv(Moved(h, p, nr))
  {
    hide Core, CountOk, NoAdjacent, FreePages, ArrayPages, Mid, Moved, FullInv, Relocated, ReturnArray, FreeSpan,
         OldArray;
    var h' := Moved(h, p, nr);
    MovedOk(h, p, nr);
    MovedSettled(h, p, nr);
    UsedSettled(h'.spans);
    MovedArray(h, p, nr, h');
    hide *;
    MidIsFull(h');
  }

  lemma MidIsFull(h: Heap)
    requires Mid(h) && Settled(h.spans) && ArrayOk(h)
    ensures FullInv(h)
  {
  }

  lemma MovedSettled(h: Heap, p: nat, nr: nat)
    requires Movable(h, p, nr)
    ensures Settled(MovedUsed(h, p, nr))
  {
    hide Core, CountOk, NoAdjacent, ArrayPages;
    Unpack(h);
    UsedSettled(h.spans);
  }

  lemma MovedReserved(h: Heap, p: nat, nr: nat)
    requires Movable(h, p, nr)
    ensures var u := MovedUsed(h, p, nr);
            && p != 0 && p in u && u[p] == Span(ArrayPages(nr), Reserved) && 0 in u && u[0] == Span(1, Reserved)
            && p + ArrayPages(nr) <= h.nr && forall s :: s in u && u[s].kind.Reserved? ==> s == 0 || s == p
  {
    hide Core, CountOk, NoAdjacent, ArrayPages, Settled, Inv;
    Unpack(h);
    NotReserved(h, p);
    ZeroSpan(h);
    CoreSpan(h, p);
  }

  lemma ReservedUsed(m: map<nat, Span>, s: nat)
    requires s in m && m[s].kind.Reserved?
    ensures s in Used(m) && Used(m)[s] == m[s]
  {
  }

  lemma MovedArray(h: Heap, p: nat, nr: nat, h': Heap)
    requires Movable(h, p, nr)
    requires h'.nr == nr && h'.arr == p && Used(h'.spans) == MovedUsed(h, p, nr)
    ensures ArrayOk(h')
  {
    hide FullInv, ArrayPages, Used, MovedUsed, IsFree;
    MovedReserved(h, p, nr);
    UsedOnly(h'.spans, p);
    UsedOnly(h'.spans, 0);
    forall s | s in h'.spans && h'.spans[s].kind.Reserved?
      ensures s == 0 || s == p
    {
      ReservedUsed(h'.spans, s);
    }
  }

  lemma ZeroSpan(h: Heap)
    requires Core(h) && h.nr > 0
    ensures 0 in h.spans && h.spans[0].kind.Reserved?
  {
  }

  /** do_resize: nothing to do, no room for the new array (bad_alloc), or relocation. */
  ghost function Grow(h: Heap, nr: u32): (Heap, bool)
    requires FullInv(h) && (h.nr > 0 || nr == 0)
  {
    if nr <= h.nr then (h, true)
    else
      ArrayPagesFit(nr);
      var (h1, got) := AllocLarge(h, ArrayPages(nr));
      if got.At? then
        GrowMovable(h, nr);
        (Moved(h1, got.page, nr), true)
      else (h1, false)
  }

  lemma GrowMovable(h: Heap, nr: u32)
    requires FullInv(h) && 0 < h.nr < nr && 1 <= ArrayPages(nr) <= 0x8000_0000
    requires AllocLarge(h, ArrayPages(nr)).1.At?
    ensures var (h1, got) := AllocLarge(h, ArrayPages(nr));
            && Movable(h1, got.page, nr) && Carved(h, h1, got.page, ArrayPages(nr))
  {
    hide FullInv, AllocLarge, ArrayPages, Used, FreePages;
    AllocLargeOk(h, ArrayPages(nr));
    var (h1, got) := AllocLarge(h, ArrayPages(nr));
    UsedOnly(h1.spans, got.page);
  }

  /** Resizing keeps the invariant; when it moves the array, the pool afterwards is Grown from
      the pool with the new array carved out; when it fails, nothing but that carve is missing. */
  lemma GrowOk(h: Heap, nr: u32)
    requires FullInv(h) && (h.nr > 0 || nr == 0)
    ensures var (h', ok) := Grow(h, nr);
            && FullInv(h')
            && (!ok ==> h' == h && nr > h.nr && NoFreeSpanOf(h, ArrayPages(nr)))
            && (ok && nr <= h.nr ==> h' == h)
    ensures Grow(h, nr).1 && nr > h.nr ==>
              exists h1: Heap, p: nat :: Carved(h, h1, p, ArrayPages(nr)) && Grown(h1, Grow(h, nr).0, p, nr)
  {
    hide FullInv, AllocLarge, ArrayPages, Carved, Grown, Moved, Movable, NoFreeSpanOf;
    ArrayPagesFit(nr);
    if nr > h.nr {
      AllocLargeOk(h, ArrayPages(nr));
      var (h1, got) := AllocLarge(h, ArrayPages(nr));
      if got.At? {
        GrowMovable(h, nr);
        CarvedNr(h, h1, got.page, ArrayPages(nr));
        MovedOk(h1, got.page, nr);
        MovedFull(h1, got.page, nr);
        assert Carved(h, h1, got.page, ArrayPages(nr)) && Grown(h1, Grow(h, nr).0, got.page, nr);
      }
    }
  }

  lemma CarvedNr(h: Heap, h1: Heap, p: nat, n: nat)
    requires Carved(h, h1, p, n)
    ensures h1.nr == h.nr && h1.arr == h.arr
  {
  }

  // ---------------------------------------------------------------- room for the next step

  /** Where coalescing is complete, the page behind a free span is not free. */
  lemma BehindFree(m: map<nat, Span>, s: nat, t: nat)
    requires SpansDisjoint(m) && NoAdjacent(m) && IsFree(m, s) && IsFree(m, t) && m[s].len > 0
    ensures !Covers(m, t, s + m[s].len)
  {
  }

  /** There, free pages in a row lie in one free span. */
  lemma FreeStretch(h: Heap, a: nat, b: nat) returns (s: nat)
    requires Core(h) && NoAdjacent(h.spans) && a < b
    requires forall i :: a <= i < b ==> FreeAt(h.spans, i)
    ensures IsFree(h.spans, s) && s <= a && b <= s + h.spans[s].len
  {
    hide Core, NoAdjacent, SpansDisjoint, SpansInside;
    assert FreeAt(h.spans, a);
    s :| IsFree(h.spans, s) && Covers(h.spans, s, a);
    var e := s + h.spans[s].len;
    if e < b {
      assert FreeAt(h.spans, e);
      var t: nat :| IsFree(h.spans, t) && Covers(h.spans, t, e);
      CoreSpan(h, s);
      BehindFree(h.spans, s, t);
      assert false;
    }
  }

  /** Free pages in a row are a free span of that many. */
  lemma RowIsSpan(h: Heap, nr: nat, a: nat, b: nat)
    requires Core(h) && NoAdjacent(h.spans) && a < b && Range(a, b) <= FreePages(h.spans, nr)
    ensures !NoFreeSpanOf(h, b - a)
  {
    hide FreePages, Range, FreeAt, Core, NoAdjacent;
    forall i | a <= i < b
      ensures FreeAt(h.spans, i)
    {
      InRange(a, b, i);
      FreePagesAre(h.spans, nr, i);
    }
    var s := FreeStretch(h, a, b);
  }

  /** The pages of the new array were free, and the new pages are. */
  lemma GrownPages(h: Heap, h1: Heap, h': Heap, p: nat, n: nat, nr: u32)
    requires h.nr < nr && Carved(h, h1, p, n) && Grown(h1, h', p, nr)
    ensures Range(p, p + n) <= FreePages(h.spans, h.nr) && Range(h.nr, nr) <= FreePages(h'.spans, nr)
  {
    hide Used, MovedUsed, FreePages, Range, OldArray;
  }

  /** Growing is refused exactly when no free span holds the new page array; otherwise all the new pages
      are free afterwards, in one span. */
  lemma GrowthRoom(h: Heap, nr: u32)
    requires FullInv(h) && 0 < h.nr < nr
    ensures Grow(h, nr).1 <==> !NoFreeSpanOf(h, ArrayPages(nr))
    ensures Grow(h, nr).1 ==> !NoFreeSpanOf(Grow(h, nr).0, nr - h.nr)
    ensures !Grow(h, nr).1 ==> Grow(h, nr).0 == h
  {
    hide *;
    GrowOk(h, nr);
    if Grow(h, nr).1 {
      ArrayPagesFit(nr);
      var h' := Grow(h, nr).0;
      var h1: Heap, p: nat := GrownBy(h, nr);
      GrownPages(h, h1, h', p, ArrayPages(nr), nr);
      FullParts(h);
      FullParts(h');
      RowIsSpan(h, h.nr, p, p + ArrayPages(nr));
      RowIsSpan(h', nr, h.nr, nr);
    }
  }

  lemma GrownBy(h: Heap, nr: u32) returns (h1: Heap, p: nat)
    requires FullInv(h) && 0 < h.nr < nr && Grow(h, nr).1
    ensures Carved(h, h1, p, ArrayPages(nr)) && h1.nr == h.nr && Grown(h1, Grow(h, nr).0, p, nr)
    ensures Grow(h, nr).0.nr == nr
  {
    hide Grow, FullInv, ArrayPages, FreePages, Range, MovedUsed, Used, OldArray;
    GrowOk(h, nr);
    h1, p :| Carved(h, h1, p, ArrayPages(nr)) && Grown(h1, Grow(h, nr).0, p, nr);
  }

  lemma FullParts(h: Heap)
    requires FullInv(h)
    ensures Core(h) && NoAdjacent(h.spans)
  {
    hide Core, NoAdjacent, ArrayOk;
  }

  lemma InRange(a: nat, b: nat, i: nat)
    requires a <= i < b
    ensures i in Range(a, b)
  {
  }

  lemma FreePagesAre(m: map<nat, Span>, nr: nat, i: nat)
    requires i in FreePages(m, nr)
    ensures FreeAt(m, i)
  {
    hide FreeAt;
  }
}
