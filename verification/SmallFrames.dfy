/** What the page allocator's operations, and a small pool's own writes to the page structures,
    leave of the spans of the small pools. */
module SmallFrames {
  import opened Bits
  import opened PageModel
  import opened PageOps
  import opened PageRuns
  import opened PageLists
  import opened PageTags
  import opened PageSafety
  import opened CpuMemory
  import opened FreeChains
  import opened SmallModel

  ghost predicate SpanStays(m: map<nat, Span>, m': map<nat, Span>, s: nat) {
    s in m && s in m' && m'[s] == m[s]
  }

  /** Every pool but one keeps its spans. */
  ghost predicate OthersKept(id: nat, pg: seq<Page>, m: map<nat, Span>, pg': seq<Page>, m': map<nat, Span>) {
    forall j: nat :: j != id ==> PoolKept(j, pg, m, pg', m')
  }

  ghost predicate IsLarge(m: map<nat, Span>, s: nat) {
    s in m && m[s].kind.Large?
  }

  ghost predicate LargesKept(m: map<nat, Span>, m': map<nat, Span>) {
    forall s: nat :: (IsLarge(m, s) <==> IsLarge(m', s)) && (IsLarge(m, s) ==> SpanStays(m, m', s))
  }

  /** Only words in keys have changed. */
  ghost predicate WordsWithin(keys: set<nat>, mem: map<nat, nat>, mem': map<nat, nat>) {
    forall o: nat :: o !in keys ==> SameWord(mem, mem', o)
  }

  /** The effect of a small pool on everything that is not its own. */
  ghost predicate Gentle(id: nat, keys: set<nat>, pg: seq<Page>, m: map<nat, Span>, mem: map<nat, nat>,
                         pg': seq<Page>, m': map<nat, Span>, mem': map<nat, nat>) {
    OthersKept(id, pg, m, pg', m') && LargesKept(m, m') && WordsWithin(keys, mem, mem')
  }

  lemma GentleRefl(id: nat, keys: set<nat>, pg: seq<Page>, m: map<nat, Span>, mem: map<nat, nat>)
    ensures Gentle(id, keys, pg, m, mem, pg, m, mem)
  {
    forall j: nat | j != id ensures PoolKept(j, pg, m, pg, m) { KeptRefl(j, pg, m); }
  }

  lemma GentleTrans(id: nat, keys: set<nat>, pg: seq<Page>, m: map<nat, Span>, mem: map<nat, nat>,
                    pg1: seq<Page>, m1: map<nat, Span>, mem1: map<nat, nat>,
                    pg2: seq<Page>, m2: map<nat, Span>, mem2: map<nat, nat>)
    requires Gentle(id, keys, pg, m, mem, pg1, m1, mem1) && Gentle(id, keys, pg1, m1, mem1, pg2, m2, mem2)
    ensures Gentle(id, keys, pg, m, mem, pg2, m2, mem2)
  {
    hide PoolKept;
    forall j: nat | j != id ensures PoolKept(j, pg, m, pg2, m2) { KeptTrans(j, pg, m, pg1, m1, pg2, m2); }
    assert LargesKept(m, m2) by {
      hide OthersKept, WordsWithin;
      forall s: nat ensures (IsLarge(m, s) <==> IsLarge(m2, s)) && (IsLarge(m, s) ==> SpanStays(m, m2, s)) {
        assert IsLarge(m, s) <==> IsLarge(m1, s);
        assert IsLarge(m1, s) <==> IsLarge(m2, s);
      }
    }
  }

  lemma GentleWider(id: nat, keys: set<nat>, keys': set<nat>, pg: seq<Page>, m: map<nat, Span>, mem: map<nat, nat>,
                    pg': seq<Page>, m': map<nat, Span>, mem': map<nat, nat>)
    requires Gentle(id, keys, pg, m, mem, pg', m', mem') && keys <= keys'
    ensures Gentle(id, keys', pg, m, mem, pg', m', mem')
  {
    hide OthersKept, LargesKept;
  }

  /** Writes to the pages and objects of the pool's own spans. */
  lemma GentleOwn(id: nat, keys: set<nat>, pg: seq<Page>, m: map<nat, Span>, mem: map<nat, nat>, pg': seq<Page>,
                  mem': map<nat, nat>)
    requires |pg'| == |pg| && (forall i :: 0 <= i < |pg| && pg'[i] != pg[i] ==> OwnedBy(m, i, id))
             && WordsWithin(keys, mem, mem')
    ensures Gentle(id, keys, pg, m, mem, pg', m, mem')
  {
    forall j: nat | j != id ensures PoolKept(j, pg, m, pg', m) {
      forall s: nat | OwnedBy(m, s, j) ensures SameHead(pg, pg', s) { assert !OwnedBy(m, s, id); }
    }
  }

  // ---------------------------------------------------------------- the page allocator's frames

  lemma UsedAfterCarve(m: map<nat, Span>, m': map<nat, Span>, r: nat, n: nat)
    requires r !in Used(m) && Used(m') == Used(m)[r := Span(n, Large)]
    ensures forall s: nat, id: nat :: OwnedBy(m, s, id) <==> OwnedBy(m', s, id)
    ensures forall s: nat, id: nat :: OwnedBy(m, s, id) ==> SpanStays(m, m', s) && s != r
    ensures forall s: nat :: IsLarge(m', s) <==> IsLarge(m, s) || s == r
    ensures forall s: nat :: IsLarge(m, s) ==> SpanStays(m, m', s)
    ensures r in m' && m'[r] == Span(n, Large)
  {
    assert forall s: nat :: s in Used(m) <==> s in m && !m[s].kind.Free?;
    assert forall s: nat :: s in Used(m') <==> s in m' && !m'[s].kind.Free?;
  }

  lemma FramePool(id: nat, pg: seq<Page>, m: map<nat, Span>, pg': seq<Page>, m': map<nat, Span>, r: nat)
    requires r < |pg| && r < |pg'| && PoolFrameBut(pg, pg', m, m', r)
    requires forall s: nat :: OwnedBy(m, s, id) <==> OwnedBy(m', s, id)
    requires forall s: nat :: OwnedBy(m, s, id) ==> SpanStays(m, m', s) && s != r
    ensures PoolKept(id, pg, m, pg', m')
  {
    forall s: nat | OwnedBy(m, s, id) && s < |pg| ensures SameHead(pg, pg', s) {
      var pg0 := pg[r := pg[r].(pool := 0)];
      assert pg0[s] == pg[s] && SmallFieldsAt(pg0[s], pg'[s]);
      assert !IsFree(m, s) && !IsFree(m', s);
    }
  }

  lemma NoSpans(h: Heap)
    requires FullInv(h) && h.nr == 0
    ensures forall s: nat :: s !in h.spans
  {
    hide Settled, CountOk, NoAdjacent;
    Unpack(h);
    forall s: nat | s in h.spans ensures false { CoreSpan(h, s); }
  }

  lemma StartedOwned(h: Heap)
    requires FullInv(h)
    ensures forall s: nat, id: nat :: OwnedBy(h.spans, s, id) <==> OwnedBy(Started(h).spans, s, id)
    ensures forall s: nat :: IsLarge(h.spans, s) <==> IsLarge(Started(h).spans, s)
    ensures h.nr > 0 ==> Started(h) == h
    ensures h.nr == 0 ==> forall s: nat, id: nat :: !OwnedBy(h.spans, s, id)
    ensures h.nr == 0 ==> forall s: nat :: !IsLarge(h.spans, s)
  {
    hide FullInv, Initialized, Untouched;
    if h.nr == 0 {
      InitializedInv();
      NoSpans(h);
    }
  }

  /** allocate_large, as the small pools see it: their spans are untouched, and the new one, if any,
      is a large span that was none before. */
  lemma AllocateKept(h: Heap, h': Heap, n: u32, thrown: bool, r: nat, pg: seq<Page>, pg': seq<Page>)
    requires FullInv(h) && 1 <= n <= 0x8000_0000 && (h', Outcome(thrown, r)) == AllocLarge(h, n) && (thrown ==> r == 0)
    requires h.nr > 0 ==>
               |pg'| == |pg| && if r == 0 then PoolFrame(pg, pg', h.spans, h'.spans)
               else r < |pg| && PoolFrameBut(pg, pg', h.spans, h'.spans, r)
    ensures thrown <==> n > 0x4000_0000
    ensures thrown ==> h' == h
    ensures forall id: nat :: PoolKept(id, pg, h.spans, pg', h'.spans)
    ensures r == 0 ==> LargesKept(h.spans, h'.spans) && (!thrown ==> NoFreeSpanOf(Started(h), n) && h' == Started(h))
    ensures r != 0 ==> NewLarge(h.spans, h'.spans, r, n)
  {
    hide FullInv, AllocLarge, Carved, NoFreeSpanOf, PoolFrame, PoolFrameBut, PoolKept, NewLarge;
    AllocLargeOk(h, n);
    CarveKept(h, h', n, r, pg, pg');
  }

  /** The same for an aligned allocation, whose page is a multiple of the alignment. */
  lemma AlignedKept(h: Heap, h': Heap, k: nat, n: u32, thrown: bool, r: nat, pg: seq<Page>, pg': seq<Page>)
    requires FullInv(h) && n >= 1 && n + Pow2(k) - 1 <= 0x8000_0000 && (h', Outcome(thrown, r)) == AllocAligned(h, k, n)
             && (thrown ==> r == 0)
    requires h.nr > 0 ==>
               |pg'| == |pg| && if r == 0 then PoolFrame(pg, pg', h.spans, h'.spans)
               else r < |pg| && PoolFrameBut(pg, pg', h.spans, h'.spans, r)
    ensures thrown <==> n + Pow2(k) - 1 > 0x4000_0000
    ensures thrown ==> h' == h
    ensures forall id: nat :: PoolKept(id, pg, h.spans, pg', h'.spans)
    ensures r == 0 ==>
              LargesKept(h.spans, h'.spans)
              && (!thrown ==> NoFreeSpanOf(Started(h), n + Pow2(k) - 1) && h' == Started(h))
    ensures r != 0 ==> NewLarge(h.spans, h'.spans, r, n) && r % Pow2(k) == 0
  {
    hide FullInv, AllocAligned, Carved, NoFreeSpanOf, PoolFrame, PoolFrameBut, PoolKept, NewLarge, Pow2;
    AllocAlignedOk(h, k, n);
    CarveKept(h, h', n, r, pg, pg');
  }

  /** A large span of n pages at r has come to the others. */
  ghost predicate NewLarge(m: map<nat, Span>, m': map<nat, Span>, r: nat, n: nat) {
    && r in m' && m'[r] == Span(n, Large) && !IsLarge(m, r)
    && forall s: nat :: (IsLarge(m', s) <==> IsLarge(m, s) || s == r) && (IsLarge(m, s) ==> SpanStays(m, m', s))
  }

  lemma CarveKept(h: Heap, h': Heap, n: nat, r: nat, pg: seq<Page>, pg': seq<Page>)
    requires FullInv(h) && (h' == h || h' == Started(h) || (r != 0 && Carved(Started(h), h', r, n)))
    requires r == 0 ==> h' == h || h' == Started(h)
    requires r != 0 ==> Carved(Started(h), h', r, n)
    requires h.nr > 0 ==>
               |pg'| == |pg| && if r == 0 then PoolFrame(pg, pg', h.spans, h'.spans)
               else r < |pg| && PoolFrameBut(pg, pg', h.spans, h'.spans, r)
    ensures forall id: nat :: PoolKept(id, pg, h.spans, pg', h'.spans)
    ensures r == 0 ==> LargesKept(h.spans, h'.spans)
    ensures r != 0 ==> NewLarge(h.spans, h'.spans, r, n)
  {
    hide FullInv, Carved, PoolFrame, PoolFrameBut, PoolKept;
    StartedOwned(h);
    var m, m' := h.spans, h'.spans;
    if r != 0 {
      CarvedUsed(Started(h), h', r, n);
      forall id: nat ensures PoolKept(id, pg, m, pg', m') {
        if h.nr == 0 { KeptNone(id, pg, m, pg', m'); } else { FramePool(id, pg, m, pg', m', r); }
      }
    } else {
      forall id: nat ensures PoolKept(id, pg, m, pg', m') {
        if h.nr == 0 { KeptNone(id, pg, m, pg', m'); } else { FrameAll(id, pg, m, pg', m'); }
      }
    }
  }

  lemma CarvedUsed(h: Heap, h': Heap, r: nat, n: nat)
    requires Carved(h, h', r, n)
    ensures forall s: nat, id: nat :: OwnedBy(h.spans, s, id) <==> OwnedBy(h'.spans, s, id)
    ensures forall s: nat, id: nat :: OwnedBy(h.spans, s, id) ==> SpanStays(h.spans, h'.spans, s) && s != r
    ensures forall s: nat :: IsLarge(h'.spans, s) <==> IsLarge(h.spans, s) || s == r
    ensures forall s: nat :: IsLarge(h.spans, s) ==> SpanStays(h.spans, h'.spans, s)
    ensures r in h'.spans && h'.spans[r] == Span(n, Large) && !IsLarge(h.spans, r)
  {
    hide Used, FreePages;
    UsedAfterCarve(h.spans, h'.spans, r, n);
    NotLarge(h.spans, r);
  }

  lemma NotLarge(m: map<nat, Span>, r: nat)
    requires r !in Used(m)
    ensures !IsLarge(m, r)
  {
  }

  lemma KeptNone(id: nat, pg: seq<Page>, m: map<nat, Span>, pg': seq<Page>, m': map<nat, Span>)
    requires forall s: nat :: !OwnedBy(m, s, id)
    requires forall s: nat :: OwnedBy(m, s, id) <==> OwnedBy(m', s, id)
    ensures PoolKept(id, pg, m, pg', m')
  {
  }

  lemma FrameAll(id: nat, pg: seq<Page>, m: map<nat, Span>, pg': seq<Page>, m': map<nat, Span>)
    requires PoolFrame(pg, pg', m, m') && m' == m
    ensures PoolKept(id, pg, m, pg', m')
  {
    forall s: nat | OwnedBy(m, s, id) && s < |pg| ensures SameHead(pg, pg', s) {
      assert SmallFieldsAt(pg[s], pg'[s]);
      assert !IsFree(m, s) && !IsFree(m', s);
    }
  }

  lemma UsedAfterFree(m: map<nat, Span>, m': map<nat, Span>, r: nat)
    requires Used(m') == Used(m) - {r}
    ensures forall s: nat, id: nat :: OwnedBy(m', s, id) <==> OwnedBy(m, s, id) && s != r
    ensures forall s: nat, id: nat :: OwnedBy(m, s, id) && s != r ==> SpanStays(m, m', s)
    ensures forall s: nat :: IsLarge(m', s) <==> IsLarge(m, s) && s != r
    ensures forall s: nat :: IsLarge(m, s) && s != r ==> SpanStays(m, m', s)
  {
    assert forall s: nat :: s in Used(m) <==> s in m && !m[s].kind.Free?;
    assert forall s: nat :: s in Used(m') <==> s in m' && !m'[s].kind.Free?;
  }

  lemma FrameFree(id: nat, pg: seq<Page>, m: map<nat, Span>, pg': seq<Page>, m': map<nat, Span>, r: nat)
    requires PoolFrame(pg, pg', m, m') && !OwnedBy(m, r, id)
    requires forall s: nat :: OwnedBy(m', s, id) <==> OwnedBy(m, s, id) && s != r
    requires forall s: nat :: OwnedBy(m, s, id) && s != r ==> SpanStays(m, m', s)
    ensures PoolKept(id, pg, m, pg', m')
  {
    forall s: nat | OwnedBy(m, s, id) && s < |pg| ensures SameHead(pg, pg', s) {
      assert SmallFieldsAt(pg[s], pg'[s]);
      assert !IsFree(m, s) && !IsFree(m', s);
    }
  }

  /** free_span of a span r in use: everything else stays as it is. */
  lemma FreeKept(h: Heap, h': Heap, r: nat, pg: seq<Page>, pg': seq<Page>)
    requires FullInv(h) && r in h.spans && (h.spans[r].kind.Large? || h.spans[r].kind.Small?)
             && h' == PageOps.FreeSpan(h, r)
    requires PoolFrame(pg, pg', h.spans, h'.spans)
    ensures forall id: nat :: !OwnedBy(h.spans, r, id) ==> PoolKept(id, pg, h.spans, pg', h'.spans)
    ensures forall s: nat, id: nat :: OwnedBy(h'.spans, s, id) <==> OwnedBy(h.spans, s, id) && s != r
    ensures forall s: nat, id: nat :: OwnedBy(h.spans, s, id) && s != r ==> SpanStays(h.spans, h'.spans, s)
    ensures forall s: nat :: IsLarge(h'.spans, s) <==> IsLarge(h.spans, s) && s != r
    ensures forall s: nat :: IsLarge(h.spans, s) && s != r ==> SpanStays(h.spans, h'.spans, s)
  {
    hide FullInv, FreePages, Used, PoolFrame, PoolKept, PageOps.FreeSpan;
    FreeFull(h, r);
    UsedAfterFree(h.spans, h'.spans, r);
    forall id: nat | !OwnedBy(h.spans, r, id)
      ensures PoolKept(id, pg, h.spans, pg', h'.spans)
    {
      FrameFree(id, pg, h.spans, pg', h'.spans, r);
    }
  }

  // ---------------------------------------------------------------- shrinking and growing

  lemma UsedAfterCut(m: map<nat, Span>, m': map<nat, Span>, r: nat, n: nat)
    requires IsLarge(m, r) && Used(m') == Used(m)[r := Span(n, Large)]
    ensures forall s: nat, id: nat :: OwnedBy(m, s, id) <==> OwnedBy(m', s, id)
    ensures forall s: nat, id: nat :: OwnedBy(m, s, id) ==> SpanStays(m, m', s) && s != r
    ensures forall s: nat :: IsLarge(m', s) <==> IsLarge(m, s)
    ensures forall s: nat :: IsLarge(m, s) && s != r ==> SpanStays(m, m', s)
    ensures r in m' && m'[r] == Span(n, Large)
  {
    assert forall s: nat :: s in Used(m) <==> s in m && !m[s].kind.Free?;
    assert forall s: nat :: s in Used(m') <==> s in m' && !m'[s].kind.Free?;
  }

  lemma FrameSame(id: nat, pg: seq<Page>, m: map<nat, Span>, pg': seq<Page>, m': map<nat, Span>)
    requires PoolFrame(pg, pg', m, m')
    requires forall s: nat :: OwnedBy(m, s, id) <==> OwnedBy(m', s, id)
    requires forall s: nat :: OwnedBy(m, s, id) ==> SpanStays(m, m', s)
    ensures PoolKept(id, pg, m, pg', m')
  {
    forall s: nat | OwnedBy(m, s, id) && s < |pg| ensures SameHead(pg, pg', s) {
      assert SmallFieldsAt(pg[s], pg'[s]);
      assert !IsFree(m, s) && !IsFree(m', s);
    }
  }

  /** shrink of a large span r to n pages: everything else stays as it is. */
  lemma ShrinkKept(h: Heap, h': Heap, r: nat, n: nat, pg: seq<Page>, pg': seq<Page>)
    requires FullInv(h) && IsLarge(h.spans, r) && 1 <= n <= h.spans[r].len && h' == ShrinkSpan(h, r, n)
    requires PoolFrame(pg, pg', h.spans, h'.spans)
    ensures forall id: nat :: PoolKept(id, pg, h.spans, pg', h'.spans)
    ensures forall s: nat :: IsLarge(h'.spans, s) <==> IsLarge(h.spans, s)
    ensures forall s: nat :: IsLarge(h.spans, s) && s != r ==> SpanStays(h.spans, h'.spans, s)
    ensures r in h'.spans && h'.spans[r] == Span(n, Large)
  {
    hide FullInv, FreePages, Used, PoolFrame, PoolKept, ShrinkSpan;
    ShrinkFull(h, r, n);
    UsedAfterCut(h.spans, h'.spans, r, n);
    forall id: nat ensures PoolKept(id, pg, h.spans, pg', h'.spans) { FrameSame(id, pg, h.spans, pg', h'.spans); }
  }

  lemma UsedAfterGrowth(u: map<nat, Span>, u1: map<nat, Span>, u': map<nat, Span>, p: nat, arr: nat, k: nat, n: nat)
    requires p !in u && u1 == u[p := Span(k, Large)] && arr in u && u[arr].kind.Reserved? && (arr == 0 ==> p != 0)
    requires u' == (if arr == 0 then u1[0 := Span(1, Reserved)] else u1 - {arr})[p := Span(n, Reserved)]
    ensures forall s: nat :: s in u && !u[s].kind.Reserved? ==> s in u' && u'[s] == u[s] && s != p
    ensures forall s: nat :: s in u' && !u'[s].kind.Reserved? ==> s in u && u'[s] == u[s]
  {
  }

  lemma SpansAfterGrowth(m: map<nat, Span>, m': map<nat, Span>)
    requires forall s: nat :: s in Used(m) && !Used(m)[s].kind.Reserved? ==> s in Used(m') && Used(m')[s] == Used(m)[s]
    requires forall s: nat :: s in Used(m') && !Used(m')[s].kind.Reserved? ==> s in Used(m) && Used(m')[s] == Used(m)[s]
    ensures forall s: nat, id: nat :: OwnedBy(m, s, id) <==> OwnedBy(m', s, id)
    ensures forall s: nat, id: nat :: OwnedBy(m, s, id) ==> SpanStays(m, m', s)
    ensures LargesKept(m, m')
  {
    assert forall s: nat :: s in Used(m) <==> s in m && !m[s].kind.Free?;
    assert forall s: nat :: s in Used(m') <==> s in m' && !m'[s].kind.Free?;
    hide Used;
    forall s: nat ensures (IsLarge(m, s) <==> IsLarge(m', s)) && (IsLarge(m, s) ==> SpanStays(m, m', s)) { }
  }

  lemma FrameGrown(id: nat, pg: seq<Page>, m: map<nat, Span>, pg': seq<Page>, m': map<nat, Span>, n: nat, r: nat)
    requires GrowFrame(pg, pg', m, n, r)
    requires forall s: nat :: OwnedBy(m, s, id) <==> OwnedBy(m', s, id)
    requires forall s: nat :: OwnedBy(m, s, id) ==> SpanStays(m, m', s) && s < n
    ensures PoolKept(id, pg, m, pg', m')
  {
    forall s: nat | OwnedBy(m, s, id) && s < |pg| ensures SameHead(pg, pg', s) {
      assert ClientAt(m, s);
    }
  }

  /** do_resize that moves the page array: the small pools' spans and all large ones stay as they are. */
  lemma GrowthKept(h: Heap, h': Heap, nr: u32, pg: seq<Page>, pg': seq<Page>)
    requires FullInv(h) && 0 < h.nr < nr && (h', true) == Grow(h, nr) && GrowFrame(pg, pg', h.spans, h.nr, h'.arr)
    ensures forall id: nat :: PoolKept(id, pg, h.spans, pg', h'.spans)
    ensures LargesKept(h.spans, h'.spans) && h'.nr == nr
  {
    hide FullInv, Grow, Grown, GrowFrame, PoolKept, Used, FreePages, ArrayPages, LargesKept;
    GrowOk(h, nr);
    var h1: Heap, p: nat :| Carved(h, h1, p, ArrayPages(nr)) && Grown(h1, h', p, nr);
    CarvedNr(h, h1, p, ArrayPages(nr));
    GrownParts(h, h1, h', p, nr);
    SpansAfterGrowth(h.spans, h'.spans);
    OwnedInside(h);
    forall id: nat
      ensures PoolKept(id, pg, h.spans, pg', h'.spans)
    {
      FrameGrown(id, pg, h.spans, pg', h'.spans, h.nr, h'.arr);
    }
  }

  lemma OwnedInside(h: Heap)
    requires FullInv(h)
    ensures forall s: nat, id: nat :: OwnedBy(h.spans, s, id) ==> s < h.nr
  {
    hide Core, CountOk, NoAdjacent, Settled, ArrayOk;
    Unpack(h);
    forall s: nat, id: nat | OwnedBy(h.spans, s, id) ensures s < h.nr { CoreSpan(h, s); }
  }

  lemma GrownParts(h: Heap, h1: Heap, h': Heap, p: nat, nr: u32)
    requires FullInv(h) && 0 < h.nr == h1.nr < nr && h1.arr == h.arr && Carved(h, h1, p, ArrayPages(nr))
             && Grown(h1, h', p, nr)
    ensures h'.nr == nr && h'.arr == p
    ensures forall s: nat :: s in Used(h.spans) && !Used(h.spans)[s].kind.Reserved? ==>
              s in Used(h'.spans) && Used(h'.spans)[s] == Used(h.spans)[s]
    ensures forall s: nat :: s in Used(h'.spans) && !Used(h'.spans)[s].kind.Reserved? ==>
              s in Used(h.spans) && Used(h'.spans)[s] == Used(h.spans)[s]
  {
    hide Core, CountOk, NoAdjacent, Settled, FreePages, Used, ArrayPages, OldArray;
    Unpack(h);
    UsedHas(h.spans, h.arr);
    ZeroReserved(h);
    UsedAfterGrowth(Used(h.spans), Used(h1.spans), Used(h'.spans), p, h.arr, ArrayPages(nr), ArrayPages(nr));
  }

  lemma ZeroReserved(h: Heap)
    requires FullInv(h) && h.nr > 0
    ensures h.arr in h.spans && !IsFree(h.spans, h.arr) && h.spans[h.arr].kind.Reserved?
  {
    hide Inv, ArrayPages;
  }
}
