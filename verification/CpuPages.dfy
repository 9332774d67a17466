/** cpu_pages as the source has it: an array of page structures with boundary tags, 32 intrusive
    free lists and a free counter. Each method is proved to act on the abstract pool (Abs) as the
    corresponding function of PageOps and PageRuns. */
module CpuMemory {
  import opened Bits
  import opened FreeChains
  import opened PageModel
  import opened PageOps
  import opened PageRuns
  import opened PageLists
  import opened PageTags

  /** How an allocation cuts the span it was given: pages to skip, pages to keep. */
  datatype Trim = Trim(offset: nat, nrPages: nat)

  function LargeTrimmer(n: nat): (nat, nat) -> Trim {
    (idx: nat, nr: nat) => Trim(0, if nr < n then nr else n)
  }

  /** align_up(idx, align) - idx in 32-bit arithmetic. */
  function AlignedTrimmer(align: nat, n: nat): (nat, nat) -> Trim
    requires 1 <= align <= Pow2(32) == 0x1_0000_0000
  {
    (idx: nat, nr: nat) =>
      var i := idx % 0x1_0000_0000;
      Trim((AlignUp(32, i, align) + 0x1_0000_0000 - i) % 0x1_0000_0000, n)
  }

  /** The call's outcome in the vocabulary of PageRuns. */
  function Outcome(thrown: bool, r: nat): Got {
    if thrown then BadAlloc else if r == 0 then Null else At(r)
  }

  class CpuPages {
    var pages: array<Page>
    var pagesStart: nat
    var nrPages: nat
    var nrFreePages: int
    const freeSpans: seq<PageList>
    ghost var spans: map<nat, Span>

    /** A pool nobody has touched: no pages, empty lists. */
    constructor ()
      ensures Rep() && Abs() == Untouched() && FullInv(Abs())
    {
      var ls: seq<PageList> := [];
      while |ls| < NR_SPAN_LISTS
        invariant |ls| <= NR_SPAN_LISTS
        invariant forall i :: 0 <= i < |ls| ==> ls[i].contents == [] && ls[i].front == 0 && ls[i].back == 0
        invariant forall i, j :: 0 <= i < j < |ls| ==> ls[i] != ls[j]
        modifies {}
      {
        var l := new PageList();
        ls := ls + [l];
      }
      freeSpans := ls;
      pages := new Page[0];
      pagesStart, nrPages, nrFreePages := 0, 0, 0;
      spans := map[];
      new;
      hide Core, FullInv, Woven, Threaded;
      AbsIs(this);
      assert Abs() == Untouched();
      UntouchedInv();
      Unpack(Untouched());
      WovenEmpty(freeSpans, pages);
      RepFrom(this);
    }

    ghost function Abs(): Heap
      reads this, freeSpans
    {
      Heap(nrPages, spans, ContentsOf(freeSpans), nrFreePages, pagesStart)
    }

    /** The page structures and the lists represent the abstract pool. */
    ghost predicate Rep()
      reads this, freeSpans, pages
    {
      && Distinct32(freeSpans)
      && Core(Abs())
      && (nrPages > 0 ==> Tagged(pages[..], spans, nrPages))
      && AllLinked(freeSpans, pages)
    }

    /** cpu_pages::unlink. */
    method Unlink(j: nat, s: nat)
      requires Woven(freeSpans, pages) && j < |freeSpans| && s in freeSpans[j].contents
      modifies pages, freeSpans
      ensures Woven(freeSpans, pages)
      ensures ContentsOf(freeSpans) == old(ContentsOf(freeSpans))[j := Without(old(ContentsOf(freeSpans))[j], s)]
      ensures RelinkedWithin(old(pages[..]), pages[..], old(ContentsOf(freeSpans))[j])
    {
      hide Threaded, RelinkedWithin;
      ghost var pg, c := pages[..], freeSpans[j].contents;
      LinkedNoDup(freeSpans[j], pages);
      ghost var k :| 0 <= k < |c| && c[k] == s;
      WithoutAt(c, k);
      WithoutMembers(c, s);
      freeSpans[j].Erase(pages, s, k);
      forall i | 0 <= i < |freeSpans| && i != j
        ensures freeSpans[i].Linked(pages)
      {
        ThreadedElsewhere(pg, pages[..], freeSpans[i].front, freeSpans[i].back, freeSpans[i].contents, c);
      }
    }

    /** cpu_pages::link. */
    method Link(j: nat, s: nat)
      requires Woven(freeSpans, pages) && j < |freeSpans| && 0 < s < pages.Length
      requires forall i :: 0 <= i < |freeSpans| ==> s !in freeSpans[i].contents
      modifies pages, freeSpans
      ensures Woven(freeSpans, pages)
      ensures ContentsOf(freeSpans) == old(ContentsOf(freeSpans))[j := [s] + old(ContentsOf(freeSpans))[j]]
      ensures RelinkedWithin(old(pages[..]), pages[..], [s] + old(ContentsOf(freeSpans))[j])
    {
      hide Threaded, RelinkedWithin, NoDup;
      ghost var pg, c := pages[..], freeSpans[j].contents;
      freeSpans[j].PushFront(pages, s);
      forall i | 0 <= i < |freeSpans| && i != j
        ensures freeSpans[i].Linked(pages)
      {
        ThreadedElsewhere(pg, pages[..], freeSpans[i].front, freeSpans[i].back, freeSpans[i].contents, [s] + c);
      }
    }

    /** span->free = span_end->free = free, and likewise the sizes. */
    method SetTags(s: nat, n: nat, free: bool)
      requires 1 <= n && s + n <= pages.Length && Woven(freeSpans, pages)
      modifies pages
      ensures pages[..] == WithTags(old(pages[..]), s, n, free) && Woven(freeSpans, pages)
    {
      hide Threaded, NoDup;
      ghost var pg := pages[..];
      var end := s + n - 1;
      pages[end] := pages[end].(free := free, spanSize := n);
      pages[s] := pages[s].(free := free, spanSize := n);
      forall j | 0 <= j < |freeSpans|
        ensures freeSpans[j].Linked(pages)
      {
        ThreadedRetagged(pg, s, n, free, freeSpans[j].front, freeSpans[j].back, freeSpans[j].contents);
      }
    }

    /** Tag a free span and put it on the list of its size. */
    method TagAndLink(start: nat, n: u32)
      requires 1 <= n && 0 < start && start + n <= pages.Length && Woven(freeSpans, pages)
      requires 0 <= IndexOf(n) < |freeSpans| && forall i :: 0 <= i < |freeSpans| ==> start !in freeSpans[i].contents
      modifies pages, freeSpans
      ensures Woven(freeSpans, pages)
      ensures var lists, j := old(ContentsOf(freeSpans)), IndexOf(n);
              && ContentsOf(freeSpans) == lists[j := [start] + lists[j]]
              && RelinkedWithin(WithTags(old(pages[..]), start, n, true), pages[..], [start] + lists[j])
    {
      hide *;
      SetTags(start, n, true);
      Link(IndexOf(n), start);
    }

    /** free_span_no_merge: tag the span and put it on the list of its size. */
    method FreeSpanNoMerge(start: nat, n: u32)
      requires Rep() && start != 0 && start in spans && spans[start] == Span(n, Raw)
      modifies this`spans, this`nrFreePages, pages, freeSpans
      ensures Rep() && Abs() == PushFree(old(Abs()), start)
      ensures PoolFrame(old(pages[..]), pages[..], old(spans), spans)
    {
      hide *;
      ghost var h, pg := Abs(), pages[..];
      RepParts(this);
      PushPlan(h, pg, start);
      nrFreePages := nrFreePages + n;
      TagAndLink(start, n);
      spans := spans[start := Span(n, Free)];
      AbsIs(this);
      PushFreeIs(h, start);
      assert Abs() == PushFree(h, start);
      PushDone(pg, pages[..], h, start);
      RepFrom(this);
    }

    /** Take a free span of b pages off list j, which is its own; its tags are left as they are. */
    method UnlinkFree(j: nat, s: nat, b: u32)
      requires Rep() && IsFree(spans, s) && spans[s].len == b && j == IndexOf(b)
      modifies this`spans, pages, freeSpans
      ensures Rep() && Abs() == Claim(old(Abs()), s).(nrFree := old(nrFreePages))
      ensures PoolFrame(old(pages[..]), pages[..], old(spans), spans)
      ensures SameTags(old(pages[..]), pages[..])
    {
      hide Core, Tagged, Threaded, RelinkedWithin, PoolFrame, TagsAt, FloorLog2, IndexOf, NoDup, AllLinked, Drop,
           SameTags;
      ghost var h, pg := Abs(), pages[..];
      UnlinkPlan(h, s);
      ListsApartAll(h);
      Unlink(j, s);
      DropIs(h.lists, s, b);
      UnlinkTags(pg, pages[..], h, s, h.lists[IndexOf(b)]);
      spans := spans[s := Span(b, Raw)];
      assert Abs() == Claim(h, s).(nrFree := h.nrFree);
    }

    /** The free span of b pages at f leaves its list and the count, and is one with the raw span beside
        it: gone is no head any more, s heads k pages. */
    method Swallow(f: nat, b: u32, ghost gone: nat, ghost s: nat, ghost k: nat)
      requires Rep() && IsFree(spans, f) && spans[f].len == b && 0 <= IndexOf(b)
      requires 1 <= k && s + k <= nrPages && nrPages > 0
      requires (gone == f || (gone in spans && spans[gone].kind.Raw?)) && (s == f || (s in spans && spans[s].kind.Raw?))
      requires Core(Heap(nrPages, (spans[f := Span(b, Raw)] - {gone})[s := Span(k, Raw)],
                         Drop(ContentsOf(freeSpans), f, b), nrFreePages - b, pagesStart))
      modifies this`spans, this`nrFreePages, pages, freeSpans
      ensures Rep() && spans == (old(spans)[f := Span(b, Raw)] - {gone})[s := Span(k, Raw)]
      ensures Abs() == Heap(nrPages, spans, Drop(old(ContentsOf(freeSpans)), f, b), old(nrFreePages) - b, pagesStart)
      ensures PoolFrame(old(pages[..]), pages[..], old(spans), spans)
    {
      hide *;
      ghost var h, pg := Abs(), pages[..];
      RepParts(this);
      FreeIn(spans, f);
      UnlinkFree(IndexOf(b), f, b);
      ghost var m := spans;
      RepParts(this);
      ClaimIs(h, f);
      nrFreePages := nrFreePages - b;
      spans := (spans - {gone})[s := Span(k, Raw)];
      AbsIs(this);
      MergeTags(pg, pages[..], h.spans, m, h.nr, gone, s, k);
      RepFrom(this);
    }

    /** free_span, first half: coalesce with the span in front. */
    method MergeBefore(start: nat, n: u32) returns (s: nat, k: u32)
      requires Rep() && start != 0 && start in spans && spans[start] == Span(n, Raw)
      requires forall x :: x in spans && x + spans[x].len == start ==> !spans[x].kind.Raw?
      modifies this`spans, this`nrFreePages, pages, freeSpans
      ensures Rep() && Abs() == AbsorbBefore(old(Abs()), start)
      ensures s == FreeBefore(old(spans), start) && 0 != s && s in spans && spans[s] == Span(k, Raw)
              && s + k == start + n
      ensures start + n in spans ==> start + n in old(spans) && spans[start + n] == old(spans)[start + n]
      ensures PoolFrame(old(pages[..]), pages[..], old(spans), spans) && NoNewFree(old(spans), spans)
    {
      hide *;
      ghost var h, pg := Abs(), pages[..];
      RepParts(this);
      BeforePlan(h, pg, start);
      s, k := start, n;
      var before := pages[start - 1];
      if before.free {
        var b := before.spanSize;
        s := start - b;
        k := n + b;
        AbsorbBeforeIs(h, start);
        JoinedFree(h.spans, s, Span(b, Raw), start, Span(k, Raw));
        Swallow(s, b, start, s, k);
      } else {
        AbsorbBeforeIs(h, start);
        FrameRefl(pg, spans);
        NoNewFreeRefl(spans);
      }
    }

    /** free_span, second half: coalesce with the span behind. */
    method MergeAfter(s: nat, n: u32) returns (k: u32)
      requires Rep() && s != 0 && s in spans && spans[s] == Span(n, Raw)
      requires s + n in spans ==> !spans[s + n].kind.Raw?
      modifies this`spans, this`nrFreePages, pages, freeSpans
      ensures Rep() && Abs() == AbsorbAfter(old(Abs()), s)
      ensures s in spans && spans[s] == Span(k, Raw)
      ensures PoolFrame(old(pages[..]), pages[..], old(spans), spans) && NoNewFree(old(spans), spans)
    {
      hide *;
      ghost var h, pg := Abs(), pages[..];
      RepParts(this);
      AfterPlan(h, pg, s);
      k := n;
      var t := s + n;
      var after := pages[t];
      if after.free {
        var a := after.spanSize;
        k := n + a;
        AbsorbAfterIs(h, s);
        JoinedFreeAfter(h.spans, t, Span(a, Raw), s, Span(k, Raw));
        Swallow(t, a, t, s, k);
      } else {
        AbsorbAfterIs(h, s);
        FrameRefl(pg, spans);
        NoNewFreeRefl(spans);
      }
    }

    /** free_span: the span at start, of n pages and not free, becomes free and is merged with
        its free neighbours. */
    method FreeSpan(start: nat, n: u32)
      requires Rep() && start != 0 && start in spans && spans[start].len == n && !IsFree(spans, start)
      requires NeighboursTagged(spans, start)
      modifies this`spans, this`nrFreePages, pages, freeSpans
      ensures Rep() && Abs() == PageOps.FreeSpan(old(Abs()), start)
      ensures PoolFrame(old(pages[..]), pages[..], old(spans), spans)
    {
      hide *;
      ghost var h, pg := Abs(), pages[..];
      RepParts(this);
      SetRawPlan(h, pg, start);
      spans := spans[start := Span(n, Raw)];
      AbsIs(this);
      RepFrom(this);
      ghost var m1 := spans;
      var s, k := MergeBefore(start, n);
      ghost var pg2, m2 := pages[..], spans;
      k := MergeAfter(s, k);
      ghost var pg3, m3 := pages[..], spans;
      FreeSpanNoMerge(s, k);
      FreeSpanIs(h, start);
      FrameChain(pg, pg2, pg3, pages[..], h.spans, m1, m2, m3, spans);
    }

    /** The first page array, none of whose pages is free. Newly mapped memory is zero. */
    method BootArray() returns (ary: array<Page>)
      ensures fresh(ary) && ary.Length == BOOTSTRAP_PAGES + 1 && forall i :: 0 <= i < ary.Length ==> !ary[i].free
    {
      BootstrapArray();
      hide ArrayPages;
      ary := new Page[BOOTSTRAP_PAGES + 1](_ => ZERO_PAGE);
      var reserved := ArrayPages(BOOTSTRAP_PAGES);
      var i := 0;
      while i < reserved
        invariant 0 <= i <= reserved
        invariant forall j :: 0 <= j < ary.Length ==> !ary[j].free
        modifies ary
      {
        ary[i] := ary[i].(free := false);
        i := i + 1;
      }
      ary[BOOTSTRAP_PAGES] := ary[BOOTSTRAP_PAGES].(free := false);
    }

    /** initialize: map the bootstrap pages, keep the page array's own pages out of the pool and
        free the rest. */
    method Initialize() returns (r: bool)
      requires Rep() && FullInv(Abs())
      modifies this, freeSpans
      ensures Rep() && Abs() == Started(old(Abs())) && r == (old(nrPages) == 0)
      ensures r ==> fresh(pages)
      ensures !r ==> pages == old(pages) && pages[..] == old(pages[..]) && spans == old(spans)
    {
      hide *;
      RepParts(this);
      ghost var h := Abs();
      StartedIs(h);
      if nrPages != 0 {
        return false;
      }
      r := true;
      NoLists(h);
      EmptyLists(freeSpans, pages);
      WovenDistinct(freeSpans, pages);
      BootstrapArray();
      pages := BootArray();
      nrPages := BOOTSTRAP_PAGES;
      pagesStart := 0;
      var reserved := ArrayPages(BOOTSTRAP_PAGES);
      spans := map[0 := Span(65, Reserved), 65 := Span(8127, Raw)];
      AbsIs(this);
      BootAbs(Abs(), ContentsOf(freeSpans));
      BootstrappingCore();
      WovenEmpty(freeSpans, pages);
      BootTags(pages[..]);
      RepFrom(this);
      FreeSpanNoMerge(reserved, nrPages - reserved);
      AbsIs(this);
      assert Abs() == Started(h);
    }

    /** The end of find_and_unlink_span: the first span of list j with n pages, if any, is
        unlinked; 0 stands for nullptr. */
    method TakeFrom(j: nat, n: u32) returns (span: nat)
      requires Rep() && j < |freeSpans|
      modifies this`spans, pages, freeSpans
      ensures Rep() && span == FirstFit(old(ContentsOf(freeSpans))[j], old(spans), n)
      ensures span == 0 ==> Abs() == old(Abs())
      ensures span != 0 ==> span in old(spans) && Abs() == Claim(old(Abs()), span).(nrFree := old(nrFreePages))
      ensures span != 0 ==> span < pages.Length && span in spans && pages[span].spanSize == spans[span].len
      ensures PoolFrame(old(pages[..]), pages[..], old(spans), spans)
    {
      hide *;
      RepParts(this);
      ghost var h, pg := Abs(), pages[..];
      WovenLinked(freeSpans, pages, j);
      ghost var k;
      span, k := freeSpans[j].Find(n, pages);
      FindIsFirstFit(h, pg, j, n, span, k);
      if span != 0 {
        SizeOfListed(h, pg, j, k);
        UnlinkFree(j, span, pages[span].spanSize);
        SameTagsAt(pg, pages[..], span);
        RepParts(this);
        ClaimIs(h, span);
      } else {
        FrameRefl(pg, spans);
      }
    }

    /** The scan for the first non-empty list at or above index from. */
    method ScanLists(from: nat) returns (idx: nat)
      requires Rep() && from <= |freeSpans|
      ensures idx == FirstNonEmpty(ContentsOf(freeSpans), from) && from <= idx <= |freeSpans|
      ensures idx < |freeSpans| ==> freeSpans[idx].contents != []
    {
      hide Core, Tagged, Woven, AllLinked, Rep, Abs;
      RepParts(this);
      ghost var lists := ContentsOf(freeSpans);
      idx := from;
      while idx < |freeSpans| && freeSpans[idx].front == 0
        invariant from <= idx <= |freeSpans|
        invariant FirstNonEmpty(lists, from) == FirstNonEmpty(lists, idx)
        modifies {}
      {
        WovenLinked(freeSpans, pages, idx);
        idx := idx + 1;
      }
      if idx < |freeSpans| { WovenLinked(freeSpans, pages, idx); }
    }

    /** find_and_unlink_span: throws above 2^30 pages, otherwise unlinks the span Pick settles on,
        initialising the pool on first use; 0 stands for nullptr. */
    method FindAndUnlinkSpan(n: u32) returns (thrown: bool, span: nat)
      requires Rep() && FullInv(Abs()) && 1 <= n <= 0x8000_0000
      modifies this, pages, freeSpans
      decreases if nrPages == 0 then 1 else 0
      ensures Rep() && thrown == SearchThrows(n)
      ensures thrown ==> Abs() == old(Abs())
      ensures !thrown ==> Found(old(Abs()), Abs(), n, span)
      ensures !thrown && span != 0 ==> span < pages.Length && span in spans && pages[span].spanSize == spans[span].len
      ensures if old(nrPages) == 0 then pages == old(pages) || fresh(pages)
              else pages == old(pages) && PoolFrame(old(pages[..]), pages[..], old(spans), spans)
    {
      hide *;
      RepParts(this);
      ghost var h, pg := Abs(), pages[..];
      StartedIs(h);
      ConservativeIndex(n);
      SearchThrowsIs(n);
      FrameRefl(pages[..], spans);
      var origIdx := IndexOfConservative(n);
      if n >= (2 * Pow2(origIdx)) % 0x1_0000_0000 {
        return true, 0;
      }
      thrown := false;
      ConservativeBelow(n);
      var idx := ScanLists(origIdx);
      PickIs(h, n, idx);
      if idx == |freeSpans| {
        var started := Initialize();
        if started {
          StartedInv(h);
          AbsIs(this);
          thrown, span := FindAndUnlinkSpan(n);
          FoundStarted(h, Abs(), n, span);
          return;
        }
        idx := IndexOf(n);
        if idx == origIdx {
          FoundIs(h, h, n, 0);
          return false, 0;
        }
      } else {
        ListedStarted(h, idx);
      }
      AbsIs(this);
      assert pages[..] == pg && Abs() == h;
      span := TakeFrom(idx, n);
      assert PoolFrame(pg, pages[..], h.spans, spans);
      FoundIs(h, Abs(), n, span);
    }

    /** The pages in front of the trim offset go back to the pool. */
    method TrimFront(s: nat, len: u32, off: nat)
      requires Rep() && s != 0 && s in spans && spans[s] == Span(len, Raw) && off < len
      modifies this`spans, this`nrFreePages, pages, freeSpans
      ensures Rep() && Abs() == CutFront(old(Abs()), s, off)
      ensures PoolFrame(old(pages[..]), pages[..], old(spans), spans) && NoNewFree(spans, old(spans))
    {
      hide *;
      ghost var h, pg := Abs(), pages[..];
      RepParts(this);
      CutFrontIs(h, s, off);
      NoNewFreeRefl(spans);
      FrameRefl(pg, spans);
      if off != 0 {
        SplitPlan(h, pg, s, off);
        spans := Split(h, s, off).spans;
        AbsIs(this);
        RepFrom(this);
        FreeSpanNoMerge(s, off);
        FrameFromRaw(pg, pages[..], h.spans, Split(h, s, off).spans, spans);
        SplitPushGrows(h, s, off, s);
        AbsIs(this);
      }
    }

    /** The pages behind the kept ones go back to the pool. */
    method TrimBack(s: nat, len: u32, n: nat)
      requires Rep() && s in spans && spans[s] == Span(len, Raw) && 1 <= n <= len
      modifies this`spans, this`nrFreePages, pages, freeSpans
      ensures Rep() && Abs() == CutBack(old(Abs()), s, n)
      ensures PoolFrame(old(pages[..]), pages[..], old(spans), spans) && NoNewFree(spans, old(spans))
    {
      hide *;
      ghost var h, pg := Abs(), pages[..];
      RepParts(this);
      CutBackIs(h, s, n);
      NoNewFreeRefl(spans);
      FrameRefl(pg, spans);
      if n < len {
        SplitPlan(h, pg, s, n);
        spans := Split(h, s, n).spans;
        AbsIs(this);
        RepFrom(this);
        FreeSpanNoMerge(s + n, len - n);
        FrameFromRaw(pg, pages[..], h.spans, Split(h, s, n).spans, spans);
        SplitPushGrows(h, s, n, s + n);
        AbsIs(this);
      }
    }

    /** span->pool = nullptr. */
    method ResetPool(s: nat)
      requires s < pages.Length && Woven(freeSpans, pages)
      modifies pages
      ensures pages[..] == old(pages[..])[s := old(pages[s]).(pool := 0)] && Woven(freeSpans, pages)
    {
      hide Threaded, NoDup;
      ghost var pg := pages[..];
      pages[s] := pages[s].(pool := 0);
      assert Prevs(pages[..]) == Prevs(pg);
      assert Nexts(pages[..]) == Nexts(pg);
    }

    /** Mark a raw span as a large allocation. */
    method MarkLarge(s: nat, n: nat)
      requires Rep() && s != 0 && s in spans && spans[s] == Span(n, Raw)
      modifies this`spans, pages
      ensures Rep() && Abs() == SetKind(old(Abs()), s, Large)
      ensures s < pages.Length && PoolFrameBut(old(pages[..]), pages[..], old(spans), spans, s)
              && NoNewFree(spans, old(spans))
    {
      hide *;
      ghost var h, pg := Abs(), pages[..];
      RepParts(this);
      MarkPlan(h, pg, s);
      SetTags(s, n, false);
      ResetPool(s);
      spans := spans[s := Span(n, Large)];
      AbsIs(this);
      MarkTags(pg, h, s);
      RekindGrows(h.spans, s, Span(n, Large));
      RepFrom(this);
    }

    /** Cut a claimed span as the trimmer says and mark what is kept. */
    method CutOut(s: nat, len: u32, t: Trim) returns (r: nat)
      requires Rep() && s != 0 && s in spans && spans[s] == Span(len, Raw)
      requires t.nrPages >= 1 && t.offset + t.nrPages <= len
      modifies this`spans, this`nrFreePages, pages, freeSpans
      ensures Rep() && r == s + t.offset && CutTo(old(Abs()), Abs(), s, t)
      ensures r < pages.Length && PoolFrameBut(old(pages[..]), pages[..], old(spans), spans, r)
              && NoNewFree(spans, old(spans))
    {
      hide *;
      ghost var h, pg, m := Abs(), pages[..], spans;
      RepParts(this);
      CutPlan(h, s, t);
      TrimFront(s, len, t.offset);
      ghost var pg1, m1 := pages[..], spans;
      AbsIs(this);
      r := s + t.offset;
      TrimBack(r, len - t.offset, t.nrPages);
      ghost var pg2, m2 := pages[..], spans;
      AbsIs(this);
      MarkLarge(r, t.nrPages);
      CutFrame(pg, pg1, pg2, pages[..], m, m1, m2, spans, r);
    }

    /** allocate_large_and_trim. Reclaimers are no-ops and current_min_free_pages is 0, so the
        low-memory branch at the end is never taken. */
    method AllocateLargeAndTrim(n: u32, trimmer: (nat, nat) -> Trim) returns (thrown: bool, r: nat)
      requires Rep() && FullInv(Abs()) && 1 <= n <= 0x8000_0000 && TrimmerFits(Abs(), n, trimmer)
      modifies this, pages, freeSpans
      ensures Rep() && thrown == SearchThrows(n)
      ensures thrown ==> Abs() == old(Abs()) && r == 0
      ensures !thrown ==> Allocated(old(Abs()), Abs(), n, trimmer, r)
      ensures if old(nrPages) == 0 then pages == old(pages) || fresh(pages)
              else pages == old(pages)
                   && (r == 0 ==> PoolFrame(old(pages[..]), pages[..], old(spans), spans))
                   && (r != 0 ==> r < pages.Length && PoolFrameBut(old(pages[..]), pages[..], old(spans), spans, r))
    {
      hide *;
      RepParts(this);
      ghost var h, pg := Abs(), pages[..];
      FrameRefl(pg, spans);
      var span;
      thrown, span := FindAndUnlinkSpan(n);
      r := 0;
      if thrown {
        return;
      }
      AllocatedPlan(h, Abs(), n, trimmer, span);
      RepParts(this);
      if span == 0 {
        return;
      }
      ghost var pg1, m1 := pages[..], spans;
      var spanSize := pages[span].spanSize;
      nrFreePages := nrFreePages - spanSize;
      AbsIs(this);
      RepFrom(this);
      var t := trimmer(span, nrPages);
      r := CutOut(span, spanSize, t);
      CutIsTake(h, Abs(), n, trimmer, span);
      if h.nr > 0 { FindCutFrame(pg, pg1, pages[..], h.spans, m1, spans, r); }
    }

    method AllocateLarge(n: u32) returns (thrown: bool, r: nat)
      requires Rep() && FullInv(Abs()) && 1 <= n <= 0x8000_0000
      modifies this, pages, freeSpans
      ensures Rep() && FullInv(Abs()) && (Abs(), Outcome(thrown, r)) == AllocLarge(old(Abs()), n) && (thrown ==> r == 0)
      ensures if old(nrPages) == 0 then pages == old(pages) || fresh(pages)
              else pages == old(pages)
                   && (r == 0 ==> PoolFrame(old(pages[..]), pages[..], old(spans), spans))
                   && (r != 0 ==> r < pages.Length && PoolFrameBut(old(pages[..]), pages[..], old(spans), spans, r))
    {
      hide *;
      ghost var h, pg := Abs(), pages[..];
      FrameRefl(pg, spans);
      LargeFits(h, n);
      thrown, r := AllocateLargeAndTrim(n, LargeTrimmer(n));
      LargeIs(h, Abs(), n, thrown, r);
      AllocLargeOk(h, n);
    }

    /** allocate_large_aligned for an alignment of align == 2^k pages. */
    method AllocateLargeAligned(align: u32, n: u32, ghost k: nat) returns (thrown: bool, r: nat)
      requires Rep() && FullInv(Abs()) && align == Pow2(k) && n >= 1 && n + align - 1 <= 0x8000_0000
      modifies this, pages, freeSpans
      ensures Rep() && FullInv(Abs()) && (Abs(), Outcome(thrown, r)) == AllocAligned(old(Abs()), k, n)
              && (thrown ==> r == 0)
      ensures if old(nrPages) == 0 then pages == old(pages) || fresh(pages)
              else pages == old(pages)
                   && (r == 0 ==> PoolFrame(old(pages[..]), pages[..], old(spans), spans))
                   && (r != 0 ==> r < pages.Length && PoolFrameBut(old(pages[..]), pages[..], old(spans), spans, r))
    {
      hide *;
      ghost var h := Abs();
      FrameRefl(pages[..], spans);
      Pow2Of32();
      AlignedFits(h, k, n);
      thrown, r := AllocateLargeAndTrim(n + align - 1, AlignedTrimmer(align, n));
      AlignedIs(h, Abs(), k, n, thrown, r);
      AllocAlignedOk(h, k, n);
    }

    /** free_large, on the first page of a large allocation or of a pool's span. */
    method FreeLarge(idx: nat)
      requires Rep() && FullInv(Abs()) && idx in spans && (spans[idx].kind.Large? || spans[idx].kind.Small?)
      modifies this`spans, this`nrFreePages, pages, freeSpans
      ensures Rep() && FullInv(Abs()) && Abs() == PageOps.FreeSpan(old(Abs()), idx)
      ensures PoolFrame(old(pages[..]), pages[..], old(spans), spans)
    {
      hide *;
      ghost var h := Abs();
      RepParts(this);
      FreePlan(h, pages[..], idx);
      FreeSpan(idx, pages[idx].spanSize);
      FreeFull(h, idx);
    }

    /** shrink, on the first page of a live span: small-pool spans are left alone, a large one is
        cut to newPages pages in place. */
    method Shrink(s: nat, newPages: nat)
      requires Rep() && FullInv(Abs()) && s in spans && (spans[s].kind.Large? || spans[s].kind.Small?)
      requires spans[s].kind.Large? ==> 1 <= newPages <= spans[s].len
      modifies this`spans, this`nrFreePages, pages, freeSpans
      ensures Rep() && FullInv(Abs())
      ensures old(spans[s].kind.Large?) ==> Abs() == ShrinkSpan(old(Abs()), s, newPages)
      ensures old(spans[s].kind.Small?) ==> Abs() == old(Abs())
      ensures PoolFrame(old(pages[..]), pages[..], old(spans), spans)
    {
      hide *;
      ghost var h, pg := Abs(), pages[..];
      RepParts(this);
      FreePlan(h, pg, s);
      KindByPool(pg, h.spans, h.nr, s);
      FrameRefl(pg, spans);
      if pages[s].pool != 0 {
        return;
      }
      var oldPages := pages[s].spanSize;
      ShrinkIs(h, s, newPages);
      ShrinkFull(h, s, newPages);
      if newPages == oldPages {
        return;
      }
      ShrinkPlan(h, pg, s, newPages);
      TailRawIs(h, s, newPages);
      TailRawMap(h, s, newPages);
      TailRawNeighbours(h, s, newPages);
      ShrinkTags(h, pg, s, newPages);
      CutTags(s, newPages);
      spans := TailRaw(h, s, newPages).spans;
      AbsIs(this);
      RepFrom(this);
      FreeSpanAnyKind(Split(h, s, newPages), s + newPages);
      ghost var pg1, m1 := pages[..], spans;
      FreeSpan(s + newPages, oldPages - newPages);
      AbsIs(this);
      ShrinkFrame(pg, pg1, pages[..], h.spans, m1, spans);
    }

    /** The tags shrink writes: the new size at the head, a fresh tail. */
    method CutTags(s: nat, n: nat)
      requires 1 <= n && s + n <= pages.Length && Woven(freeSpans, pages) && !pages[s].free
      modifies pages
      ensures pages[..] == WithTags(old(pages[..]), s, n, false) && Woven(freeSpans, pages)
    {
      hide Threaded, NoDup;
      ghost var pg := pages[..];
      pages[s] := pages[s].(spanSize := n);
      pages[s + n - 1] := pages[s + n - 1].(free := false);
      pages[s + n - 1] := pages[s + n - 1].(spanSize := n);
      assert pages[..] == WithTags(pg, s, n, false);
      forall j | 0 <= j < |freeSpans|
        ensures freeSpans[j].Linked(pages)
      {
        ThreadedRetagged(pg, s, n, false, freeSpans[j].front, freeSpans[j].back, freeSpans[j].contents);
      }
    }

    /** do_resize: grow the pool to newPages pages, moving the page array to fresh pages. garbage
        is whatever the memory of the new array held before. Returns false for bad_alloc. */
    method DoResize(newPages: u32, garbage: seq<Page>) returns (ok: bool)
      requires Rep() && FullInv(Abs()) && (nrPages > 0 || newPages == 0) && |garbage| == newPages + 1
      modifies this, pages, freeSpans
      ensures Rep() && FullInv(Abs()) && (Abs(), ok) == Grow(old(Abs()), newPages)
      ensures !ok || newPages <= old(nrPages) ==>
                pages == old(pages) && PoolFrame(old(pages[..]), pages[..], old(spans), spans)
      ensures ok && newPages > old(nrPages) ==>
                fresh(pages) && GrowFrame(old(pages[..]), pages[..], old(spans), old(nrPages), pagesStart)
    {
      hide *;
      ghost var h, pg, m := Abs(), pages[..], spans;
      AbsIs(this);
      GrowIs(h, newPages);
      FrameRefl(pg, m);
      if newPages <= nrPages {
        return true;
      }
      ArrayPagesFit(newPages);
      GrowOk(h, newPages);
      var thrown, p := AllocateLarge(ArrayPages(newPages));
      OutcomeIs(thrown, p);
      if thrown || p == 0 {
        return false;
      }
      ok := true;
      ghost var h1, pg1 := Abs(), pages[..];
      GrowMovable(h, newPages);
      CarvedNr(h, h1, p, ArrayPages(newPages));
      AbsIs(this);
      var oldArray, oldNr, oldSize := pagesStart, nrPages, ArrayPages(nrPages);
      RepParts(this);
      RelocatedIs(h1, pg1, p, newPages);
      MovableShape(h1, p, newPages);
      CopyPages(newPages, garbage, p);
      AbsIs(this);
      ResizeStart(h, h1, pg, pg1, pages[..], garbage, p, newPages);
      ghost var pg2 := pages[..];
      FreeOldArray(oldArray, oldSize, newPages, h1, p);
      AbsIs(this);
      ghost var pg3 := pages[..];
      FreeNewPages(oldNr, newPages, h1, p);
      AbsIs(this);
      ResizeFrame(h, h1, pg, pg2, pg3, pages[..], p, newPages);
    }

    /** The pages of the old array are free, but for page 0. */
    method FreeOldArray(oldArray: nat, oldSize: nat, newPages: u32, ghost h1: Heap, ghost p: nat)
      requires Rep() && Movable(h1, p, newPages) && Abs() == Relocated(h1, p, newPages)
      requires oldArray == h1.arr && h1.nr < 0x1_0000_0000 && oldSize == ArrayPages(h1.nr)
      modifies this`spans, this`nrFreePages, pages, freeSpans
      ensures h1.arr in Relocated(h1, p, newPages).spans
              && (h1.arr == 0 ==> Relocated(h1, p, newPages).spans[0].len >= 2)
      ensures Rep() && Abs() == ReturnArray(Relocated(h1, p, newPages), h1.arr)
      ensures PoolFrame(old(pages[..]), pages[..], Returning(h1, p, newPages).spans, spans)
    {
      hide *;
      RepParts(this);
      AbsIs(this);
      MovableShape(h1, p, newPages);
      ReturnPlan(h1, pages[..], p, newPages);
      var start, n := oldArray, oldSize;
      if start == 0 {
        start := 1;
        n := n - 1;
      }
      spans := Returning(h1, p, newPages).spans;
      AbsIs(this);
      RepFrom(this);
      FreeSpan(start, n);
    }

    /** The end of do_resize: the pages behind the old pool are free. */
    method FreeNewPages(oldNr: nat, newPages: u32, ghost h1: Heap, ghost p: nat)
      requires Rep() && Movable(h1, p, newPages) && h1.nr == oldNr < newPages
      requires h1.arr in Relocated(h1, p, newPages).spans
               && (h1.arr == 0 ==> Relocated(h1, p, newPages).spans[0].len >= 2)
      requires Abs() == ReturnArray(Relocated(h1, p, newPages), h1.arr)
      modifies this`spans, this`nrFreePages, pages, freeSpans
      ensures Rep() && FullInv(Abs()) && Abs() == Moved(h1, p, newPages)
      ensures PoolFrame(old(pages[..]), pages[..], old(spans), spans)
    {
      hide *;
      AbsIs(this);
      ArrayPagesFit(newPages);
      ReleaseNewPlan(h1, p, newPages);
      FreeSpan(oldNr, newPages - oldNr);
      MovedFull(h1, p, newPages);
    }

    method CopyOver(newPages: u32, garbage: seq<Page>) returns (ary: array<Page>)
      requires nrPages < newPages && nrPages <= pages.Length && |garbage| == newPages + 1
      ensures fresh(ary) && ary[..] == Copied(pages[..], nrPages, garbage)
    {
      ary := new Page[newPages + 1](i requires 0 <= i < |garbage| => garbage[i]);
      var i := 0;
      while i < nrPages
        invariant 0 <= i <= nrPages
        invariant ary[..i] == pages[..i]
        invariant forall j :: i <= j < ary.Length ==> ary[j] == garbage[j]
        modifies ary
      {
        ary[i] := pages[i];
        i := i + 1;
      }
      ary[newPages] := ary[newPages].(free := false);
    }

    /** The new array takes over: copy the page structures, close it with a sentinel, switch. */
    method CopyPages(newPages: u32, garbage: seq<Page>, p: nat)
      requires Rep() && Movable(Abs(), p, newPages) && |garbage| == newPages + 1
      modifies this
      ensures Rep() && Abs() == Relocated(old(Abs()), p, newPages) && fresh(pages)
      ensures old(nrPages) <= old(pages.Length) && pages[..] == Copied(old(pages[..]), old(nrPages), garbage)
    {
      hide *;
      ghost var h, pg := Abs(), pages[..];
      RepParts(this);
      RelocatedIs(h, pg, p, newPages);
      var ary := CopyOver(newPages, garbage);
      CopiedWoven(freeSpans, pages, ary, h, garbage);
      pages := ary;
      nrPages := newPages;
      pagesStart := p;
      spans := Relocated(h, p, newPages).spans;
      AbsIs(this);
      CopiedTagged(h, pg, garbage, p, newPages);
      RepFrom(this);
    }
  }

  lemma RepParts(c: CpuPages)
    requires c.Rep()
    ensures c.Abs() == Heap(c.nrPages, c.spans, ContentsOf(c.freeSpans), c.nrFreePages, c.pagesStart)
    ensures Core(c.Abs()) && (c.nrPages > 0 ==> Tagged(c.pages[..], c.spans, c.nrPages))
    ensures Woven(c.freeSpans, c.pages) && |c.freeSpans| == |ContentsOf(c.freeSpans)| == NR_SPAN_LISTS
  {
    hide Core, Tagged, AllLinked;
    ListsApartAll(c.Abs());
  }

  lemma AbsIs(c: CpuPages)
    ensures c.Abs() == Heap(c.nrPages, c.spans, ContentsOf(c.freeSpans), c.nrFreePages, c.pagesStart)
  {
  }

  lemma RepFrom(c: CpuPages)
    requires Woven(c.freeSpans, c.pages) && Core(c.Abs()) && (c.nrPages > 0 ==> Tagged(c.pages[..], c.spans, c.nrPages))
    ensures c.Rep()
  {
    hide Core, Tagged, AllLinked;
  }

  lemma StartedIs(h: Heap)
    ensures 65 in Bootstrapping().spans
    ensures Started(h) == if h.nr == 0 then PushFree(Bootstrapping(), 65) else h
  {
    hide PushFree, Core, ArrayPages;
    BootstrappingCore();
    BootstrapArray();
  }

  lemma NoLists(h: Heap)
    requires FullInv(h) && h.nr == 0
    ensures h.spans == map[] && h.nrFree == 0
    ensures forall j :: 0 <= j < |h.lists| ==> h.lists[j] == []
  {
    hide NoAdjacent, ArrayOk, NoDup;
    assert forall s: nat :: s in h.spans ==> 1 <= h.spans[s].len && s + h.spans[s].len <= 0;
    forall j | 0 <= j < |h.lists|
      ensures h.lists[j] == []
    {
      assert forall x :: x in h.lists[j] ==> IsFree(h.spans, x);
      HasMember(h.lists[j]);
    }
    assert FreePages(h.spans, 0) == {};
  }

  lemma HasMember(c: seq<nat>)
    ensures c == [] || exists x :: x in c
  {
    if c != [] { assert c[0] in c; }
  }

  lemma EmptyLists(ls: seq<PageList>, ary: array<Page>)
    requires Woven(ls, ary) && forall j :: 0 <= j < |ls| ==> ls[j].contents == []
    ensures forall j :: 0 <= j < |ls| ==> ls[j].front == 0 && ls[j].back == 0
  {
    forall j | 0 <= j < |ls|
      ensures ls[j].front == 0 && ls[j].back == 0
    {
      assert ls[j].Linked(ary);
    }
  }

  /** Empty lists are threaded through any array. */
  lemma WovenEmpty(ls: seq<PageList>, ary: array<Page>)
    requires Distinct32(ls)
    requires forall j :: 0 <= j < |ls| ==> ls[j].contents == [] && ls[j].front == 0 && ls[j].back == 0
    ensures Woven(ls, ary)
  {
  }

  lemma WovenDistinct(ls: seq<PageList>, ary: array<Page>)
    requires Woven(ls, ary)
    ensures Distinct32(ls)
  {
  }

  lemma BootTags(pg: seq<Page>)
    requires |pg| == 8193 && forall i :: 0 <= i < |pg| ==> !pg[i].free
    ensures Tagged(pg, map[0 := Span(65, Reserved), 65 := Span(8127, Raw)], 8192)
  {
  }

  lemma BootAbs(h: Heap, lists: seq<seq<nat>>)
    requires h == Heap(8192, map[0 := Span(65, Reserved), 65 := Span(8127, Raw)], lists, 0, 0)
    requires |lists| == 32 && forall j :: 0 <= j < |lists| ==> lists[j] == []
    ensures h == Bootstrapping()
  {
    hide Core;
    BootstrappingCore();
  }

  /** The outcome of a search that does not throw, starting from pool h. */
  ghost predicate Found(h: Heap, h': Heap, n: u32, span: nat)
    requires FullInv(h) && n >= 1
  {
    StartedInv(h);
    var h0 := Started(h);
    && span == Pick(h0, n)
    && (span == 0 ==> h' == h0)
    && (span != 0 ==> span in h0.spans && h' == Claim(h0, span).(nrFree := h0.nrFree))
  }

  lemma WovenLinked(ls: seq<PageList>, ary: array<Page>, j: nat)
    requires Woven(ls, ary) && j < |ls|
    ensures ls[j].Linked(ary) && (ls[j].front == 0 <==> ls[j].contents == [])
  {
    hide NoDup;
    if ls[j].contents != [] { ThreadedIn(Prevs(ary[..]), Nexts(ary[..]), ls[j].front, ls[j].back, ls[j].contents, 0); }
  }

  lemma SizeOfListed(h: Heap, pg: seq<Page>, j: nat, k: nat)
    requires Core(h) && (h.nr > 0 ==> Tagged(pg, h.spans, h.nr)) && j < |h.lists| && k < |h.lists[j]|
    ensures var x := h.lists[j][k];
            && IsFree(h.spans, x) && x in h.spans && x < |pg| && pg[x].spanSize == h.spans[x].len
            && 1 <= h.spans[x].len < 0x1_0000_0000 && j == IndexOf(h.spans[x].len)
  {
    hide Tiled, FloorLog2, IndexOf, NoDup;
    var x := h.lists[j][k];
    assert x in h.lists[j];
    CoreSpan(h, x);
    IndexInRange(h, x);
    TailTag(pg, x, h.spans[x]);
  }

  /** Walking the links for a long enough span is FirstFit on the list's contents. */
  lemma FindIsFirstFit(h: Heap, pg: seq<Page>, j: nat, n: nat, r: nat, k: nat)
    requires Core(h) && (h.nr > 0 ==> Tagged(pg, h.spans, h.nr)) && j < |h.lists|
    requires forall i :: 0 <= i < |h.lists[j]| ==> 0 < h.lists[j][i] < |pg|
    requires r == 0 ==> forall i :: 0 <= i < |h.lists[j]| ==> pg[h.lists[j][i]].spanSize < n
    requires r != 0 ==> k < |h.lists[j]| && h.lists[j][k] == r && pg[r].spanSize >= n
                        && forall i :: 0 <= i < k ==> pg[h.lists[j][i]].spanSize < n
    ensures r == FirstFit(h.lists[j], h.spans, n)
  {
    hide Core, Tagged, IsFree, IndexOf, FirstFit;
    var c := h.lists[j];
    forall i | 0 <= i < |c|
      ensures c[i] in h.spans && pg[c[i]].spanSize == h.spans[c[i]].len
    {
      SizeOfListed(h, pg, j, i);
    }
    FirstFitAt(c, h.spans, n, if r == 0 then |c| else k);
  }

  lemma {:induction false} FirstFitAt(c: seq<nat>, m: map<nat, Span>, n: nat, k: nat)
    requires k <= |c| && forall i :: 0 <= i < |c| ==> c[i] in m
    requires forall i :: 0 <= i < k ==> m[c[i]].len < n
    requires k < |c| ==> m[c[k]].len >= n
    ensures FirstFit(c, m, n) == if k < |c| then c[k] else 0
  {
    if k > 0 { FirstFitAt(c[1..], m, n, k - 1); }
  }

  lemma SameTagsAt(pg: seq<Page>, pg': seq<Page>, i: nat)
    requires SameTags(pg, pg') && i < |pg|
    ensures i < |pg'| && pg'[i].spanSize == pg[i].spanSize
  {
    assert Unlinked(pg'[i]) == Unlinked(pg[i]);
  }

  lemma PickIs(h: Heap, n: u32, idx: nat)
    requires n >= 1 && |h.lists| == NR_SPAN_LISTS && idx <= |h.lists|
    requires idx == FirstNonEmpty(h.lists, IndexOfConservative(n))
    ensures 0 <= IndexOf(n) < |h.lists|
    ensures idx < |h.lists| ==> Pick(h, n) == FirstFit(h.lists[idx], h.spans, n)
    ensures idx == |h.lists| ==>
              Pick(h, n) == if IndexOf(n) == IndexOfConservative(n) then 0
              else FirstFit(h.lists[IndexOf(n)], h.spans, n)
  {
    IndexOfIsFloorLog2(n);
  }

  lemma SearchThrowsIs(n: u32)
    requires n >= 1
    ensures SearchThrows(n) <==> n >= (2 * Pow2(IndexOfConservative(n))) % 0x1_0000_0000
  {
  }

  /** The index the scan starts from is below 32 whenever the guard lets it start. */
  lemma ConservativeBelow(n: u32)
    requires n >= 1
    ensures IndexOfConservative(n) <= NR_SPAN_LISTS == 32
  {
    ConservativeIndex(n);
  }

  /** A pool with a non-empty list has pages. */
  lemma ListedStarted(h: Heap, j: nat)
    requires Core(h) && j < |h.lists| && h.lists[j] != []
    ensures h.nr > 0 && Started(h) == h
  {
    hide NoDup;
    var x := h.lists[j][0];
    assert x in h.lists[j];
    assert IsFree(h.spans, x);
    CoreSpan(h, x);
  }

  lemma FoundIs(h: Heap, h': Heap, n: u32, span: nat)
    requires FullInv(h) && n >= 1 && h.nr > 0 && |h.lists| == NR_SPAN_LISTS && span == Pick(h, n)
    requires span == 0 ==> h' == h
    requires span != 0 ==> span in h.spans && h' == Claim(h, span).(nrFree := h.nrFree)
    ensures Found(h, h', n, span)
  {
    hide FullInv, Pick, Claim;
  }

  lemma FoundStarted(h: Heap, h': Heap, n: u32, span: nat)
    requires FullInv(h) && n >= 1 && FullInv(Started(h)) && Started(h).nr > 0 && Found(Started(h), h', n, span)
    ensures Found(h, h', n, span)
  {
    hide FullInv, Pick, Claim, Initialized;
  }

  lemma CutFrontIs(h: Heap, s: nat, off: nat)
    requires s in h.spans && off < h.spans[s].len
    ensures off == 0 ==> CutFront(h, s, off) == h
    ensures off > 0 ==> s in Split(h, s, off).spans && CutFront(h, s, off) == PushFree(Split(h, s, off), s)
  {
  }

  lemma CutBackIs(h: Heap, s: nat, n: nat)
    requires s in h.spans && 0 < n <= h.spans[s].len
    ensures n == h.spans[s].len ==> CutBack(h, s, n) == h
    ensures n < h.spans[s].len ==> s + n in Split(h, s, n).spans && CutBack(h, s, n) == PushFree(Split(h, s, n), s + n)
  {
  }

  lemma SplitPlan(h: Heap, pg: seq<Page>, s: nat, n: nat)
    requires Core(h) && s in h.spans && h.spans[s].kind.Raw? && 0 < n < h.spans[s].len
    requires h.nr > 0 ==> Tagged(pg, h.spans, h.nr)
    ensures var h1, m1 := Split(h, s, n), Split(h, s, n).spans;
            && Core(h1) && h1 == Heap(h.nr, m1, h.lists, h.nrFree, h.arr) && (h.nr > 0 ==> Tagged(pg, m1, h.nr))
            && s in m1 && m1[s] == Span(n, Raw) && s + n in m1 && m1[s + n] == Span(h.spans[s].len - n, Raw)
            && NoNewFree(h.spans, m1)
  {
    hide Core, TagsAt;
    CoreSpan(h, s);
    SplitCore(h, s, n);
    if h.nr > 0 {
      RawAt(pg, s, n);
      RawAt(pg, s + n, h.spans[s].len - n);
    }
  }

  lemma FrameFromRaw(pg: seq<Page>, pg': seq<Page>, m: map<nat, Span>, m1: map<nat, Span>, m': map<nat, Span>)
    requires PoolFrame(pg, pg', m1, m') && NoNewFree(m, m1)
    ensures PoolFrame(pg, pg', m, m')
  {
  }

  /** The frame of an allocation: as PoolFrame, except that the head page leaves its pool. */
  ghost predicate PoolFrameBut(pg: seq<Page>, pg': seq<Page>, m: map<nat, Span>, m': map<nat, Span>, r: nat)
    requires r < |pg| && r < |pg'|
  {
    PoolFrame(pg[r := pg[r].(pool := 0)], pg', m, m')
  }

  lemma MarkPlan(h: Heap, pg: seq<Page>, s: nat)
    requires Core(h) && s != 0 && s in h.spans && h.spans[s].kind.Raw?
    requires h.nr > 0 ==> Tagged(pg, h.spans, h.nr)
    ensures h.nr > 0 && 1 <= h.spans[s].len && s + h.spans[s].len <= h.nr && |pg| == h.nr + 1
    ensures Core(SetKind(h, s, Large))
            && SetKind(h, s, Large) == Heap(h.nr, h.spans[s := Span(h.spans[s].len, Large)], h.lists, h.nrFree, h.arr)
  {
    hide Core, TagsAt;
    CoreSpan(h, s);
    SetKindCore(h, s, Large);
  }

  lemma MarkTags(pg: seq<Page>, h: Heap, s: nat)
    requires Core(h) && s in h.spans && h.spans[s].kind.Raw? && h.nr > 0 && Tagged(pg, h.spans, h.nr)
    requires 1 <= h.spans[s].len && s + h.spans[s].len <= h.nr && |pg| == h.nr + 1
    ensures var n, m' := h.spans[s].len, h.spans[s := Span(h.spans[s].len, Large)];
            var p1 := WithTags(pg, s, n, false);
            && s < |p1| && Tagged(p1[s := p1[s].(pool := 0)], m', h.nr)
            && PoolFrameBut(pg, p1[s := p1[s].(pool := 0)], h.spans, m', s)
  {
    hide Core, Tagged, TagsAt, PoolFrame, WithTags, SpansInside, SpansDisjoint;
    CoreSpan(h, s);
    var n := h.spans[s].len;
    var pg0 := pg[s := pg[s].(pool := 0)];
    PoolResetTagged(pg, h.spans, h.nr, s);
    WithTagsTagged(pg0, h.spans, h.nr, s, Large);
    WithTagsFrame(pg0, s, n, false, h.spans, h.spans[s := Span(n, Large)]);
    TagsThenPool(pg, s, n);
  }

  lemma TagsThenPool(pg: seq<Page>, s: nat, n: nat)
    requires 1 <= n && s + n <= |pg|
    ensures var p1 := WithTags(pg, s, n, false);
            s < |p1| && p1[s := p1[s].(pool := 0)] == WithTags(pg[s := pg[s].(pool := 0)], s, n, false)
  {
  }

  lemma PoolResetTagged(pg: seq<Page>, m: map<nat, Span>, nr: nat, s: nat)
    requires Tagged(pg, m, nr) && SpansInside(m, nr) && SpansDisjoint(m) && s in m && m[s].kind.Raw?
    ensures s < |pg| && Tagged(pg[s := pg[s].(pool := 0)], m, nr)
  {
    hide TagsAt;
    var r := pg[s := pg[s].(pool := 0)];
    forall x | x in m
      ensures TagsAt(r, x, m[x])
    {
      assert x != s ==> x + m[x].len <= s || s + m[s].len <= x;
      PoolResetTags(pg, s, x, m[x]);
    }
  }

  lemma PoolResetTags(pg: seq<Page>, s: nat, x: nat, sp: Span)
    requires TagsAt(pg, x, sp) && s < |pg| && (sp.kind.Raw? || x + sp.len <= s || s < x)
    ensures TagsAt(pg[s := pg[s].(pool := 0)], x, sp)
  {
  }

  lemma SplitPushGrows(h: Heap, s: nat, n: nat, f: nat)
    requires Core(h) && s in h.spans && h.spans[s].kind.Raw? && 0 < n < h.spans[s].len && f in Split(h, s, n).spans
    ensures NoNewFree(PushFree(Split(h, s, n), f).spans, h.spans)
  {
    hide Core, Push;
    SplitCore(h, s, n);
  }

  lemma RekindGrows(m: map<nat, Span>, s: nat, sp: Span)
    requires s in m && m[s].kind.Raw?
    ensures NoNewFree(m[s := sp], m)
  {
  }

  /** The trimmer cuts inside any span the search settles on. */
  ghost predicate TrimmerFits(h: Heap, n: u32, trimmer: (nat, nat) -> Trim)
    requires FullInv(h) && n >= 1
  {
    StartedInv(h);
    var h0, s := Started(h), Pick(Started(h), n);
    s != 0 && s in h0.spans ==> var t := trimmer(s, h0.nr); t.nrPages >= 1 && t.offset + t.nrPages <= h0.spans[s].len
  }

  /** What an allocation that does not throw does to the pool. */
  ghost predicate Allocated(h: Heap, h': Heap, n: u32, trimmer: (nat, nat) -> Trim, r: nat)
    requires FullInv(h) && n >= 1
  {
    StartedInv(h);
    var h0, s := Started(h), Pick(Started(h), n);
    if s == 0 then r == 0 && h' == h0
    else
      s in h0.spans
      && var t := trimmer(s, h0.nr);
      t.nrPages >= 1 && t.offset + t.nrPages <= h0.spans[s].len && r == s + t.offset
      && h' == Take(h0, s, t.offset, t.nrPages)
  }

  /** The effect of CutOut on the pool. */
  ghost predicate CutTo(h: Heap, h': Heap, s: nat, t: Trim)
    requires s in h.spans && t.nrPages >= 1 && t.offset + t.nrPages <= h.spans[s].len
  {
    h' == SetKind(CutBack(CutFront(h, s, t.offset), s + t.offset, t.nrPages), s + t.offset, Large)
  }

  lemma CutPlan(h: Heap, s: nat, t: Trim)
    requires Core(h) && s in h.spans && h.spans[s].kind.Raw? && t.nrPages >= 1 && t.offset + t.nrPages <= h.spans[s].len
    ensures var h1, r := CutFront(h, s, t.offset), s + t.offset;
            && r in h1.spans && h1.spans[r] == Span(h.spans[s].len - t.offset, Raw)
            && (var h2 := CutBack(h1, r, t.nrPages);
                && r in h2.spans && h2.spans[r] == Span(t.nrPages, Raw)
                && CutTo(h, SetKind(h2, r, Large), s, t))
  {
    hide Core, CutFront, CutBack, SetKind;
    CutFrontCore(h, s, t.offset);
    CutBackCore(CutFront(h, s, t.offset), s + t.offset, t.nrPages);
  }

  lemma CutFrame(pg: seq<Page>, pg1: seq<Page>, pg2: seq<Page>, pg3: seq<Page>,
                 m: map<nat, Span>, m1: map<nat, Span>, m2: map<nat, Span>, m3: map<nat, Span>, r: nat)
    requires PoolFrame(pg, pg1, m, m1) && PoolFrame(pg1, pg2, m1, m2) && r < |pg2| && r < |pg3|
    requires PoolFrameBut(pg2, pg3, m2, m3, r)
    requires NoNewFree(m1, m) && NoNewFree(m2, m1) && NoNewFree(m3, m2)
    ensures r < |pg| && PoolFrameBut(pg, pg3, m, m3, r) && NoNewFree(m3, m)
  {
    FrameTrans(pg, pg1, pg2, m, m1, m2);
    FrameTransBut(pg, pg2, pg3, m, m2, m3, r);
  }

  lemma FrameTransBut(pg: seq<Page>, pg2: seq<Page>, pg3: seq<Page>, m: map<nat, Span>, m2: map<nat, Span>,
                      m3: map<nat, Span>, r: nat)
    requires PoolFrame(pg, pg2, m, m2) && r < |pg2| && r < |pg3| && PoolFrameBut(pg2, pg3, m2, m3, r)
    requires forall s: nat :: IsFree(m2, s) ==> IsFree(m, s) || IsFree(m3, s)
    ensures PoolFrameBut(pg, pg3, m, m3, r)
  {
  }

  lemma FindCutFrame(pg: seq<Page>, pg1: seq<Page>, pg2: seq<Page>, m: map<nat, Span>, m1: map<nat, Span>,
                     m2: map<nat, Span>, r: nat)
    requires PoolFrame(pg, pg1, m, m1) && NoNewFree(m, m1) && r < |pg1| && r < |pg2|
             && PoolFrameBut(pg1, pg2, m1, m2, r)
    ensures r < |pg| && PoolFrameBut(pg, pg2, m, m2, r)
  {
    FrameTransBut(pg, pg1, pg2, m, m1, m2, r);
  }

  /** What the search leaves for the rest of an allocation. */
  lemma AllocatedPlan(h: Heap, h1: Heap, n: u32, trimmer: (nat, nat) -> Trim, span: nat)
    requires FullInv(h) && n >= 1 && Found(h, h1, n, span) && TrimmerFits(h, n, trimmer)
    ensures var h0 := Started(h);
            && FullInv(h0) && |h0.lists| == NR_SPAN_LISTS && span == Pick(h0, n)
            && h1.nr == h0.nr && (h.nr > 0 ==> h0 == h)
            && (span == 0 ==> Allocated(h, h1, n, trimmer, 0))
            && (span != 0 ==>
                  && IsFree(h0.spans, span) && span in h0.spans
                     && h1.spans == h0.spans[span := Span(h0.spans[span].len, Raw)]
                  && h1.nrFree == h0.nrFree
                  && Core(Claim(h0, span)) && Claim(h0, span) == h1.(nrFree := h1.nrFree - h0.spans[span].len)
                  && NoNewFree(h0.spans, h1.spans)
                  && 1 <= h0.spans[span].len < 0x1_0000_0000
                  && trimmer(span, h0.nr).nrPages >= 1
                  && trimmer(span, h0.nr).offset + trimmer(span, h0.nr).nrPages <= h0.spans[span].len)
  {
    hide FullInv, Pick, Started, Drop, Core, Take;
    StartedIs(h);
    StartedInv(h);
    var h0 := Started(h);
    Unpack(h0);
    if span != 0 {
      PickSound(h0, n);
      CoreSpan(h0, span);
      ClaimCore(h0, span);
      Unlisted(h0);
    }
  }

  lemma CutIsTake(h: Heap, h': Heap, n: u32, trimmer: (nat, nat) -> Trim, span: nat)
    requires FullInv(h) && n >= 1 && FullInv(Started(h)) && |Started(h).lists| == NR_SPAN_LISTS
    requires span == Pick(Started(h), n) != 0 && span in Started(h).spans
    requires var t := trimmer(span, Started(h).nr);
             && t.nrPages >= 1 && t.offset + t.nrPages <= Started(h).spans[span].len
             && CutTo(Claim(Started(h), span), h', span, t)
    ensures Allocated(h, h', n, trimmer, span + trimmer(span, Started(h).nr).offset)
  {
    hide FullInv, Pick, Started, Claim, CutFront, CutBack;
  }

  lemma LargeFits(h: Heap, n: u32)
    requires FullInv(h) && n >= 1
    ensures TrimmerFits(h, n, LargeTrimmer(n))
  {
    hide FullInv, Pick, Started, Core;
    StartedInv(h);
    var h0 := Started(h);
    Unpack(h0);
    var s := Pick(h0, n);
    if s != 0 {
      PickSound(h0, n);
      CoreSpan(h0, s);
    }
  }

  lemma LargeIs(h: Heap, h': Heap, n: u32, thrown: bool, r: nat)
    requires FullInv(h) && 1 <= n <= 0x8000_0000 && thrown == SearchThrows(n)
    requires thrown ==> h' == h && r == 0
    requires !thrown ==> Allocated(h, h', n, LargeTrimmer(n), r)
    ensures (h', Outcome(thrown, r)) == AllocLarge(h, n)
  {
    hide FullInv, Pick, Started, Core, Take, SearchThrows;
    StartedInv(h);
    var h0 := Started(h);
    Unpack(h0);
    var s := Pick(h0, n);
    if s != 0 {
      PickSound(h0, n);
      CoreSpan(h0, s);
    }
  }

  lemma AlignedFits(h: Heap, k: nat, n: u32)
    requires FullInv(h) && n >= 1 && n + Pow2(k) - 1 <= 0x8000_0000 && Pow2(32) == 0x1_0000_0000
    ensures TrimmerFits(h, n + Pow2(k) - 1, AlignedTrimmer(Pow2(k), n))
  {
    hide FullInv, Pick, Started, Core, Pow2, AlignUp;
    StartedInv(h);
    var h0 := Started(h);
    Unpack(h0);
    var s := Pick(h0, n + Pow2(k) - 1);
    if s != 0 {
      TrimFits(h0, k, n);
      TrimOffset(s, AlignUp(32, s, Pow2(k)));
    }
  }

  lemma TrimOffset(s: nat, r: nat)
    requires s <= r && s < 0x1_0000_0000 && r - s < 0x1_0000_0000
    ensures s % 0x1_0000_0000 == s && (r + 0x1_0000_0000 - s) % 0x1_0000_0000 == r - s
  {
  }

  lemma AlignedIs(h: Heap, h': Heap, k: nat, n: u32, thrown: bool, r: nat)
    requires FullInv(h) && n >= 1 && n + Pow2(k) - 1 <= 0x8000_0000 && Pow2(32) == 0x1_0000_0000
    requires thrown == SearchThrows(n + Pow2(k) - 1)
    requires thrown ==> h' == h && r == 0
    requires !thrown ==> Allocated(h, h', n + Pow2(k) - 1, AlignedTrimmer(Pow2(k), n), r)
    ensures (h', Outcome(thrown, r)) == AllocAligned(h, k, n)
  {
    hide FullInv, Pick, Started, Core, Pow2, AlignUp, Take, SearchThrows, AlignedTrimmer, IsFree, Inv;
    StartedInv(h);
    var h0 := Started(h);
    Unpack(h0);
    var s := Pick(h0, n + Pow2(k) - 1);
    if s != 0 {
      TrimFits(h0, k, n);
      FreeIn(h0.spans, s);
      AlignedTrim(s, h0.nr, k, n);
    }
  }

  lemma AlignedTrim(s: nat, nr: nat, k: nat, n: nat)
    requires s < 0x1_0000_0000 && Pow2(k) <= Pow2(32) == 0x1_0000_0000
    requires s <= AlignUp(32, s, Pow2(k)) < s + Pow2(k)
    ensures AlignedTrimmer(Pow2(k), n)(s, nr) == Trim(AlignUp(32, s, Pow2(k)) - s, n)
  {
    hide Pow2, AlignUp;
    TrimOffset(s, AlignUp(32, s, Pow2(k)));
  }

  /** The size tag of a live span is its length, and its neighbours are tagged. */
  lemma FreePlan(h: Heap, pg: seq<Page>, s: nat)
    requires FullInv(h) && (h.nr > 0 ==> Tagged(pg, h.spans, h.nr))
    requires s in h.spans && (h.spans[s].kind.Large? || h.spans[s].kind.Small?)
    ensures h.nr > 0 && s != 0 && !IsFree(h.spans, s) && s < |pg| && pg[s].spanSize == h.spans[s].len < 0x1_0000_0000
    ensures NeighboursTagged(h.spans, s) && Core(h)
  {
    hide Core, CountOk, NoAdjacent, ArrayOk;
    Unpack(h);
    Unlisted(h);
    CoreSpan(h, s);
    NotReserved(h, s);
    assert TagsAt(pg, s, h.spans[s]);
  }

  /** The head page's pool field tells a large span from a pool's span, however stale the pool
      fields of other pages are. */
  lemma KindByPool(pg: seq<Page>, m: map<nat, Span>, nr: nat, s: nat)
    requires Tagged(pg, m, nr) && s in m && (m[s].kind.Large? || m[s].kind.Small?)
    ensures s < |pg| && !pg[s].free
    ensures m[s].kind.Large? <==> pg[s].pool == 0
    ensures m[s].kind.Small? ==> pg[s].pool == m[s].kind.pool
  {
    assert TagsAt(pg, s, m[s]);
  }

  lemma ShrinkIs(h: Heap, s: nat, n: nat)
    requires s in h.spans && 1 <= n <= h.spans[s].len
    ensures n == h.spans[s].len ==> ShrinkSpan(h, s, n) == h
    ensures n < h.spans[s].len ==>
              s + n in Split(h, s, n).spans && ShrinkSpan(h, s, n) == PageOps.FreeSpan(Split(h, s, n), s + n)
  {
  }

  /** The span at s cut to n pages; what is behind them carries no tags yet. */
  ghost function TailRaw(h: Heap, s: nat, n: nat): Heap
    requires s in h.spans && 0 < n < h.spans[s].len
  {
    SetKind(Split(h, s, n), s + n, Raw)
  }

  /** free_span does not look at the kind, or the own tags, of the span it is given. */
  lemma FreeSpanAnyKind(h: Heap, s: nat)
    requires s in h.spans
    ensures s in SetKind(h, s, Raw).spans && PageOps.FreeSpan(SetKind(h, s, Raw), s) == PageOps.FreeSpan(h, s)
  {
    hide AbsorbBefore, AbsorbAfter, PushFree, FreeBefore;
    assert SetKind(SetKind(h, s, Raw), s, Raw) == SetKind(h, s, Raw);
  }

  lemma ShrinkPlan(h: Heap, pg: seq<Page>, s: nat, n: nat)
    requires FullInv(h) && Tagged(pg, h.spans, h.nr) && s in h.spans && h.spans[s].kind.Large? && 0 < n < h.spans[s].len
    ensures s + n < |pg| && !pg[s].free && Core(Split(h, s, n)) && Core(h) && Settled(h.spans)
  {
    hide *;
    Unpack(h);
    CoreSpan(h, s);
    TailRawIs(h, s, n);
    TailRawMap(h, s, n);
    TaggedLength(pg, h.spans, h.nr);
    KindByPool(pg, h.spans, h.nr, s);
  }

  lemma TailRawIs(h: Heap, s: nat, n: nat)
    requires s in h.spans && h.spans[s].kind.Large? && 0 < n < h.spans[s].len
    ensures var h1, m1 := TailRaw(h, s, n), TailRaw(h, s, n).spans;
            && h1 == Heap(h.nr, m1, h.lists, h.nrFree, h.arr)
            && s + n in Split(h, s, n).spans && h1 == SetKind(Split(h, s, n), s + n, Raw)
            && s + n in m1 && m1[s + n] == Span(h.spans[s].len - n, Raw) && !IsFree(m1, s + n)
  {
  }

  lemma TailRawMap(h: Heap, s: nat, n: nat)
    requires Core(h) && Settled(h.spans) && s in h.spans && h.spans[s].kind.Large? && 0 < n < h.spans[s].len
    ensures Core(TailRaw(h, s, n)) && Core(Split(h, s, n)) && NoNewFree(h.spans, TailRaw(h, s, n).spans)
  {
    hide Core, Settled;
    CoreSpan(h, s);
    SplitCore(h, s, n);
    SetKindCore(Split(h, s, n), s + n, Raw);
  }

  lemma TailRawNeighbours(h: Heap, s: nat, n: nat)
    requires Core(h) && Settled(h.spans) && s in h.spans && h.spans[s].kind.Large? && 0 < n < h.spans[s].len
    ensures s + n in TailRaw(h, s, n).spans && NeighboursTagged(TailRaw(h, s, n).spans, s + n)
  {
    hide Core;
    CoreSpan(h, s);
    SplitCore(h, s, n);
    SetKindCore(Split(h, s, n), s + n, Raw);
  }

  lemma ShrinkTags(h: Heap, pg: seq<Page>, s: nat, n: nat)
    requires Core(h) && Tagged(pg, h.spans, h.nr) && s in h.spans && h.spans[s].kind.Large? && 0 < n < h.spans[s].len
    requires s + n <= |pg| && Core(Split(h, s, n))
    ensures Tagged(WithTags(pg, s, n, false), TailRaw(h, s, n).spans, h.nr)
    ensures PoolFrame(pg, WithTags(pg, s, n, false), h.spans, TailRaw(h, s, n).spans)
  {
    hide Core, TagsAt, WithTags, PoolFrame, SpansDisjoint;
    WithTagsFrame(pg, s, n, false, h.spans, TailRaw(h, s, n).spans);
    CoreSpan(h, s);
    SetKindCore(Split(h, s, n), s + n, Raw);
    CoreSpan(TailRaw(h, s, n), s);
    KindByPool(pg, h.spans, h.nr, s);
    WithTagsAt(pg, s, n, false);
    forall x | x in TailRaw(h, s, n).spans
      ensures TagsAt(WithTags(pg, s, n, false), x, TailRaw(h, s, n).spans[x])
    {
      if x == s {
        WithTagsOwn(pg, s, n, Large);
      } else if x == s + n {
        RawAt(WithTags(pg, s, n, false), x, h.spans[s].len - n);
      } else {
        WithTagsElsewhere(pg, TailRaw(h, s, n).spans, h.nr, s, false, x);
      }
    }
  }

  lemma ShrinkFrame(pg: seq<Page>, pg1: seq<Page>, pg2: seq<Page>, m: map<nat, Span>, m1: map<nat, Span>,
                    m2: map<nat, Span>)
    requires PoolFrame(pg, pg1, m, m1) && NoNewFree(m, m1) && PoolFrame(pg1, pg2, m1, m2)
    ensures PoolFrame(pg, pg2, m, m2)
  {
    FrameTrans(pg, pg1, pg2, m, m1, m2);
  }

  /** What the new array holds: the old page structures, garbage for the new pages, a sentinel. */
  function Copied(pg: seq<Page>, oldNr: nat, garbage: seq<Page>): seq<Page>
    requires oldNr <= |pg| && oldNr < |garbage|
  {
    var n := |garbage| - 1;
    pg[..oldNr] + garbage[oldNr..n] + [garbage[n].(free := false)]
  }

  lemma GrowIs(h: Heap, nr: u32)
    requires FullInv(h) && (h.nr > 0 || nr == 0)
    ensures nr <= h.nr ==> Grow(h, nr) == (h, true)
    ensures nr > h.nr ==> 1 <= ArrayPages(nr) <= 0x8000_0000
    ensures nr > h.nr && 1 <= ArrayPages(nr) <= 0x8000_0000 && !AllocLarge(h, ArrayPages(nr)).1.At? ==>
              Grow(h, nr) == (AllocLarge(h, ArrayPages(nr)).0, false)
    ensures nr > h.nr && 1 <= ArrayPages(nr) <= 0x8000_0000 && AllocLarge(h, ArrayPages(nr)).1.At? ==>
              var (h1, got) := AllocLarge(h, ArrayPages(nr));
              Movable(h1, got.page, nr) && Grow(h, nr) == (Moved(h1, got.page, nr), true)
  {
    hide FullInv, AllocLarge, ArrayPages, Moved;
    ArrayPagesFit(nr);
    if nr > h.nr && AllocLarge(h, ArrayPages(nr)).1.At? { GrowMovable(h, nr); }
  }

  lemma RelocatedIs(h: Heap, pg: seq<Page>, p: nat, nr: u32)
    requires Movable(h, p, nr) && (h.nr > 0 ==> Tagged(pg, h.spans, h.nr))
    ensures p in h.spans && 0 < h.nr < nr
    ensures var r := Relocated(h, p, nr);
            && |pg| == h.nr + 1 && Core(h) && Core(r)
            && r == Heap(nr, r.spans, h.lists, h.nrFree, p)
            && r.spans == h.spans[p := Span(ArrayPages(nr), Reserved)][h.nr := Span(nr - h.nr, Raw)]
  {
    hide Core, FullInv, ArrayPages, CountOk, NoAdjacent, FreePages, Used;
    Unpack(h);
    RelocatedOk(h, p, nr);
    MidCore(Relocated(h, p, nr));
  }

  lemma MidCore(h: Heap)
    requires Mid(h)
    ensures Core(h)
  {
  }

  lemma CopiedAt(pg: seq<Page>, oldNr: nat, garbage: seq<Page>)
    requires oldNr <= |pg| && oldNr < |garbage|
    ensures var c := Copied(pg, oldNr, garbage);
            && |c| == |garbage| && (forall i :: 0 <= i < oldNr ==> c[i] == pg[i]) && !c[|c| - 1].free
  {
  }

  /** Every span of the old pool lies inside the copied part, so its tags survive. */
  lemma CopiedTagged(h: Heap, pg: seq<Page>, garbage: seq<Page>, p: nat, nr: u32)
    requires Movable(h, p, nr) && Tagged(pg, h.spans, h.nr) && |garbage| == nr + 1 && |pg| == h.nr + 1
    ensures Tagged(Copied(pg, h.nr, garbage), Relocated(h, p, nr).spans, nr)
  {
    hide Core, FullInv, ArrayPages, TagsAt, Copied, Relocated, Tagged;
    RelocatedIs(h, pg, p, nr);
    CopiedAt(pg, h.nr, garbage);
    CoreSpan(h, p);
    var c, m' := Copied(pg, h.nr, garbage), Relocated(h, p, nr).spans;
    forall x | x in m'
      ensures TagsAt(c, x, m'[x])
    {
      if x == h.nr {
        RawAt(c, x, nr - h.nr);
      } else {
        TaggedAt(pg, h.spans, h.nr, x);
        CoreSpan(h, x);
        CopiedTagsAt(pg, c, x, h.spans[x], x == p);
      }
    }
    TaggedFrom(c, m', nr);
  }

  lemma TaggedAt(pg: seq<Page>, m: map<nat, Span>, nr: nat, x: nat)
    requires Tagged(pg, m, nr) && x in m
    ensures TagsAt(pg, x, m[x])
  {
  }

  lemma TaggedFrom(pg: seq<Page>, m: map<nat, Span>, nr: nat)
    requires |pg| == nr + 1 && !pg[nr].free && forall x :: x in m ==> TagsAt(pg, x, m[x])
    ensures Tagged(pg, m, nr)
  {
  }

  lemma CopiedTagsAt(pg: seq<Page>, c: seq<Page>, x: nat, sp: Span, reserve: bool)
    requires TagsAt(pg, x, sp) && (reserve ==> sp.kind.Large?)
    requires x + sp.len <= |c| && x + sp.len <= |pg| && forall i :: x <= i < x + sp.len ==> c[i] == pg[i]
    ensures TagsAt(c, x, if reserve then Span(sp.len, Reserved) else sp)
  {
  }

  /** Links are indices, so the free lists survive the move of the array. */
  lemma CopiedWoven(ls: seq<PageList>, was: array<Page>, now: array<Page>, h: Heap, garbage: seq<Page>)
    requires Woven(ls, was) && h.lists == ContentsOf(ls) && Core(h)
    requires was.Length == h.nr + 1 && h.nr < |garbage| && now[..] == Copied(was[..], h.nr, garbage)
    ensures Woven(ls, now)
  {
    hide Core, NoDup, Copied, Threaded, Prevs, Nexts;
    forall j | 0 <= j < |ls|
      ensures ls[j].Linked(now)
    {
      CopiedLinked(ls[j], was, now, h, j, garbage);
    }
  }

  lemma CopiedLinked(l: PageList, was: array<Page>, now: array<Page>, h: Heap, j: nat, garbage: seq<Page>)
    requires l.Linked(was) && Core(h) && j < |h.lists| && l.contents == h.lists[j]
    requires was.Length == h.nr + 1 && h.nr < |garbage| && now[..] == Copied(was[..], h.nr, garbage)
    ensures l.Linked(now)
  {
    hide NoDup, Copied, ThreadAt, Tiled;
    CopiedAt(was[..], h.nr, garbage);
    var c, pg, pg' := l.contents, was[..], now[..];
    forall k | 0 <= k < |c|
      ensures ThreadAt(Prevs(pg'), Nexts(pg'), c, k)
    {
      assert c[k] in h.lists[j];
      assert IsFree(h.spans, c[k]);
      CoreSpan(h, c[k]);
      ThreadMoved(pg, pg', c, k);
    }
  }

  lemma ThreadMoved(pg: seq<Page>, pg': seq<Page>, c: seq<nat>, k: nat)
    requires ThreadAt(Prevs(pg), Nexts(pg), c, k) && k < |c| && c[k] < |pg| && c[k] < |pg'| && pg'[c[k]] == pg[c[k]]
    ensures ThreadAt(Prevs(pg'), Nexts(pg'), c, k)
  {
  }

  // ---------------------------------------------------------------- what growing leaves alone

  ghost predicate ClientAt(m: map<nat, Span>, i: nat) {
    i in m && (m[i].kind.Large? || m[i].kind.Small?)
  }

  /** The n pages of the old pool keep their small-pool fields, and those heading a live span their
      links; only page r, the head of the new array, leaves its pool. */
  ghost predicate GrowFrame(pg: seq<Page>, pg': seq<Page>, m: map<nat, Span>, n: nat, r: nat) {
    && n <= |pg| && n <= |pg'|
    && forall i :: 0 <= i < n ==>
         && SmallFieldsAt(if i == r then pg[i].(pool := 0) else pg[i], pg'[i])
         && (ClientAt(m, i) ==> pg'[i].prev == pg[i].prev && pg'[i].next == pg[i].next)
  }

  ghost predicate ClientsNotFree(m: map<nat, Span>, m1: map<nat, Span>) {
    forall i: nat :: ClientAt(m, i) ==> !IsFree(m1, i)
  }

  lemma GrowFrameStart(pg: seq<Page>, pg1: seq<Page>, pg2: seq<Page>, m: map<nat, Span>, m1: map<nat, Span>, n: nat,
                       r: nat)
    requires r < |pg| && r < |pg1| && PoolFrameBut(pg, pg1, m, m1, r) && ClientsNotFree(m, m1)
    requires n <= |pg| && n <= |pg2| && forall i :: 0 <= i < n ==> pg2[i] == pg1[i]
    ensures GrowFrame(pg, pg2, m, n, r)
  {
  }

  lemma GrowFrameStep(pg: seq<Page>, pg1: seq<Page>, pg2: seq<Page>, m: map<nat, Span>, m1: map<nat, Span>,
                      m2: map<nat, Span>, n: nat, r: nat)
    requires GrowFrame(pg, pg1, m, n, r) && PoolFrame(pg1, pg2, m1, m2) && ClientsNotFree(m, m1)
             && ClientsNotFree(m, m2)
    ensures GrowFrame(pg, pg2, m, n, r)
  {
  }

  /** A span in use is in use at every stage of a relocation. */
  lemma ClientsCarved(h: Heap, h1: Heap, p: nat, nr: u32)
    requires Movable(h1, p, nr) && Carved(h, h1, p, ArrayPages(nr))
    ensures ClientsNotFree(h.spans, h1.spans)
    ensures forall i: nat :: ClientAt(h.spans, i) ==> i in Used(h1.spans) && i != p && i != h1.arr && i != h1.nr
  {
    hide Core, CountOk, NoAdjacent, FreePages, ArrayPages;
    Unpack(h1);
    forall i: nat | ClientAt(h.spans, i)
      ensures !IsFree(h1.spans, i) && i in Used(h1.spans) && i != p && i != h1.arr && i != h1.nr
    {
      UsedHas(h.spans, i);
      UsedOnly(h1.spans, i);
      CoreSpan(h1, i);
    }
  }

  lemma ClientsMoved(h: Heap, h1: Heap, p: nat, nr: u32)
    requires Movable(h1, p, nr) && Carved(h, h1, p, ArrayPages(nr))
    ensures h1.arr in Relocated(h1, p, nr).spans && (h1.arr == 0 ==> Relocated(h1, p, nr).spans[0].len >= 2)
    ensures ClientsNotFree(h.spans, Relocated(h1, p, nr).spans)
    ensures ClientsNotFree(h.spans, ReturnArray(Relocated(h1, p, nr), h1.arr).spans)
    ensures ClientsNotFree(h.spans, Moved(h1, p, nr).spans)
  {
    hide *;
    ReturnReady(h1, p, nr);
    MovedHalf(h1, p, nr);
    MovedOk(h1, p, nr);
    RelocatedUsed(h1, p, nr);
    ClientsCarved(h, h1, p, nr);
    GrownUsed(h1, Moved(h1, p, nr), p, nr);
    StillUsed(h.spans, h1, p, nr, Moved(h1, p, nr).spans, ReturnArray(Relocated(h1, p, nr), h1.arr).spans,
              Relocated(h1, p, nr).spans);
  }

  lemma RelocatedUsed(h: Heap, p: nat, nr: nat)
    requires Movable(h, p, nr)
    ensures p in h.spans && 0 < h.nr < nr < 0x1_0000_0000 && p != h.nr
    ensures Used(Relocated(h, p, nr).spans)
            == Used(h.spans)[p := Span(ArrayPages(nr), Reserved)][h.nr := Span(nr - h.nr, Raw)]
  {
    hide Core, CountOk, NoAdjacent, FreePages, Used, ArrayPages, Settled, Relocated;
    Unpack(h);
    CoreSpan(h, p);
    RelocatedOk(h, p, nr);
  }

  lemma GrownUsed(h: Heap, h': Heap, p: nat, nr: u32)
    requires h.nr < nr && Grown(h, h', p, nr)
    ensures Used(h'.spans) == MovedUsed(h, p, nr)
  {
    hide Used, MovedUsed, FreePages, OldArray;
  }

  lemma StillUsed(m: map<nat, Span>, h1: Heap, p: nat, nr: u32, m4: map<nat, Span>, m3: map<nat, Span>,
                  m2: map<nat, Span>)
    requires h1.nr < nr && p != h1.nr
    requires forall i: nat :: ClientAt(m, i) ==> i in Used(h1.spans) && i != p && i != h1.arr && i != h1.nr
    requires Used(m4) == MovedUsed(h1, p, nr) && Used(m3) == MovedUsed(h1, p, nr)[h1.nr := Span(nr - h1.nr, Raw)]
    requires Used(m2) == Used(h1.spans)[p := Span(ArrayPages(nr), Reserved)][h1.nr := Span(nr - h1.nr, Raw)]
    ensures ClientsNotFree(m, m2) && ClientsNotFree(m, m3) && ClientsNotFree(m, m4)
  {
    hide Used, ArrayPages, IsFree;
    forall i: nat | ClientAt(m, i) ensures !IsFree(m2, i) && !IsFree(m3, i) && !IsFree(m4, i) {
      UsedOnly(m2, i);
      UsedOnly(m3, i);
      UsedOnly(m4, i);
    }
  }

  lemma OutcomeIs(thrown: bool, r: nat)
    ensures Outcome(thrown, r).At? <==> !thrown && r != 0
    ensures Outcome(thrown, r).At? ==> Outcome(thrown, r).page == r
  {
  }

  /** The relocated pool with the pages of the old array, page 0 excepted, as one raw span when
      they were part of the bootstrap span. */
  ghost function Returning(h: Heap, p: nat, nr: u32): Heap
    requires Movable(h, p, nr)
  {
    ReturnReady(h, p, nr);
    var h2 := Relocated(h, p, nr);
    if h.arr == 0 then TailRaw(h2, 0, 1) else h2
  }

  lemma OnlyNewRaw(h: Heap, pg: seq<Page>, p: nat, nr: u32)
    requires Movable(h, p, nr) && Tagged(pg, Relocated(h, p, nr).spans, nr)
    ensures forall x :: x in Relocated(h, p, nr).spans && Relocated(h, p, nr).spans[x].kind.Raw? ==> x == h.nr
  {
    hide Core, Tagged, ArrayPages, CountOk, NoAdjacent;
    Unpack(h);
  }

  /** The release of the old array reads only accurate tags: nothing behind it is raw, because the
      page behind it is a page of the old pool. */
  lemma ReturnPlan(h: Heap, pg: seq<Page>, p: nat, nr: u32)
    requires Movable(h, p, nr) && Tagged(pg, Relocated(h, p, nr).spans, nr) && Core(Relocated(h, p, nr))
    ensures var hr, h2 := Returning(h, p, nr), Relocated(h, p, nr);
            var o, n := if h.arr == 0 then 1 else h.arr, if h.arr == 0 then ArrayPages(h.nr) - 1 else ArrayPages(h.nr);
            && 1 <= n < 0x1_0000_0000 && (h.arr == 0 ==> ArrayPages(h.nr) >= 2)
            && Core(hr) && hr == Heap(nr, hr.spans, h2.lists, h2.nrFree, h2.arr) && Tagged(pg, hr.spans, nr)
            && o in hr.spans && hr.spans[o].len == n && !IsFree(hr.spans, o) && NeighboursTagged(hr.spans, o)
            && h.arr in h2.spans && (h.arr == 0 ==> h2.spans[0].len >= 2)
            && PageOps.FreeSpan(hr, o) == ReturnArray(h2, h.arr)
  {
    hide Core, Tagged, ArrayPages, FullInv, Relocated, Movable, ReturnArray, PageOps.FreeSpan, TailRaw, IsFree,
         NeighboursTagged;
    MovableShape(h, p, nr);
    ArrayInside(h, p, nr);
    ReturnReady(h, p, nr);
    OnlyNewRaw(h, pg, p, nr);
    var h2 := Relocated(h, p, nr);
    CoreSpan(h2, h.arr);
    ReturnArrayIs(h2, h.arr);
    if h.arr == 0 {
      ReturnFirstPlan(h2, pg, h.nr);
    } else {
      ReturnSpanPlan(h2, h.arr, h.nr);
    }
  }

  lemma MovableShape(h: Heap, p: nat, nr: nat)
    requires Movable(h, p, nr)
    ensures p in h.spans && 0 < h.nr < nr < 0x1_0000_0000
    ensures Relocated(h, p, nr).nr == nr && Relocated(h, p, nr).arr == p
  {
  }

  lemma ArrayInside(h: Heap, p: nat, nr: nat)
    requires Movable(h, p, nr)
    ensures h.arr + ArrayPages(h.nr) < h.nr
  {
    hide Core, CountOk, NoAdjacent, ArrayPages;
    Unpack(h);
  }

  lemma ReturnArrayIs(h: Heap, oldArr: nat)
    requires oldArr in h.spans && (oldArr == 0 ==> h.spans[0].len >= 2)
    ensures oldArr == 0 ==> 1 in Split(h, 0, 1).spans && ReturnArray(h, 0) == PageOps.FreeSpan(Split(h, 0, 1), 1)
    ensures oldArr != 0 ==> ReturnArray(h, oldArr) == PageOps.FreeSpan(h, oldArr)
  {
  }

  lemma ReturnSpanPlan(h: Heap, o: nat, raw: nat)
    requires Core(h) && o in h.spans && h.spans[o].kind.Reserved? && o + h.spans[o].len < raw
    requires forall x :: x in h.spans && h.spans[x].kind.Raw? ==> x == raw
    ensures !IsFree(h.spans, o) && NeighboursTagged(h.spans, o)
  {
    hide Core;
  }

  lemma ReturnFirstPlan(h: Heap, pg: seq<Page>, raw: nat)
    requires Core(h) && 0 in h.spans && h.spans[0].kind.Reserved? && 2 <= h.spans[0].len < raw
             && Tagged(pg, h.spans, h.nr) && h.nr > 0
    requires forall x :: x in h.spans && h.spans[x].kind.Raw? ==> x == raw
    ensures var hr := TailRaw(h, 0, 1);
            && Core(hr) && hr == Heap(h.nr, hr.spans, h.lists, h.nrFree, h.arr) && Tagged(pg, hr.spans, h.nr)
            && 1 in hr.spans && hr.spans[1] == Span(h.spans[0].len - 1, Raw)
            && !IsFree(hr.spans, 1) && NeighboursTagged(hr.spans, 1)
            && 1 in Split(h, 0, 1).spans && PageOps.FreeSpan(hr, 1) == PageOps.FreeSpan(Split(h, 0, 1), 1)
  {
    hide Core, PageOps.FreeSpan;
    CoreSpan(h, 0);
    SplitCore(h, 0, 1);
    SetKindCore(Split(h, 0, 1), 1, Raw);
    FreeSpanAnyKind(Split(h, 0, 1), 1);
    assert TagsAt(pg, 0, h.spans[0]);
  }

  /** The release of the new pages: the page in front is tagged, the page behind is the sentinel. */
  lemma ReleaseNewPlan(h: Heap, p: nat, nr: u32)
    requires Movable(h, p, nr)
    ensures h.arr in Relocated(h, p, nr).spans && (h.arr == 0 ==> Relocated(h, p, nr).spans[0].len >= 2)
    ensures var h3 := ReturnArray(Relocated(h, p, nr), h.arr);
            && h.nr != 0 && h.nr < nr && h.nr in h3.spans && h3.spans[h.nr] == Span(nr - h.nr, Raw)
               && !IsFree(h3.spans, h.nr)
            && NeighboursTagged(h3.spans, h.nr)
            && Moved(h, p, nr) == PageOps.FreeSpan(h3, h.nr)
  {
    hide Core, ArrayPages, FullInv, Relocated, ReturnArray, PageOps.FreeSpan, CountOk, NoAdjacent, FreePages, Used,
         MovedUsed, Mid, OldArray, NeighboursTagged;
    MovedReady(h, p, nr);
    MovedHalf(h, p, nr);
    MovedSettled(h, p, nr);
    var h3 := ReturnArray(Relocated(h, p, nr), h.arr);
    RawOnly(h3.spans, MovedUsed(h, p, nr), h.nr, Span(nr - h.nr, Raw));
    LastTagged(h3.spans, h.nr);
  }

  lemma RawOnly(m: map<nat, Span>, u: map<nat, Span>, x: nat, sp: Span)
    requires Used(m) == u[x := sp] && Settled(u)
    ensures forall y :: y in m && m[y].kind.Raw? ==> y == x
  {
    forall y | y in m && m[y].kind.Raw?
      ensures y == x
    {
      assert y in Used(m) && Used(m)[y] == m[y];
    }
  }

  lemma LastTagged(m: map<nat, Span>, x: nat)
    requires x in m && m[x].len >= 1 && forall y :: y in m && m[y].kind.Raw? ==> y == x
    ensures NeighboursTagged(m, x)
  {
  }

  /** The tag of page t says exactly whether a free span begins there, and how long it is. */
  ghost predicate TagTrue(pg: seq<Page>, m: map<nat, Span>, t: nat) {
    t < |pg| && (pg[t].free <==> IsFree(m, t)) && (pg[t].free ==> pg[t].spanSize == m[t].len)
  }

  /** When the array is relocated, the tag read behind the old array can be trusted whatever the
      new memory held: it is a page of the old pool, so the copy has written it. */
  lemma RelocationReadsTrueTag(h: Heap, pg: seq<Page>, garbage: seq<Page>)
    requires FullInv(h) && 0 < h.nr < |garbage| && Tagged(pg, h.spans, h.nr) && |pg| == h.nr + 1
    ensures TagTrue(Copied(pg, h.nr, garbage), h.spans, h.arr + ArrayPages(h.nr))
  {
    hide Core, ArrayPages, Copied, Tagged, CountOk, NoAdjacent;
    Unpack(h);
    AfterTagHere(h, pg);
    CopiedAt(pg, h.nr, garbage);
  }

  lemma AfterTagHere(h: Heap, pg: seq<Page>)
    requires FullInv(h) && h.nr > 0 && Tagged(pg, h.spans, h.nr)
    ensures TagTrue(pg, h.spans, h.arr + ArrayPages(h.nr))
  {
    hide Core, ArrayPages, Tagged, CountOk, NoAdjacent;
    Unpack(h);
    CoreTiled(h);
    AfterTag(pg, h.spans, h.nr, h.arr);
  }

  lemma ResizeStart(h: Heap, h1: Heap, pg: seq<Page>, pg1: seq<Page>, pg2: seq<Page>, garbage: seq<Page>, p: nat,
                    nr: u32)
    requires Movable(h1, p, nr) && Carved(h, h1, p, ArrayPages(nr)) && |pg| == |pg1| == h1.nr + 1 && |garbage| == nr + 1
    requires p < |pg| && PoolFrameBut(pg, pg1, h.spans, h1.spans, p) && h1.nr < nr && pg2 == Copied(pg1, h1.nr, garbage)
    ensures GrowFrame(pg, pg2, h.spans, h1.nr, p)
  {
    hide *;
    CopiedAt(pg1, h1.nr, garbage);
    ClientsCarved(h, h1, p, nr);
    GrowFrameStart(pg, pg1, pg2, h.spans, h1.spans, h1.nr, p);
  }

  lemma ResizeFrame(h: Heap, h1: Heap, pg: seq<Page>, pg2: seq<Page>, pg3: seq<Page>, pg4: seq<Page>, p: nat, nr: u32)
    requires Movable(h1, p, nr) && Carved(h, h1, p, ArrayPages(nr)) && GrowFrame(pg, pg2, h.spans, h1.nr, p)
    requires h1.arr in Relocated(h1, p, nr).spans && (h1.arr == 0 ==> Relocated(h1, p, nr).spans[0].len >= 2)
    requires PoolFrame(pg2, pg3, Returning(h1, p, nr).spans, ReturnArray(Relocated(h1, p, nr), h1.arr).spans)
    requires PoolFrame(pg3, pg4, ReturnArray(Relocated(h1, p, nr), h1.arr).spans, Moved(h1, p, nr).spans)
    ensures GrowFrame(pg, pg4, h.spans, h1.nr, p)
  {
    hide *;
    RelocatedUsed(h1, p, nr);
    ClientsMoved(h, h1, p, nr);
    ReturningClients(h, h1, p, nr);
    GrowFrameStep(pg, pg2, pg3, h.spans, Returning(h1, p, nr).spans, ReturnArray(Relocated(h1, p, nr), h1.arr).spans,
                  h1.nr, p);
    GrowFrameStep(pg, pg3, pg4, h.spans, ReturnArray(Relocated(h1, p, nr), h1.arr).spans, Moved(h1, p, nr).spans, h1.nr,
                  p);
  }

  lemma ReturningClients(h: Heap, h1: Heap, p: nat, nr: u32)
    requires Movable(h1, p, nr) && ClientsNotFree(h.spans, Relocated(h1, p, nr).spans)
    ensures ClientsNotFree(h.spans, Returning(h1, p, nr).spans)
  {
    hide Core, FullInv, ArrayPages, Relocated, Movable;
    ReturnReady(h1, p, nr);
  }
}
