/** Boundary tags and list links as values: what the page structures promise about the spans of
    the pool, what each write to them keeps, and what the tags around a span tell free_span. */
module PageTags {
  import opened Bits
  import opened FreeChains
  import opened PageModel
  import opened PageOps
  import opened PageRuns
  import opened PageLists

  // ---------------------------------------------------------------- tags

  /** What the page structures promise about a span: only head and tail pages carry tags. The
      interior may hold anything a previous owner left there, except that every page of a
      small-pool span names its pool and its place in the span. */
  ghost predicate TagsAt(pg: seq<Page>, s: nat, sp: Span) {
    var e := s + sp.len - 1;
    && 1 <= sp.len && e < |pg|
    && match sp.kind
       case Free => pg[s].free && pg[e].free && pg[s].spanSize == pg[e].spanSize == sp.len
       case Large => !pg[s].free && !pg[e].free && pg[s].spanSize == pg[e].spanSize == sp.len && pg[s].pool == 0
       case Small(p) => !pg[s].free && !pg[e].free && pg[s].spanSize == pg[e].spanSize == sp.len && p != 0
                        && forall i :: s <= i < s + sp.len ==> pg[i].pool == p && pg[i].offsetInSpan == i - s
       case Reserved => !pg[s].free && !pg[e].free
       case Raw => true
  }

  /** One past the last page stands a sentinel that is never free. */
  ghost predicate Tagged(pg: seq<Page>, m: map<nat, Span>, nr: nat) {
    && |pg| == nr + 1 && !pg[nr].free
    && forall s :: s in m ==> TagsAt(pg, s, m[s])
  }

  ghost predicate SameTags(pg: seq<Page>, pg': seq<Page>) {
    |pg'| == |pg| && forall i :: 0 <= i < |pg| ==> Unlinked(pg'[i]) == Unlinked(pg[i])
  }

  lemma RelinkedTags(pg: seq<Page>, pg': seq<Page>, m: map<nat, Span>, nr: nat, c: seq<nat>)
    requires Tagged(pg, m, nr) && RelinkedWithin(pg, pg', c)
    ensures Tagged(pg', m, nr)
  {
    forall s | s in m
      ensures TagsAt(pg', s, m[s])
    {
      RelinkedTagsAt(pg, pg', s, m[s], c);
    }
    assert Unlinked(pg'[nr]) == Unlinked(pg[nr]);
  }

  lemma RelinkedSame(pg: seq<Page>, pg': seq<Page>, c: seq<nat>)
    requires RelinkedWithin(pg, pg', c)
    ensures SameTags(pg, pg')
  {
  }

  lemma RelinkedTagsAt(pg: seq<Page>, pg': seq<Page>, s: nat, sp: Span, c: seq<nat>)
    requires TagsAt(pg, s, sp) && RelinkedWithin(pg, pg', c)
    ensures TagsAt(pg', s, sp)
  {
    forall i | 0 <= i < |pg|
      ensures pg'[i].free == pg[i].free && pg'[i].spanSize == pg[i].spanSize && pg'[i].pool == pg[i].pool
              && pg'[i].offsetInSpan == pg[i].offsetInSpan
    {
      assert Unlinked(pg'[i]) == Unlinked(pg[i]);
    }
  }

  lemma RawTags(pg: seq<Page>, s: nat, sp: Span)
    requires TagsAt(pg, s, sp)
    ensures TagsAt(pg, s, Span(sp.len, Raw))
  {
  }

  /** Write the tags of a span of n pages at s. */
  function WithTags(pg: seq<Page>, s: nat, n: nat, free: bool): seq<Page>
    requires 1 <= n && s + n <= |pg|
  {
    var e := s + n - 1;
    var p1 := pg[e := pg[e].(free := free, spanSize := n)];
    p1[s := p1[s].(free := free, spanSize := n)]
  }

  ghost predicate TagFieldsOnly(p: Page, q: Page) {
    q == p.(free := q.free, spanSize := q.spanSize)
  }

  lemma WithTagsAt(pg: seq<Page>, s: nat, n: nat, free: bool)
    requires 1 <= n && s + n <= |pg|
    ensures var r, e := WithTags(pg, s, n, free), s + n - 1;
            && |r| == |pg|
            && (forall i :: 0 <= i < |pg| && i != s && i != e ==> r[i] == pg[i])
            && TagFieldsOnly(pg[s], r[s]) && TagFieldsOnly(pg[e], r[e])
            && r[s].free == r[e].free == free && r[s].spanSize == r[e].spanSize == n
  {
  }

  /** Tagging a span touches no tag of any other span. */
  lemma WithTagsElsewhere(pg: seq<Page>, m: map<nat, Span>, nr: nat, s: nat, free: bool, x: nat)
    requires SpansInside(m, nr) && SpansDisjoint(m) && |pg| == nr + 1 && s in m && x in m && x != s
    requires TagsAt(pg, x, m[x])
    ensures TagsAt(WithTags(pg, s, m[s].len, free), x, m[x])
  {
    WithTagsAt(pg, s, m[s].len, free);
    hide WithTags, TagFieldsOnly;
    var r := WithTags(pg, s, m[s].len, free);
    assert forall i :: x <= i < x + m[x].len ==> r[i] == pg[i];
  }

  lemma WithTagsTagged(pg: seq<Page>, m: map<nat, Span>, nr: nat, s: nat, k: Kind)
    requires SpansInside(m, nr) && SpansDisjoint(m) && Tagged(pg, m, nr) && s in m
    requires k.Free? || (k.Large? && pg[s].pool == 0)
    ensures Tagged(WithTags(pg, s, m[s].len, k.Free?), m[s := Span(m[s].len, k)], nr)
  {
    hide TagsAt;
    var r, m' := WithTags(pg, s, m[s].len, k.Free?), m[s := Span(m[s].len, k)];
    WithTagsAt(pg, s, m[s].len, k.Free?);
    WithTagsOwn(pg, s, m[s].len, k);
    hide WithTags;
    forall x | x in m'
      ensures TagsAt(r, x, m'[x])
    {
      if x != s { WithTagsElsewhere(pg, m, nr, s, k.Free?, x); }
    }
  }

  lemma WithTagsOwn(pg: seq<Page>, s: nat, n: nat, k: Kind)
    requires 1 <= n && s + n <= |pg| && (k.Free? || (k.Large? && pg[s].pool == 0))
    ensures TagsAt(WithTags(pg, s, n, k.Free?), s, Span(n, k))
  {
    WithTagsAt(pg, s, n, k.Free?);
  }

  lemma WithTagsFrame(pg: seq<Page>, s: nat, n: nat, free: bool, m: map<nat, Span>, m': map<nat, Span>)
    requires 1 <= n && s + n <= |pg|
    ensures PoolFrame(pg, WithTags(pg, s, n, free), m, m')
  {
    WithTagsAt(pg, s, n, free);
    hide WithTags;
  }

  // ---------------------------------------------------------------- reading neighbours' tags

  /** The tag read in front of a span says whether a free span ends there, and how long it is;
      an interior tag is never what is read. */
  lemma BeforeTag(pg: seq<Page>, m: map<nat, Span>, nr: nat, s: nat)
    requires Tiled(m, nr) && Tagged(pg, m, nr) && s in m && s > 0 && !IsFree(m, s)
    requires forall x :: x in m && x + m[x].len == s ==> !m[x].kind.Raw?
    ensures pg[s - 1].free <==> FreeBefore(m, s) != s
    ensures FreeBefore(m, s) <= s
    ensures pg[s - 1].free ==> pg[s - 1].spanSize == s - FreeBefore(m, s) > 0
  {
    hide TagsAt;
    FreeBeforeAtMost(m, nr, s);
    assert Covered(m, s - 1);
    var x: nat :| Covers(m, x, s - 1);
    assert x + m[x].len == s;
    TailTag(pg, x, m[x]);
    var p := FreeBefore(m, s);
    if p != s { EndUnique(m, p, x); }
  }

  lemma TailTag(pg: seq<Page>, x: nat, sp: Span)
    requires TagsAt(pg, x, sp) && !sp.kind.Raw?
    ensures var e := x + sp.len - 1;
            && 0 <= e < |pg| && x < |pg|
            && (pg[e].free <==> sp.kind.Free?) && (pg[x].free <==> sp.kind.Free?)
            && (sp.kind.Free? ==> pg[e].spanSize == pg[x].spanSize == sp.len)
  {
  }

  /** The tag read behind a span says whether a free span begins there; at the end of the pool
      the sentinel is read. */
  lemma AfterTag(pg: seq<Page>, m: map<nat, Span>, nr: nat, s: nat)
    requires Tiled(m, nr) && Tagged(pg, m, nr) && s in m
    requires s + m[s].len in m ==> !m[s + m[s].len].kind.Raw?
    ensures var t := s + m[s].len;
            && t < |pg| && (pg[t].free <==> IsFree(m, t)) && (pg[t].free ==> pg[t].spanSize == m[t].len)
  {
    hide TagsAt;
    var t := s + m[s].len;
    if t < nr {
      assert Covered(m, t);
      var x: nat :| Covers(m, x, t);
      assert x == t;
      TailTag(pg, x, m[x]);
    }
  }

  // ---------------------------------------------------------------- frames

  /** Fields of the page structure that belong to the small pools. */
  ghost predicate SmallFieldsAt(p: Page, q: Page) {
    p.offsetInSpan == q.offsetInSpan && p.nrSmallAlloc == q.nrSmallAlloc && p.freelist == q.freelist && p.pool == q.pool
  }

  /** The page allocator leaves the small-pool fields of every page alone, and the links of every
      page that heads no free span before or after. */
  ghost predicate PoolFrame(pg: seq<Page>, pg': seq<Page>, m: map<nat, Span>, m': map<nat, Span>) {
    && |pg'| == |pg|
    && forall i :: 0 <= i < |pg| ==>
         && SmallFieldsAt(pg[i], pg'[i])
         && (!IsFree(m, i) && !IsFree(m', i) ==> pg'[i].prev == pg[i].prev && pg'[i].next == pg[i].next)
  }

  ghost predicate AllFree(m: map<nat, Span>, c: seq<nat>) {
    forall x :: x in c ==> IsFree(m, x)
  }

  lemma RelinkedFrame(pg: seq<Page>, pg': seq<Page>, m: map<nat, Span>, m': map<nat, Span>, c: seq<nat>)
    requires RelinkedWithin(pg, pg', c) && forall x :: x in c ==> IsFree(m, x) || IsFree(m', x)
    ensures PoolFrame(pg, pg', m, m')
  {
    forall i | 0 <= i < |pg|
      ensures SmallFieldsAt(pg[i], pg'[i])
      ensures !IsFree(m, i) && !IsFree(m', i) ==> pg'[i].prev == pg[i].prev && pg'[i].next == pg[i].next
    {
      assert Unlinked(pg'[i]) == Unlinked(pg[i]);
    }
  }

  lemma FrameTrans(pg0: seq<Page>, pg1: seq<Page>, pg2: seq<Page>, m0: map<nat, Span>, m1: map<nat, Span>,
                   m2: map<nat, Span>)
    requires PoolFrame(pg0, pg1, m0, m1) && PoolFrame(pg1, pg2, m1, m2)
    requires forall s: nat :: IsFree(m1, s) ==> IsFree(m0, s) || IsFree(m2, s)
    ensures PoolFrame(pg0, pg2, m0, m2)
  {
  }

  // ---------------------------------------------------------------- lists

  ghost function ContentsOf(ls: seq<PageList>): (r: seq<seq<nat>>)
    reads ls
    ensures |r| == |ls| && forall j :: 0 <= j < |ls| ==> r[j] == ls[j].contents
  {
    seq(|ls|, j requires 0 <= j < |ls| reads ls => ls[j].contents)
  }

  ghost predicate AllLinked(ls: seq<PageList>, ary: array<Page>)
    reads ls, ary
  {
    forall j :: 0 <= j < |ls| ==> ls[j].Linked(ary)
  }

  ghost predicate Distinct32(ls: seq<PageList>) {
    && |ls| == NR_SPAN_LISTS
    && forall i, j :: 0 <= i < j < |ls| ==> ls[i] != ls[j]
  }

  /** The lists are threaded through the page array and no page is on two of them. */
  ghost predicate Woven(ls: seq<PageList>, ary: array<Page>)
    reads ls, ary
  {
    && Distinct32(ls)
    && AllLinked(ls, ary)
    && forall i, j, x :: 0 <= i < |ls| && 0 <= j < |ls| && i != j && x in ls[i].contents ==> x !in ls[j].contents
  }

  lemma ListsApart(m: map<nat, Span>, lists: seq<seq<nat>>, i: nat, j: nat)
    requires ListsOk(m, lists) && i < |lists| && j < |lists| && i != j
    ensures forall x :: x in lists[i] ==> x !in lists[j]
  {
    forall x | x in lists[i]
      ensures x !in lists[j]
    {
      assert IsFree(m, x) && FloorLog2(m[x].len) == i;
    }
  }

  /** The spans around s carry tags, so that the neighbours' tags free_span reads are accurate. */
  ghost predicate NeighboursTagged(m: map<nat, Span>, s: nat)
    requires s in m
  {
    && (forall x :: x in m && x + m[x].len == s ==> !m[x].kind.Raw?)
    && (s + m[s].len in m ==> !m[s + m[s].len].kind.Raw?)
  }

  ghost predicate NoNewFree(m: map<nat, Span>, m': map<nat, Span>) {
    forall s: nat :: IsFree(m', s) ==> IsFree(m, s)
  }

  lemma NoNewFreeRefl(m: map<nat, Span>)
    ensures NoNewFree(m, m)
  {
  }

  lemma JoinedFree(m: map<nat, Span>, p: nat, a: Span, s: nat, b: Span)
    requires a.kind.Raw? && b.kind.Raw?
    ensures NoNewFree(m, (m[p := a] - {s})[p := b])
    ensures forall t :: t in (m[p := a] - {s})[p := b] && t != p ==> t in m && (m[p := a] - {s})[p := b][t] == m[t]
  {
  }

  lemma JoinedFreeAfter(m: map<nat, Span>, t: nat, a: Span, s: nat, b: Span)
    requires b.kind.Raw?
    ensures NoNewFree(m, (m[t := a] - {t})[s := b])
  {
  }

  lemma AbsorbAfterIs(h: Heap, s: nat)
    requires s in h.spans
    ensures var t, m := s + h.spans[s].len, h.spans;
            && (!IsFree(m, t) ==> AbsorbAfter(h, s) == h)
            && (IsFree(m, t) ==>
                  AbsorbAfter(h, s) ==
                  Heap(h.nr, (m[t := Span(m[t].len, Raw)] - {t})[s := Span(m[s].len + m[t].len, Raw)],
                       Drop(h.lists, t, m[t].len), h.nrFree - m[t].len, h.arr))
  {
    var t := s + h.spans[s].len;
    if IsFree(h.spans, t) { UpdateRemove(h.spans, t, Span(h.spans[t].len, Raw)); }
  }

  lemma AfterPlan(h: Heap, pg: seq<Page>, s: nat)
    requires Core(h) && s != 0 && s in h.spans && h.spans[s].kind.Raw?
    requires h.nr > 0 ==> Tagged(pg, h.spans, h.nr)
    requires s + h.spans[s].len in h.spans ==> !h.spans[s + h.spans[s].len].kind.Raw?
    ensures var t := s + h.spans[s].len;
            && h.nr > 0 && t <= h.nr && |pg| == h.nr + 1 && Core(AbsorbAfter(h, s)) && s < t
            && (pg[t].free <==> IsFree(h.spans, t))
            && (pg[t].free ==> t in h.spans && 1 <= pg[t].spanSize == h.spans[t].len < 0x1_0000_0000
                               && h.spans[s].len + h.spans[t].len < 0x1_0000_0000 && t + h.spans[t].len <= h.nr
                               && 0 <= IndexOf(pg[t].spanSize))
  {
    hide Tagged, Core, TagsAt, Tiled;
    CoreSpan(h, s);
    Unlisted(h);
    AbsorbAfterCore(h, s);
    CoreTiled(h);
    TaggedLength(pg, h.spans, h.nr);
    AfterTag(pg, h.spans, h.nr, s);
    if IsFree(h.spans, s + h.spans[s].len) {
      CoreSpan(h, s + h.spans[s].len);
      IndexInRange(h, s + h.spans[s].len);
    }
  }

  lemma SetRawPlan(h: Heap, pg: seq<Page>, s: nat)
    requires Core(h) && s != 0 && s in h.spans && !IsFree(h.spans, s) && NeighboursTagged(h.spans, s)
    requires h.nr > 0 ==> Tagged(pg, h.spans, h.nr)
    ensures var m := h.spans[s := Span(h.spans[s].len, Raw)];
            && Core(SetKind(h, s, Raw)) && SetKind(h, s, Raw) == Heap(h.nr, m, h.lists, h.nrFree, h.arr)
            && (h.nr > 0 ==> Tagged(pg, m, h.nr))
            && h.spans[s].len >= 1
            && (forall x :: x in m && x + m[x].len == s ==> !m[x].kind.Raw?)
            && (s + m[s].len in m ==> !m[s + m[s].len].kind.Raw?)
            && NoNewFree(h.spans, m)
  {
    hide Core, TagsAt;
    CoreSpan(h, s);
    SetKindCore(h, s, Raw);
    if h.nr > 0 { RawTags(pg, s, h.spans[s]); }
  }

  lemma FreeSpanIs(h: Heap, s: nat)
    requires s in h.spans
    ensures var h1 := SetKind(h, s, Raw);
            && s in h1.spans
            && PageOps.FreeSpan(h, s) == PushFree(AbsorbAfter(AbsorbBefore(h1, s), FreeBefore(h1.spans, s)),
                                                  FreeBefore(h1.spans, s))
  {
  }

  lemma FrameChain(pg: seq<Page>, pg2: seq<Page>, pg3: seq<Page>, pg4: seq<Page>,
                   m: map<nat, Span>, m1: map<nat, Span>, m2: map<nat, Span>, m3: map<nat, Span>, m4: map<nat, Span>)
    requires NoNewFree(m, m1) && NoNewFree(m1, m2) && NoNewFree(m2, m3)
    requires PoolFrame(pg, pg2, m1, m2) && PoolFrame(pg2, pg3, m2, m3) && PoolFrame(pg3, pg4, m3, m4)
    ensures PoolFrame(pg, pg4, m, m4)
  {
    FrameTrans(pg, pg2, pg3, m1, m2, m3);
    FrameTrans(pg, pg3, pg4, m1, m3, m4);
  }

  /** The absorbing step written out, in terms of the pool with p just unlinked. */
  lemma AbsorbBeforeIs(h: Heap, s: nat)
    requires s in h.spans
    ensures FreeBefore(h.spans, s) == s ==> AbsorbBefore(h, s) == h
    ensures var p, m := FreeBefore(h.spans, s), h.spans;
            p != s ==> p in m && m[p].len == s - p
                       && AbsorbBefore(h, s) ==
                          Heap(h.nr, (m[p := Span(s - p, Raw)] - {s})[p := Span(s + m[s].len - p, Raw)],
                               Drop(h.lists, p, s - p), h.nrFree - (s - p), h.arr)
  {
    var p := FreeBefore(h.spans, s);
    if p != s {
      UpdateRemoveUpdate(h.spans, p, Span(s - p, Raw), s, Span(s + h.spans[s].len - p, Raw));
    }
  }

  lemma PushFreeIs(h: Heap, s: nat)
    requires s in h.spans && FloorLog2(h.spans[s].len) < |h.lists|
    ensures var n, j := h.spans[s].len, FloorLog2(h.spans[s].len);
            PushFree(h, s) == Heap(h.nr, h.spans[s := Span(n, Free)], h.lists[j := [s] + h.lists[j]], h.nrFree + n,
                                   h.arr)
  {
  }

  lemma UnlinkPlan(h: Heap, s: nat)
    requires Core(h) && IsFree(h.spans, s)
    ensures var b := h.spans[s].len;
            && h.nr > 0 && 1 <= b < 0x1_0000_0000 && IndexOf(b) == FloorLog2(b) < |h.lists| && s in h.lists[IndexOf(b)]
            && AllFree(h.spans, h.lists[IndexOf(b)]) && Core(Claim(h, s).(nrFree := h.nrFree))
  {
    hide FloorLog2, IndexOf, Tiled, NoDup;
    CoreSpan(h, s);
    Listed(h, s);
    IndexInRange(h, s);
    ClaimCore(h, s);
  }

  lemma DropIs(lists: seq<seq<nat>>, s: nat, b: nat)
    requires FloorLog2(b) < |lists|
    ensures Drop(lists, s, b) == lists[FloorLog2(b) := Without(lists[FloorLog2(b)], s)]
  {
  }

  lemma FrameRefl(pg: seq<Page>, m: map<nat, Span>)
    ensures PoolFrame(pg, pg, m, m)
  {
  }

  /** What the tag in front of a span means for the step free_span is about to take. */
  lemma BeforePlan(h: Heap, pg: seq<Page>, s: nat)
    requires Core(h) && s != 0 && s in h.spans && h.spans[s].kind.Raw?
    requires h.nr > 0 ==> Tagged(pg, h.spans, h.nr)
    requires forall x :: x in h.spans && x + h.spans[x].len == s ==> !h.spans[x].kind.Raw?
    ensures var p := FreeBefore(h.spans, s);
            && h.nr > 0 && s + h.spans[s].len <= h.nr && |pg| == h.nr + 1 && Core(AbsorbBefore(h, s)) && p <= s
               && p != 0
            && (pg[s - 1].free <==> p != s)
            && (p != s ==> IsFree(h.spans, p) && pg[s - 1].spanSize == s - p == h.spans[p].len < 0x1_0000_0000
                           && s + h.spans[s].len - p < 0x1_0000_0000
                           && IndexOf(s - p) == FloorLog2(s - p) < |h.lists| && p in h.lists[FloorLog2(s - p)])
  {
    hide Tagged, Core, TagsAt, FreeBefore, FloorLog2, IndexOf, Tiled;
    CoreSpan(h, s);
    Unlisted(h);
    AbsorbBeforeCore(h, s);
    AbsorbBeforeSpans(h, s);
    CoreTiled(h);
    TaggedLength(pg, h.spans, h.nr);
    BeforeTag(pg, h.spans, h.nr, s);
    var p := FreeBefore(h.spans, s);
    FreeBeforeAtMost(h.spans, h.nr, s);
    if p != s {
      CoreSpan(h, p);
      Listed(h, p);
      IndexInRange(h, p);
    }
  }

  lemma CoreTiled(h: Heap)
    requires Core(h)
    ensures Tiled(h.spans, h.nr)
  {
  }

  lemma TaggedLength(pg: seq<Page>, m: map<nat, Span>, nr: nat)
    requires Tagged(pg, m, nr)
    ensures |pg| == nr + 1
  {
  }

  /** Two raw spans become one raw span at s; no tag is involved. */
  lemma MergeTags(pg: seq<Page>, pg': seq<Page>, m0: map<nat, Span>, m: map<nat, Span>, nr: nat, gone: nat, s: nat,
                  k: nat)
    requires Tagged(pg', m, nr) && PoolFrame(pg, pg', m0, m) && 1 <= k && s + k <= nr
    requires gone in m && m[gone].kind.Raw? && s in m && m[s].kind.Raw?
    ensures var m' := (m - {gone})[s := Span(k, Raw)];
            Tagged(pg', m', nr) && PoolFrame(pg, pg', m0, m')
  {
    hide TagsAt;
    RawAt(pg', s, k);
  }

  lemma RawAt(pg: seq<Page>, s: nat, k: nat)
    requires 1 <= k && s + k <= |pg|
    ensures TagsAt(pg, s, Span(k, Raw))
  {
  }

  lemma PushDone(pg: seq<Page>, pg': seq<Page>, h: Heap, s: nat)
    requires Core(h) && s in h.spans && h.spans[s].kind.Raw? && 1 <= h.spans[s].len && s + h.spans[s].len <= |pg|
    requires FloorLog2(h.spans[s].len) < |h.lists|
    requires Tagged(WithTags(pg, s, h.spans[s].len, true), PushFree(h, s).spans, h.nr)
    requires RelinkedWithin(WithTags(pg, s, h.spans[s].len, true), pg', [s] + h.lists[FloorLog2(h.spans[s].len)])
    ensures Tagged(pg', PushFree(h, s).spans, h.nr) && PoolFrame(pg, pg', h.spans, PushFree(h, s).spans)
  {
    hide Tagged, RelinkedWithin, PoolFrame, Core, WithTags, PushFree, FloorLog2;
    var p1 := WithTags(pg, s, h.spans[s].len, true);
    PushTags(p1, pg', h, s);
    WithTagsFrame(pg, s, h.spans[s].len, true, h.spans, h.spans);
    FrameSame(pg, p1, pg', h.spans, PushFree(h, s).spans);
  }

  lemma FrameSame(pg0: seq<Page>, pg1: seq<Page>, pg2: seq<Page>, m: map<nat, Span>, m': map<nat, Span>)
    requires PoolFrame(pg0, pg1, m, m) && PoolFrame(pg1, pg2, m, m')
    ensures PoolFrame(pg0, pg2, m, m')
  {
    FrameTrans(pg0, pg1, pg2, m, m, m');
  }

  lemma ThreadedRetagged(pg: seq<Page>, s: nat, n: nat, free: bool, front: nat, back: nat, c: seq<nat>)
    requires 1 <= n && s + n <= |pg| && Threaded(Prevs(pg), Nexts(pg), front, back, c)
    ensures Threaded(Prevs(WithTags(pg, s, n, free)), Nexts(WithTags(pg, s, n, free)), front, back, c)
  {
    hide Threaded;
    WithTagsAt(pg, s, n, free);
    hide WithTags;
    var r := WithTags(pg, s, n, free);
    assert Prevs(r) == Prevs(pg);
    assert Nexts(r) == Nexts(pg);
  }

  lemma PushPlan(h: Heap, pg: seq<Page>, s: nat)
    requires Core(h) && s != 0 && s in h.spans && h.spans[s].kind.Raw?
    requires h.nr > 0 ==> Tagged(pg, h.spans, h.nr)
    ensures var n := h.spans[s].len;
            && h.nr > 0 && 1 <= n < 0x1_0000_0000 && s + n <= |pg| && s < |pg|
            && IndexOf(n) == FloorLog2(n) < |h.lists|
            && (forall j :: 0 <= j < |h.lists| ==> s !in h.lists[j])
            && Core(PushFree(h, s)) && Tagged(WithTags(pg, s, n, true), PushFree(h, s).spans, h.nr)
  {
    hide Core, TagsAt, WithTags, FloorLog2, IndexOf;
    CoreSpan(h, s);
    Unlisted(h);
    IndexInRange(h, s);
    PushCore(h, s);
    NotListed(h, s);
    WithTagsTagged(pg, h.spans, h.nr, s, Free);
  }

  lemma NotListed(h: Heap, s: nat)
    requires Core(h) && !IsFree(h.spans, s)
    ensures forall j :: 0 <= j < |h.lists| ==> s !in h.lists[j]
  {
    hide Tiled, NoDup;
  }

  lemma ListsApartAll(h: Heap)
    requires Core(h)
    ensures forall i, j, x :: 0 <= i < |h.lists| && 0 <= j < |h.lists| && i != j && x in h.lists[i] ==> x !in h.lists[j]
  {
    hide Core;
    forall i, j, x | 0 <= i < |h.lists| && 0 <= j < |h.lists| && i != j && x in h.lists[i]
      ensures x !in h.lists[j]
    {
      CoreListsApart(h, i, j);
    }
  }

  lemma PushTags(pg: seq<Page>, pg': seq<Page>, h: Heap, s: nat)
    requires Core(h) && s in h.spans && !IsFree(h.spans, s)
    requires FloorLog2(h.spans[s].len) < |h.lists|
    requires Tagged(pg, PushFree(h, s).spans, h.nr)
    requires RelinkedWithin(pg, pg', [s] + h.lists[FloorLog2(h.spans[s].len)])
    ensures Tagged(pg', PushFree(h, s).spans, h.nr) && PoolFrame(pg, pg', h.spans, PushFree(h, s).spans)
  {
    hide Tagged, RelinkedWithin, PoolFrame, Tiled, NoDup;
    var c := [s] + h.lists[FloorLog2(h.spans[s].len)];
    RelinkedTags(pg, pg', PushFree(h, s).spans, h.nr, c);
    forall x | x in c
      ensures IsFree(h.spans, x) || IsFree(PushFree(h, s).spans, x)
    {
    }
    RelinkedFrame(pg, pg', h.spans, PushFree(h, s).spans, c);
  }

  lemma LinkedNoDup(l: PageList, ary: array<Page>)
    requires l.Linked(ary)
    ensures NoDup(l.contents)
  {
  }

  lemma CoreListsApart(h: Heap, i: nat, j: nat)
    requires Core(h) && i < |h.lists| && j < |h.lists| && i != j
    ensures forall x :: x in h.lists[i] ==> x !in h.lists[j]
  {
    ListsApart(h.spans, h.lists, i, j);
  }

  lemma UnlinkTags(pg: seq<Page>, pg': seq<Page>, h: Heap, s: nat, c: seq<nat>)
    requires Tagged(pg, h.spans, h.nr) && RelinkedWithin(pg, pg', c) && AllFree(h.spans, c) && s in h.spans
    ensures var m' := h.spans[s := Span(h.spans[s].len, Raw)];
            Tagged(pg', m', h.nr) && PoolFrame(pg, pg', h.spans, m') && SameTags(pg, pg')
  {
    hide RelinkedWithin, PoolFrame, TagsAt, SameTags;
    RelinkedSame(pg, pg', c);
    RelinkedTags(pg, pg', h.spans, h.nr, c);
    RawTags(pg', s, h.spans[s]);
    RelinkedFrame(pg, pg', h.spans, h.spans[s := Span(h.spans[s].len, Raw)], c);
  }

  lemma Listed(h: Heap, s: nat)
    requires Core(h) && IsFree(h.spans, s)
    ensures var j := FloorLog2(h.spans[s].len);
            && j < |h.lists| && s in h.lists[j] && NoDup(h.lists[j]) && AllFree(h.spans, h.lists[j]) && h.nr > 0
  {
    CoreSpan(h, s);
  }
}
