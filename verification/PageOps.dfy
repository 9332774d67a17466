/** The allocator's operations as functions on the page pool, and what each of them means. */
module PageOps {
  import opened Bits
  import opened PageModel

  /** Every span that is not free, with its length and kind. */
  ghost function Used(m: map<nat, Span>): map<nat, Span> {
    map x | x in m && !m[x].kind.Free? :: m[x]
  }

  function Push(lists: seq<seq<nat>>, s: nat, len: nat): seq<seq<nat>> {
    var j := FloorLog2(len);
    if j < |lists| then lists[j := [s] + lists[j]] else lists
  }

  function Drop(lists: seq<seq<nat>>, s: nat, len: nat): seq<seq<nat>> {
    var j := FloorLog2(len);
    if j < |lists| then lists[j := Without(lists[j], s)] else lists
  }

  // ---------------------------------------------------------------- free_span

  /** The free span ending where s begins, or s itself. */
  ghost function FreeBefore(m: map<nat, Span>, s: nat): (p: nat)
    ensures p == s || (IsFree(m, p) && p + m[p].len == s)
  {
    if exists p: nat :: IsFree(m, p) && p + m[p].len == s
    then var p: nat :| IsFree(m, p) && p + m[p].len == s; p
    else s
  }

  /** A free span leaves its list and the free count; its page tags promise nothing more. */
  ghost function Claim(h: Heap, s: nat): Heap
    requires s in h.spans
  {
    h.(spans := h.spans[s := Span(h.spans[s].len, Raw)],
       lists := Drop(h.lists, s, h.spans[s].len),
       nrFree := h.nrFree - h.spans[s].len)
  }

  /** Coalesce backwards: the free span before s, if any, leaves its list and swallows s. */
  ghost function AbsorbBefore(h: Heap, s: nat): Heap
    requires s in h.spans
  {
    var p := FreeBefore(h.spans, s);
    if p == s then h
    else h.(spans := (h.spans - {s})[p := Span(s + h.spans[s].len - p, Raw)],
            lists := Drop(h.lists, p, s - p),
            nrFree := h.nrFree - (s - p))
  }

  /** Coalesce forwards. */
  ghost function AbsorbAfter(h: Heap, s: nat): Heap
    requires s in h.spans
  {
    var t := s + h.spans[s].len;
    if !IsFree(h.spans, t) then h
    else h.(spans := (h.spans - {t})[s := Span(h.spans[s].len + h.spans[t].len, Raw)],
            lists := Drop(h.lists, t, h.spans[t].len),
            nrFree := h.nrFree - h.spans[t].len)
  }

  ghost function PushFree(h: Heap, s: nat): Heap
    requires s in h.spans
  {
    h.(spans := h.spans[s := Span(h.spans[s].len, Free)],
       lists := Push(h.lists, s, h.spans[s].len),
       nrFree := h.nrFree + h.spans[s].len)
  }

  /** free_span on the span at s, whatever non-free kind it has. */
  ghost function FreeSpan(h: Heap, s: nat): Heap
    requires s in h.spans
  {
    var h1 := SetKind(h, s, Raw);
    PushFree(AbsorbAfter(AbsorbBefore(h1, s), FreeBefore(h1.spans, s)), FreeBefore(h1.spans, s))
  }

  lemma RemoveTwice<V>(m: map<nat, V>, s: nat, t: nat, p: nat, a: V, b: V)
    requires p != t
    ensures ((m - {s})[p := a] - {t})[p := b] == (m - {s, t})[p := b]
  {
  }

  lemma UpdateRemove<V>(m: map<nat, V>, t: nat, a: V)
    ensures m[t := a] - {t} == m - {t}
  {
  }

  lemma UpdateRemoveUpdate<V>(m: map<nat, V>, p: nat, a: V, s: nat, b: V)
    ensures (m[p := a] - {s})[p := b] == (m - {s})[p := b]
  {
  }

  lemma ClaimCore(h: Heap, p: nat)
    requires Core(h) && IsFree(h.spans, p)
    ensures p != 0 && 1 <= h.spans[p].len
    ensures Core(Claim(h, p))
  {
    CoreSpan(h, p);
    UnlinkCore(h, p);
  }

  lemma PushCore(h: Heap, s: nat)
    requires Core(h) && s in h.spans && !IsFree(h.spans, s) && s != 0
    ensures Core(PushFree(h, s))
  {
    CoreSpan(h, s);
    SetFreeCore(h, s);
  }

  lemma AbsorbBeforeCore(h: Heap, s: nat)
    requires Core(h) && s in h.spans && h.spans[s].kind.Raw?
    ensures Core(AbsorbBefore(h, s))
  {
    hide Core, Drop, FloorLog2, FreeBefore;
    var p := FreeBefore(h.spans, s);
    if p != s {
      ClaimCore(h, p);
      var h1 := Claim(h, p);
      ClaimIs(h, p);
      JoinCore(h1, p);
      UpdateRemoveUpdate(h.spans, p, Span(s - p, Raw), s, Span(s + h.spans[s].len - p, Raw));
      assert Join(h1, p) == AbsorbBefore(h, s);
    }
  }

  lemma ClaimIs(h: Heap, p: nat)
    requires p in h.spans
    ensures var b := h.spans[p].len;
            Claim(h, p) == Heap(h.nr, h.spans[p := Span(b, Raw)], Drop(h.lists, p, b), h.nrFree - b, h.arr)
  {
    hide Drop;
  }

  lemma AbsorbAfterJoins(h: Heap, s: nat)
    requires s in h.spans && h.spans[s].kind.Raw? && h.spans[s].len > 0 && IsFree(h.spans, s + h.spans[s].len)
    ensures var h1, t := Claim(h, s + h.spans[s].len), s + h.spans[s].len;
            && s in h1.spans && h1.spans[s] == h.spans[s] && t in h1.spans
            && !IsFree(h1.spans, s) && !IsFree(h1.spans, t) && Join(h1, s) == AbsorbAfter(h, s)
  {
    hide Drop, FloorLog2, Without, Claim;
    var t := s + h.spans[s].len;
    ClaimIs(h, t);
    UpdateRemove(h.spans, t, Span(h.spans[t].len, Raw));
  }

  lemma AbsorbAfterCore(h: Heap, s: nat)
    requires Core(h) && s in h.spans && h.spans[s].kind.Raw?
    ensures Core(AbsorbAfter(h, s))
  {
    hide Core, Drop, FloorLog2, Without, Claim, Join, SpansInside, SpansDisjoint;
    var t := s + h.spans[s].len;
    if IsFree(h.spans, t) {
      CoreSpan(h, s);
      ClaimCore(h, t);
      AbsorbAfterJoins(h, s);
      JoinCore(Claim(h, t), s);
    }
  }

  /** The tiling after the span at s is released and coalesced with its free neighbours. */
  ghost function Merged(m: map<nat, Span>, s: nat): map<nat, Span>
    requires s in m && !IsFree(m, s)
  {
    var p, t := FreeBefore(m, s), s + m[s].len;
    if IsFree(m, t) then (m - {s, t})[p := Span(t - p + m[t].len, Free)]
    else (m - {s})[p := Span(t - p, Free)]
  }

  lemma EndUnique(m: map<nat, Span>, p: nat, q: nat)
    requires SpansDisjoint(m) && p in m && q in m && p + m[p].len == q + m[q].len
    requires m[p].len >= 1 && m[q].len >= 1
    ensures p == q
  {
  }

  lemma FreeBeforeAtMost(m: map<nat, Span>, nr: nat, s: nat)
    requires SpansInside(m, nr) && SpansDisjoint(m) && s in m && !IsFree(m, s)
    ensures var p := FreeBefore(m, s);
            && p <= s && (p == s || (p < s && IsFree(m, p) && p + m[p].len == s))
            && (p == s ==> forall x: nat :: IsFree(m, x) ==> x + m[x].len != s)
  {
  }

  /** Tiling makes the span ending at s unique, so changing s itself does not change it. */
  lemma FreeBeforeRekind(m: map<nat, Span>, nr: nat, s: nat, k: Kind)
    requires SpansInside(m, nr) && SpansDisjoint(m) && s in m && !IsFree(m, s) && !k.Free?
    ensures FreeBefore(m[s := Span(m[s].len, k)], s) == FreeBefore(m, s) <= s
  {
    hide FreeBefore;
    var m' := m[s := Span(m[s].len, k)];
    var p, p' := FreeBefore(m, s), FreeBefore(m', s);
    FreeBeforeAtMost(m, nr, s);
    RekindSpans(m, nr, s, k);
    FreeBeforeAtMost(m', nr, s);
    if p != s {
      assert IsFree(m', p) && p + m'[p].len == s;
      EndUnique(m, p, p');
    }
  }

  lemma RekindSpans(m: map<nat, Span>, nr: nat, s: nat, k: Kind)
    requires SpansInside(m, nr) && SpansDisjoint(m) && s in m
    ensures var m' := m[s := Span(m[s].len, k)]; SpansInside(m', nr) && SpansDisjoint(m')
  {
  }

  lemma AbsorbBeforeSpans(h: Heap, s: nat)
    requires Core(h) && s in h.spans && h.spans[s].kind.Raw?
    ensures var p, h' := FreeBefore(h.spans, s), AbsorbBefore(h, s);
            && p <= s
            && h'.spans == (h.spans - {s})[p := Span(s + h.spans[s].len - p, Raw)]
            && h'.nrFree == h.nrFree - (s - p)
  {
    hide Core, SpansInside, SpansDisjoint, FreeBefore, IsFree;
    CoreSpan(h, s);
    RawIsUsed(h.spans, s);
    FreeBeforeAtMost(h.spans, h.nr, s);
    PutBack(h.spans, s);
  }

  lemma RawIsUsed(m: map<nat, Span>, s: nat)
    requires s in m && m[s].kind.Raw?
    ensures !IsFree(m, s)
  {
  }

  lemma PutBack(m: map<nat, Span>, s: nat)
    requires s in m
    ensures (m - {s})[s := m[s]] == m
  {
  }

  lemma AbsorbAfterSpans(h: Heap, p: nat)
    requires p in h.spans && h.spans[p].len >= 1
    ensures var t, r := p + h.spans[p].len, PushFree(AbsorbAfter(h, p), p);
            && r.spans == (if IsFree(h.spans, t) then (h.spans - {t})[p := Span(h.spans[p].len + h.spans[t].len, Free)]
                           else h.spans[p := Span(h.spans[p].len, Free)])
            && r.nrFree == h.nrFree + h.spans[p].len && r.nr == h.nr && r.arr == h.arr
  {
  }

  lemma MergeAfter(h: Heap, m: map<nat, Span>, s: nat)
    requires s in m && !IsFree(m, s) && m[s].len >= 1
    requires var p := FreeBefore(m, s); p <= s && h.spans == (m - {s})[p := Span(s + m[s].len - p, Raw)]
    ensures PushFree(AbsorbAfter(h, FreeBefore(m, s)), FreeBefore(m, s)).spans == Merged(m, s)
  {
    var p, t := FreeBefore(m, s), s + m[s].len;
    assert p < t;
    AbsorbAfterSpans(h, p);
    hide AbsorbAfter, PushFree, FreeBefore;
    assert IsFree(h.spans, t) <==> IsFree(m, t);
    if IsFree(m, t) {
      RemoveTwice(m, s, t, p, Span(t - p, Raw), Span(t - p + m[t].len, Free));
    }
  }

  lemma FreeSpanHalfway(h: Heap, s: nat) returns (h2: Heap)
    requires Core(h) && s in h.spans && !IsFree(h.spans, s) && s != 0
    ensures var p := FreeBefore(h.spans, s);
            && p <= s && h2.spans == (h.spans - {s})[p := Span(s + h.spans[s].len - p, Raw)]
            && h2.nr == h.nr && h2.arr == h.arr && h2.nrFree == h.nrFree - (s - p)
            && FreeSpan(h, s) == PushFree(AbsorbAfter(h2, p), p)
  {
    hide CountOk, NoAdjacent, ListsOk, Covered, FreeBefore, PushFree, AbsorbAfter;
    var m := h.spans;
    CoreSpan(h, s);
    FreeBeforeRekind(m, h.nr, s, Raw);
    SetKindCore(h, s, Raw);
    var h1 := SetKind(h, s, Raw);
    assert h1.spans == m[s := Span(m[s].len, Raw)];
    AbsorbBeforeSpans(h1, s);
    h2 := AbsorbBefore(h1, s);
    UpdateRemove(m, s, Span(m[s].len, Raw));
  }

  lemma FreeSpanMerges(h: Heap, s: nat)
    requires Core(h) && s in h.spans && !IsFree(h.spans, s) && s != 0
    ensures var r := FreeSpan(h, s);
            && r.spans == Merged(h.spans, s)
            && r.nrFree == h.nrFree + h.spans[s].len
            && r.nr == h.nr && r.arr == h.arr
  {
    hide *;
    CoreSpan(h, s);
    var h2 := FreeSpanHalfway(h, s);
    MergeAfter(h2, h.spans, s);
    AbsorbAfterSpans(h2, FreeBefore(h.spans, s));
  }

  lemma FreeSpanCore(h: Heap, s: nat)
    requires Core(h) && s in h.spans && !IsFree(h.spans, s) && s != 0
    ensures Core(FreeSpan(h, s))
  {
    hide Core;
    SetKindCore(h, s, Raw);
    var h1 := SetKind(h, s, Raw);
    CoreSpan(h1, s);
    AbsorbBeforeCore(h1, s);
    var p := FreeBefore(h1.spans, s);
    if p != s { CoreSpan(h1, p); }
    var h2 := AbsorbBefore(h1, s);
    assert p in h2.spans && h2.spans[p].kind.Raw?;
    AbsorbAfterCore(h2, p);
    PushCore(AbsorbAfter(h2, p), p);
  }

  lemma MergedUsed(m: map<nat, Span>, nr: nat, s: nat)
    requires SpansInside(m, nr) && SpansDisjoint(m) && s in m && !IsFree(m, s)
    ensures Used(Merged(m, s)) == Used(m) - {s}
  {
    hide *;
    FreeBeforeAtMost(m, nr, s);
    InsideAt(m, nr, s);
    forall x: nat ensures InUse(Merged(m, s), x) <==> InUse(m, x) && x != s {
      MergedOther(m, s, x);
    }
    forall x: nat | InUse(m, x) && x != s ensures x in m && x in Merged(m, s) && Merged(m, s)[x] == m[x] {
      MergedOther(m, s, x);
    }
    UsedLess(m, Merged(m, s), s);
  }

  ghost predicate InUse(m: map<nat, Span>, x: nat) {
    x in m && !m[x].kind.Free?
  }

  lemma InsideAt(m: map<nat, Span>, nr: nat, s: nat)
    requires SpansInside(m, nr) && s in m
    ensures m[s].len >= 1
  {
  }

  lemma MergedOther(m: map<nat, Span>, s: nat, x: nat)
    requires s in m && !IsFree(m, s) && m[s].len > 0 && FreeBefore(m, s) <= s
    requires FreeBefore(m, s) != s ==> IsFree(m, FreeBefore(m, s))
    ensures InUse(Merged(m, s), x) <==> InUse(m, x) && x != s
    ensures InUse(m, x) && x != s ==> x in m && x in Merged(m, s) && Merged(m, s)[x] == m[x]
  {
    hide FreeBefore;
  }

  lemma UsedLess(m: map<nat, Span>, m': map<nat, Span>, s: nat)
    requires forall x: nat :: InUse(m', x) <==> InUse(m, x) && x != s
    requires forall x: nat :: InUse(m, x) && x != s ==> x in m && x in m' && m'[x] == m[x]
    ensures Used(m') == Used(m) - {s}
  {
    var a, b := Used(m'), Used(m) - {s};
    forall x: nat
      ensures x in a <==> x in b
      ensures x in a ==> a[x] == b[x]
    {
      assert x in a <==> InUse(m', x);
      assert x in b <==> InUse(m, x) && x != s;
    }
  }

  lemma MergedAt(m: map<nat, Span>, s: nat, x: nat)
    requires s in m && !IsFree(m, s) && m[s].len > 0 && FreeBefore(m, s) <= s
    ensures var m', p, t := Merged(m, s), FreeBefore(m, s), s + m[s].len;
            && (IsFree(m', x) <==> x == p || (IsFree(m, x) && x != t))
            && m'[p].len == (if IsFree(m, t) then t + m[t].len else t) - p
            && (IsFree(m', x) && x != p ==> m'[x].len == m[x].len)
  {
    hide FreeBefore;
  }

  lemma MergedFreeAt(m: map<nat, Span>, nr: nat, s: nat, i: nat)
    requires SpansInside(m, nr) && SpansDisjoint(m) && s in m && !IsFree(m, s)
    ensures FreeAt(Merged(m, s), i) <==> FreeAt(m, i) || s <= i < s + m[s].len
    ensures FreeAt(m, i) ==> !(s <= i < s + m[s].len)
  {
    hide FreeBefore, Merged;
    var m', p, t := Merged(m, s), FreeBefore(m, s), s + m[s].len;
    FreeBeforeAtMost(m, nr, s);
    if FreeAt(m, i) {
      var x :| IsFree(m, x) && Covers(m, x, i);
      MergedAt(m, s, x);
      MergedAt(m, s, p);
      var y := if x == t then p else x;
      assert IsFree(m', y) && Covers(m', y, i);
    }
    if s <= i < t {
      MergedAt(m, s, p);
      assert IsFree(m', p) && Covers(m', p, i);
    }
    if FreeAt(m', i) && !(s <= i < t) {
      var y :| IsFree(m', y) && Covers(m', y, i);
      MergedAt(m, s, y);
      var x := if y == p && i >= t then t else y;
      assert IsFree(m, x) && Covers(m, x, i);
    }
  }

  /** Releasing a span frees exactly its pages; the other spans in use are untouched. */
  lemma FreeSpanPages(h: Heap, s: nat)
    requires Core(h) && s in h.spans && !IsFree(h.spans, s) && s != 0
    ensures var r := FreeSpan(h, s);
            && FreePages(r.spans, h.nr) == FreePages(h.spans, h.nr) + Range(s, s + h.spans[s].len)
            && FreePages(h.spans, h.nr) !! Range(s, s + h.spans[s].len)
            && Used(r.spans) == Used(h.spans) - {s}
            && (CountOk(h) ==> CountOk(r))
  {
    hide Core, FreeSpan, FreeAt, Merged, Used, SpansInside, SpansDisjoint, FreePages, Range;
    CoreSpan(h, s);
    FreeSpanMerges(h, s);
    MergedUsed(h.spans, h.nr, s);
    forall i | 0 <= i < h.nr
      ensures FreeAt(FreeSpan(h, s).spans, i) <==> FreeAt(h.spans, i) || s <= i < s + h.spans[s].len
      ensures FreeAt(h.spans, i) ==> !(s <= i < s + h.spans[s].len)
    {
      MergedFreeAt(h.spans, h.nr, s, i);
    }
    PagesJoin(h.spans, FreeSpan(h, s).spans, h.nr, s, s + h.spans[s].len);
  }

  /** Where the free pages are those of m and the pages from a to b. */
  lemma PagesJoin(m: map<nat, Span>, m': map<nat, Span>, nr: nat, a: nat, b: nat)
    requires a <= b <= nr
    requires forall i :: 0 <= i < nr ==> (FreeAt(m', i) <==> FreeAt(m, i) || a <= i < b)
    requires forall i :: 0 <= i < nr && FreeAt(m, i) ==> !(a <= i < b)
    ensures FreePages(m', nr) == FreePages(m, nr) + Range(a, b) && FreePages(m, nr) !! Range(a, b)
    ensures |FreePages(m', nr)| == |FreePages(m, nr)| + (b - a)
  {
    hide FreeAt, Range;
    assert FreePages(m', nr) == FreePages(m, nr) + Range(a, b);
  }

  /** Coalescing is complete: afterwards no two free spans touch. */
  lemma FreeSpanNoAdjacent(h: Heap, s: nat)
    requires Core(h) && s in h.spans && !IsFree(h.spans, s) && s != 0
    requires NoAdjacent(h.spans)
    ensures NoAdjacent(FreeSpan(h, s).spans)
  {
    hide Core, FreeSpan;
    CoreSpan(h, s);
    FreeSpanMerges(h, s);
    MergedNoAdjacent(h.spans, h.nr, s);
  }

  lemma MergedNoAdjacent(m: map<nat, Span>, nr: nat, s: nat)
    requires SpansInside(m, nr) && SpansDisjoint(m) && s in m && !IsFree(m, s) && NoAdjacent(m)
    ensures NoAdjacent(Merged(m, s))
  {
    var m' := Merged(m, s);
    FreeBeforeAtMost(m, nr, s);
    hide FreeBefore;
    var p, t := FreeBefore(m, s), s + m[s].len;
    forall x: nat, y: nat | IsFree(m', x) && IsFree(m', y)
      ensures x + m'[x].len != y
    {
      assert x == p || IsFree(m, x);
      assert y == p || IsFree(m, y);
      if x == p && IsFree(m, t) && y != p { assert t + m[t].len != y; }
    }
  }

  // ---------------------------------------------------------------- allocate_large_and_trim

  /** Give the first off pages of a claimed span back. */
  ghost function CutFront(h: Heap, s: nat, off: nat): Heap
    requires s in h.spans && off < h.spans[s].len
  {
    if off == 0 then h else PushFree(Split(h, s, off), s)
  }

  /** Give back what lies behind the first n pages of a claimed span. */
  ghost function CutBack(h: Heap, s: nat, n: nat): Heap
    requires s in h.spans && 0 < n <= h.spans[s].len
  {
    if n == h.spans[s].len then h else PushFree(Split(h, s, n), s + n)
  }

  /** Carve pages [s + off, s + off + n) out of the free span at s. */
  ghost function Take(h: Heap, s: nat, off: nat, n: nat): Heap
    requires s in h.spans && off + n <= h.spans[s].len && n >= 1
  {
    SetKind(CutBack(CutFront(Claim(h, s), s, off), s + off, n), s + off, Large)
  }

  ghost function Taken(m: map<nat, Span>, s: nat, off: nat, n: nat): map<nat, Span>
    requires s in m && off + n <= m[s].len && n >= 1
  {
    var e := s + off + n;
    var rest := s + m[s].len - e;
    var m1 := if off > 0 then m[s := Span(off, Free)] else m;
    var m2 := m1[s + off := Span(n, Large)];
    if rest > 0 then m2[e := Span(rest, Free)] else m2
  }

  lemma CutFrontCore(h: Heap, s: nat, off: nat)
    requires Core(h) && s in h.spans && h.spans[s].kind.Raw? && off < h.spans[s].len
    ensures var r := CutFront(h, s, off);
            && Core(r) && r.nr == h.nr && r.arr == h.arr && r.nrFree == h.nrFree + off
            && r.spans == (if off > 0 then h.spans[s := Span(off, Free)]
                           else h.spans)[s + off := Span(h.spans[s].len - off, Raw)]
  {
    hide Core, SpansInside, SpansDisjoint, FloorLog2, Push, IsFree, Split, PushFree;
    CoreSpan(h, s);
    RawNotZero(h, s);
    if off > 0 {
      SplitCore(h, s, off);
      SplitIs(h, s, off);
      PushCore(Split(h, s, off), s);
      PushIs(Split(h, s, off), s);
      UpdateOrder(h.spans, s, Span(off, Raw), s + off, Span(h.spans[s].len - off, Raw), Span(off, Free));
    } else {
      assert h.spans == h.spans[s := Span(h.spans[s].len, Raw)];
    }
  }

  lemma RawNotZero(h: Heap, s: nat)
    requires Core(h) && s in h.spans && h.spans[s].kind.Raw?
    ensures s != 0 && !IsFree(h.spans, s)
  {
  }

  lemma SplitIs(h: Heap, s: nat, k: nat)
    requires s in h.spans && h.spans[s].kind.Raw? && 0 < k < h.spans[s].len
    ensures var r := Split(h, s, k);
            r.spans == h.spans[s := Span(k, Raw)][s + k := Span(h.spans[s].len - k, Raw)]
            && r.nr == h.nr && r.arr == h.arr && r.nrFree == h.nrFree
            && s in r.spans && r.spans[s] == Span(k, Raw) && !IsFree(r.spans, s)
            && s + k in r.spans && !IsFree(r.spans, s + k)
  {
  }

  lemma PushIs(h: Heap, s: nat)
    requires s in h.spans
    ensures var r := PushFree(h, s);
            r.spans == h.spans[s := Span(h.spans[s].len, Free)] && r.nr == h.nr && r.arr == h.arr
            && r.nrFree == h.nrFree + h.spans[s].len
  {
  }

  lemma UpdateOrder<V>(m: map<nat, V>, s: nat, a: V, t: nat, b: V, c: V)
    requires s != t
    ensures m[s := a][t := b][s := c] == m[s := c][t := b]
  {
  }

  lemma CutBackCore(h: Heap, s: nat, n: nat)
    requires Core(h) && s in h.spans && h.spans[s].kind.Raw? && 0 < n <= h.spans[s].len
    ensures var r, rest := CutBack(h, s, n), h.spans[s].len - n;
            && Core(r) && r.nr == h.nr && r.arr == h.arr && r.nrFree == h.nrFree + rest
            && (rest > 0 ==> r.spans == h.spans[s := Span(n, Raw)][s + n := Span(rest, Free)])
            && (rest == 0 ==> r.spans == h.spans)
  {
    hide Core, FloorLog2, Push, IsFree, Split, PushFree;
    RawNotZero(h, s);
    if n < h.spans[s].len {
      SplitCore(h, s, n);
      SplitIs(h, s, n);
      PushCore(Split(h, s, n), s + n);
      PushIs(Split(h, s, n), s + n);
    }
  }

  lemma TakeCore(h: Heap, s: nat, off: nat, n: nat)
    requires Core(h) && IsFree(h.spans, s) && off + n <= h.spans[s].len && n >= 1
    ensures var r := Take(h, s, off, n);
            && Core(r) && r.nr == h.nr && r.arr == h.arr && r.nrFree == h.nrFree - n
            && r.spans == Taken(h.spans, s, off, n)
  {
    hide Core, CutFront, CutBack, Taken, Drop;
    ClaimCore(h, s);
    var h1 := Claim(h, s);
    CutFrontCore(h1, s, off);
    var h2 := CutFront(h1, s, off);
    CutBackCore(h2, s + off, n);
    var h3 := CutBack(h2, s + off, n);
    LargeInPlace(h3, s + off, n);
    TakenParts(h.spans, s, off, n, h2.spans, h3.spans);
  }

  lemma LargeInPlace(h: Heap, s: nat, n: nat)
    requires Core(h) && s in h.spans && h.spans[s] == Span(n, Raw)
    ensures Core(SetKind(h, s, Large)) && SetKind(h, s, Large) == h.(spans := h.spans[s := Span(n, Large)])
  {
    hide Core;
    RawNotZero(h, s);
    SetKindCore(h, s, Large);
  }

  lemma TakenParts(m: map<nat, Span>, s: nat, off: nat, n: nat, m2: map<nat, Span>, m3: map<nat, Span>)
    requires s in m && off + n <= m[s].len && n >= 1
    requires m2 == (if off > 0 then m[s := Span(m[s].len, Raw)][s := Span(off, Free)]
                    else m[s := Span(m[s].len, Raw)])[s + off := Span(m[s].len - off, Raw)]
    requires m3 == if off + n < m[s].len then m2[s + off := Span(n, Raw)][s + off + n := Span(m[s].len - off - n, Free)]
                   else m2
    ensures m3[s + off := Span(n, Large)] == Taken(m, s, off, n)
  {
    var r, e, z := s + off, s + off + n, m[s].len;
    var m1 := if off > 0 then m[s := Span(off, Free)] else m;
    var t := m1[r := Span(n, Large)];
    assert m2[r := Span(n, Large)] == t;
    if off + n < z {
      assert m2[r := Span(n, Raw)][e := Span(z - off - n, Free)][r := Span(n, Large)]
          == m2[r := Span(n, Large)][e := Span(z - off - n, Free)];
    }
  }

  lemma TakenUsed(m: map<nat, Span>, nr: nat, s: nat, off: nat, n: nat)
    requires SpansInside(m, nr) && SpansDisjoint(m) && IsFree(m, s) && off + n <= m[s].len && n >= 1
    ensures Used(Taken(m, s, off, n)) == Used(m)[s + off := Span(n, Large)]
    ensures s + off !in Used(m)
  {
    assert s + off in m ==> s + off == s;
    assert s + off + n in m ==> s + off + n == s + m[s].len;
  }

  lemma TakenAt(m: map<nat, Span>, nr: nat, s: nat, off: nat, n: nat, x: nat)
    requires SpansInside(m, nr) && SpansDisjoint(m) && IsFree(m, s) && off + n <= m[s].len && n >= 1
    ensures var m', e, z := Taken(m, s, off, n), s + off + n, s + m[s].len;
            && (IsFree(m', x) <==> if x == s then off > 0 else (x == e && e < z) || IsFree(m, x))
            && (IsFree(m', x) ==> m'[x].len == if x == s then off else if x == e && e < z then z - e else m[x].len)
  {
    assert x in m && x != s ==> x + m[x].len <= s || s + m[s].len <= x;
  }

  lemma TakenFreeAt(m: map<nat, Span>, nr: nat, s: nat, off: nat, n: nat, i: nat)
    requires SpansInside(m, nr) && SpansDisjoint(m) && IsFree(m, s) && off + n <= m[s].len && n >= 1
    ensures FreeAt(Taken(m, s, off, n), i) <==> FreeAt(m, i) && !(s + off <= i < s + off + n)
    ensures s + off <= i < s + off + n ==> FreeAt(m, i)
  {
    hide Taken;
    var m', r, e, z := Taken(m, s, off, n), s + off, s + off + n, s + m[s].len;
    if s <= i < z { assert IsFree(m, s) && Covers(m, s, i); }
    if FreeAt(m, i) && !(r <= i < e) {
      var x :| IsFree(m, x) && Covers(m, x, i);
      var y := if x == s && i >= e then e else x;
      TakenAt(m, nr, s, off, n, y);
      assert IsFree(m', y) && Covers(m', y, i);
    }
    if FreeAt(m', i) {
      var y :| IsFree(m', y) && Covers(m', y, i);
      TakenAt(m, nr, s, off, n, y);
      var x := if s <= i < z then s else y;
      assert IsFree(m, x) && Covers(m, x, i);
    }
  }

  lemma TakenNoAdjacent(m: map<nat, Span>, nr: nat, s: nat, off: nat, n: nat)
    requires SpansInside(m, nr) && SpansDisjoint(m) && NoAdjacent(m)
    requires IsFree(m, s) && off + n <= m[s].len && n >= 1
    ensures NoAdjacent(Taken(m, s, off, n))
  {
    var m', r, e, z := Taken(m, s, off, n), s + off, s + off + n, s + m[s].len;
    forall x: nat, y: nat | IsFree(m', x) && IsFree(m', y)
      ensures x + m'[x].len != y
    {
      assert r in m ==> r == s;
      assert x == s || (x == e && e < z) || IsFree(m, x);
      assert y == s || (y == e && e < z) || IsFree(m, y);
      if x == e && e < z && y != s { assert s + m[s].len != y || y == e; }
    }
  }

  /** Carving takes exactly [s + off, s + off + n) out of the free pages and adds one span. */
  lemma TakePages(h: Heap, s: nat, off: nat, n: nat)
    requires Core(h) && IsFree(h.spans, s) && off + n <= h.spans[s].len && n >= 1
    ensures var r := Take(h, s, off, n);
            && FreePages(h.spans, h.nr) == FreePages(r.spans, h.nr) + Range(s + off, s + off + n)
            && FreePages(r.spans, h.nr) !! Range(s + off, s + off + n)
            && Used(r.spans) == Used(h.spans)[s + off := Span(n, Large)]
            && s + off !in Used(h.spans)
            && (CountOk(h) ==> CountOk(r))
  {
    hide Core, Take, Taken, FreeAt, Used, SpansInside, SpansDisjoint, FreePages, Range;
    CoreSpan(h, s);
    TakeCore(h, s, off, n);
    TakenUsed(h.spans, h.nr, s, off, n);
    forall i | 0 <= i < h.nr
      ensures FreeAt(Taken(h.spans, s, off, n), i) <==> FreeAt(h.spans, i) && !(s + off <= i < s + off + n)
      ensures s + off <= i < s + off + n ==> FreeAt(h.spans, i)
    {
      TakenFreeAt(h.spans, h.nr, s, off, n, i);
    }
    PagesJoin(Taken(h.spans, s, off, n), h.spans, h.nr, s + off, s + off + n);
  }
}
