/** The page pool as a value: the pages [0, nr) exactly tiled by spans, 32 free lists, and the
    primitive span steps the allocator is composed of. The class in CpuPages refines it. */
module PageModel {
  import opened Bits
  import opened FreeChains

  const NR_SPAN_LISTS: nat := 32

  /** Reserved: page 0 and the page array itself. Raw: a span being reshaped, whose page tags
      promise nothing. */
  datatype Kind = Free | Large | Small(pool: nat) | Reserved | Raw

  datatype Span = Span(len: nat, kind: Kind)

  /** nrFree is the running counter nr_free_pages; arr the first page of the page array. */
  datatype Heap = Heap(nr: nat, spans: map<nat, Span>, lists: seq<seq<nat>>, nrFree: int, arr: nat)

  // ---------------------------------------------------------------- size index

  function FloorLog2(n: nat): nat {
    if n == 0 then 0 else BitLen(n) - 1
  }

  /** index_of: the list a free span of this many pages belongs to. */
  function IndexOf(pages: u32): int {
    32 - Clz(pages) - 1
  }

  /** index_of_conservative: the first list all of whose spans are long enough. */
  function IndexOfConservative(pages: u32): nat {
    if pages <= 1 then 0 else 32 - Clz(pages - 1)
  }

  lemma IndexOfIsFloorLog2(n: u32)
    requires n >= 1
    ensures IndexOf(n) == FloorLog2(n) && 0 <= IndexOf(n) < 32
    ensures Pow2(FloorLog2(n)) <= n < Pow2(FloorLog2(n) + 1)
  {
    Pow2Of32();
    BitLenFits(n, 32);
    BitLenBounds(n);
  }

  lemma IndexBits(n: u32)
    ensures n >= 1 ==> FloorLog2(n) == BitLen(n) - 1
    ensures IndexOfConservative(n) == if n <= 1 then 0 else BitLen(n - 1)
  {
    hide BitLen, Pow2;
  }

  /** The conservative index is the least c with n <= 2^c; it is index_of(n) exactly when n is
      a power of two and one more otherwise. */
  lemma ConservativeIndex(n: u32)
    requires n >= 1
    ensures var c := IndexOfConservative(n);
            && n <= Pow2(c) && (c > 0 ==> Pow2(c - 1) < n) && c <= 32
            && (c == FloorLog2(n) || c == FloorLog2(n) + 1)
            && (c == FloorLog2(n) <==> n == Pow2(c))
  {
    hide BitLen, Pow2, FloorLog2, IndexOfConservative;
    IndexBits(n);
    IndexOfIsFloorLog2(n);
    var f := FloorLog2(n);
    if n == 1 {
      PowerOne();
      if f > 0 { Pow2Monotone(1, f); }
    } else if n == Pow2(f) {
      PowerOne();
      NextPow2(f - 1);
      BitLenUnique(n - 1, f - 1);
    } else {
      BitLenUnique(n - 1, f);
    }
  }

  lemma PowerOne()
    ensures Pow2(0) == 1 && Pow2(1) == 2
  {
  }

  lemma FloorLog2Monotone(m: nat, n: nat)
    requires m <= n
    ensures FloorLog2(m) <= FloorLog2(n)
  {
    BitLenMonotone(m, n);
    if m > 0 { BitLenBounds(m); }
  }

  // ---------------------------------------------------------------- invariants

  ghost predicate Covers(m: map<nat, Span>, s: nat, i: nat) {
    s in m && s <= i < s + m[s].len
  }

  ghost predicate Covered(m: map<nat, Span>, i: nat) {
    exists s :: Covers(m, s, i)
  }

  ghost predicate SpansInside(m: map<nat, Span>, nr: nat) {
    forall s :: s in m ==> 1 <= m[s].len && s + m[s].len <= nr
  }

  ghost predicate SpansDisjoint(m: map<nat, Span>) {
    forall s, t :: s in m && t in m && s < t ==> s + m[s].len <= t
  }

  /** Every page lies in one and, with disjointness, only one span. */
  ghost predicate Tiled(m: map<nat, Span>, nr: nat) {
    && SpansInside(m, nr)
    && SpansDisjoint(m)
    && forall i :: 0 <= i < nr ==> Covered(m, i)
  }

  ghost predicate IsFree(m: map<nat, Span>, s: nat) {
    s in m && m[s].kind.Free?
  }

  /** Each free span is in exactly the list of its size, once; nothing else is listed. */
  ghost predicate ListsOk(m: map<nat, Span>, lists: seq<seq<nat>>) {
    && |lists| == NR_SPAN_LISTS
    && (forall j, x :: 0 <= j < |lists| && x in lists[j] ==> IsFree(m, x) && FloorLog2(m[x].len) == j)
    && (forall s: nat :: IsFree(m, s) ==> FloorLog2(m[s].len) < |lists| && s in lists[FloorLog2(m[s].len)])
    && (forall j :: 0 <= j < |lists| ==> NoDup(lists[j]))
  }

  /** Coalescing is complete: no free span ends where another begins. */
  ghost predicate NoAdjacent(m: map<nat, Span>) {
    forall s: nat, t: nat :: IsFree(m, s) && IsFree(m, t) ==> s + m[s].len != t
  }

  ghost predicate FreeAt(m: map<nat, Span>, i: nat) {
    exists s :: IsFree(m, s) && Covers(m, s, i)
  }

  ghost function FreePages(m: map<nat, Span>, nr: nat): set<nat> {
    set i | 0 <= i < nr && FreeAt(m, i)
  }

  ghost predicate CountOk(h: Heap) {
    h.nrFree == |FreePages(h.spans, h.nr)|
  }

  /** Page 0 is the null link, so it is never part of a free span. */
  ghost predicate Core(h: Heap) {
    && h.nr < 0x1_0000_0000
    && (h.nr > 0 ==> 0 in h.spans && h.spans[0].kind.Reserved?)
    && Tiled(h.spans, h.nr)
    && ListsOk(h.spans, h.lists)
  }

  ghost predicate Settled(m: map<nat, Span>) {
    forall s :: s in m ==> !m[s].kind.Raw?
  }

  /** The invariant between calls. */
  ghost predicate Inv(h: Heap) {
    Core(h) && CountOk(h) && NoAdjacent(h.spans) && Settled(h.spans)
  }

  // ---------------------------------------------------------------- primitive steps

  function Without(c: seq<nat>, x: nat): seq<nat> {
    if c == [] then [] else if c[0] == x then c[1..] else [c[0]] + Without(c[1..], x)
  }

  lemma {:induction false} WithoutMembers(c: seq<nat>, x: nat)
    requires NoDup(c)
    ensures NoDup(Without(c, x))
    ensures forall y :: y in Without(c, x) <==> y in c && y != x
  {
    if c != [] && c[0] != x {
      WithoutMembers(c[1..], x);
      assert forall y :: y in c <==> y == c[0] || y in c[1..];
      assert c[0] !in c[1..];
    } else if c != [] {
      assert forall y :: y in c <==> y == c[0] || y in c[1..];
    }
  }

  lemma {:induction false} WithoutAt(c: seq<nat>, k: nat)
    requires k < |c| && NoDup(c)
    ensures Without(c, c[k]) == c[..k] + c[k + 1..]
  {
    if k > 0 {
      assert c[0] != c[k];
      assert c[1..][k - 1] == c[k];
      WithoutAt(c[1..], k - 1);
    }
  }

  /** page_list::erase of a free span; the span becomes Raw. */
  function Unlink(h: Heap, s: nat): Heap
    requires s in h.spans && FloorLog2(h.spans[s].len) < |h.lists|
  {
    var j := FloorLog2(h.spans[s].len);
    h.(spans := h.spans[s := h.spans[s].(kind := Raw)],
       lists := h.lists[j := Without(h.lists[j], s)])
  }

  /** page_list::push_front of a span that becomes Free (free_span_no_merge). */
  function SetFree(h: Heap, s: nat): Heap
    requires s in h.spans && FloorLog2(h.spans[s].len) < |h.lists|
  {
    var j := FloorLog2(h.spans[s].len);
    h.(spans := h.spans[s := h.spans[s].(kind := Free)],
       lists := h.lists[j := [s] + h.lists[j]],
       nrFree := h.nrFree + h.spans[s].len)
  }

  /** Any change between kinds that are not Free. */
  function SetKind(h: Heap, s: nat, k: Kind): Heap
    requires s in h.spans
  {
    h.(spans := h.spans[s := h.spans[s].(kind := k)])
  }

  function Split(h: Heap, s: nat, k: nat): Heap
    requires s in h.spans && 0 < k < h.spans[s].len
  {
    var sp := h.spans[s];
    h.(spans := h.spans[s := sp.(len := k)][s + k := sp.(len := sp.len - k)])
  }

  /** The span at s swallows the one right behind it. */
  function Join(h: Heap, s: nat): Heap
    requires s in h.spans && s + h.spans[s].len in h.spans
  {
    var t := s + h.spans[s].len;
    h.(spans := (h.spans - {t})[s := Span(h.spans[s].len + h.spans[t].len, h.spans[s].kind)])
  }

  // ---------------------------------------------------------------- primitives keep the core

  lemma IndexInRange(h: Heap, s: nat)
    requires SpansInside(h.spans, h.nr) && h.nr < 0x1_0000_0000 && s in h.spans
    ensures 1 <= h.spans[s].len < 0x1_0000_0000
    ensures FloorLog2(h.spans[s].len) == IndexOf(h.spans[s].len) < 32
  {
    IndexOfIsFloorLog2(h.spans[s].len);
  }

  lemma CoreSpan(h: Heap, s: nat)
    requires Core(h) && s in h.spans
    ensures SpansInside(h.spans, h.nr) && SpansDisjoint(h.spans)
    ensures 1 <= h.spans[s].len && s + h.spans[s].len <= h.nr
    ensures IsFree(h.spans, s) ==> s != 0
    ensures FloorLog2(h.spans[s].len) < |h.lists|
  {
    IndexInRange(h, s);
  }

  /** Changing a span's kind moves no page. */
  lemma RekindTiled(m: map<nat, Span>, nr: nat, s: nat, k: Kind)
    requires Tiled(m, nr) && s in m
    ensures Tiled(m[s := m[s].(kind := k)], nr)
  {
    var m' := m[s := m[s].(kind := k)];
    forall i | 0 <= i < nr
      ensures Covered(m', i)
    {
      assert Covered(m, i);
      var x :| Covers(m, x, i);
      assert Covers(m', x, i);
    }
  }

  lemma UnlinkCore(h: Heap, s: nat)
    requires Core(h) && IsFree(h.spans, s)
    ensures FloorLog2(h.spans[s].len) < |h.lists|
    ensures Core(Unlink(h, s))
  {
    hide Covered, SpansDisjoint, FloorLog2, NoDup, Without;
    IndexInRange(h, s);
    RekindTiled(h.spans, h.nr, s, Raw);
    UnlinkLists(h.spans, h.lists, s);
  }

  lemma UnlinkLists(m: map<nat, Span>, lists: seq<seq<nat>>, s: nat)
    requires ListsOk(m, lists) && IsFree(m, s) && FloorLog2(m[s].len) < |lists|
    ensures var j := FloorLog2(m[s].len); ListsOk(m[s := m[s].(kind := Raw)], lists[j := Without(lists[j], s)])
  {
    hide FloorLog2, Without, NoDup;
    WithoutMembers(lists[FloorLog2(m[s].len)], s);
  }

  lemma SetFreeCore(h: Heap, s: nat)
    requires Core(h) && s in h.spans && !IsFree(h.spans, s) && s != 0
    ensures FloorLog2(h.spans[s].len) < |h.lists|
    ensures Core(SetFree(h, s))
  {
    hide Covered, SpansDisjoint, FloorLog2, NoDup;
    IndexInRange(h, s);
    RekindTiled(h.spans, h.nr, s, Free);
    SetFreeLists(h.spans, h.lists, s);
  }

  lemma SetFreeLists(m: map<nat, Span>, lists: seq<seq<nat>>, s: nat)
    requires ListsOk(m, lists) && s in m && !IsFree(m, s) && FloorLog2(m[s].len) < |lists|
    ensures var j := FloorLog2(m[s].len); ListsOk(m[s := m[s].(kind := Free)], lists[j := [s] + lists[j]])
  {
    hide FloorLog2;
    var j := FloorLog2(m[s].len);
    assert s !in lists[j];
    assert NoDup([s] + lists[j]);
  }

  /** Lists depend on the free spans only. */
  lemma ListsSame(m: map<nat, Span>, m': map<nat, Span>, lists: seq<seq<nat>>)
    requires ListsOk(m, lists) && forall x: nat :: IsFree(m', x) <==> IsFree(m, x)
    requires forall x: nat :: IsFree(m, x) ==> x in m' && m'[x] == m[x]
    ensures ListsOk(m', lists)
  {
    hide IsFree, FloorLog2, NoDup;
  }

  lemma SetKindCore(h: Heap, s: nat, k: Kind)
    requires Core(h) && s in h.spans && !IsFree(h.spans, s) && !k.Free?
    requires s == 0 ==> k.Reserved?
    ensures Core(SetKind(h, s, k))
  {
    hide Tiled, ListsOk;
    RekindTiled(h.spans, h.nr, s, k);
    ListsSame(h.spans, SetKind(h, s, k).spans, h.lists);
  }

  lemma SplitTiled(h: Heap, s: nat, k: nat)
    requires Tiled(h.spans, h.nr) && s in h.spans && 0 < k < h.spans[s].len
    ensures s + k !in h.spans
    ensures Tiled(Split(h, s, k).spans, h.nr)
  {
    hide Covered;
    SplitSpans(h, s, k);
    SplitCovers(h, s, k);
  }

  lemma SplitSpans(h: Heap, s: nat, k: nat)
    requires SpansInside(h.spans, h.nr) && SpansDisjoint(h.spans) && s in h.spans && 0 < k < h.spans[s].len
    ensures s + k !in h.spans
    ensures SpansInside(Split(h, s, k).spans, h.nr) && SpansDisjoint(Split(h, s, k).spans)
  {
    var m, m', t := h.spans, Split(h, s, k).spans, s + k;
    assert t !in m;
    assert m' == m[s := m[s].(len := k)][t := m[s].(len := m[s].len - k)];
    hide Split;
    forall a, b | a in m' && b in m' && a < b
      ensures a + m'[a].len <= b
    {
      if a == t {
        assert s + m[s].len <= b;
      } else if b != t {
        assert a + m[a].len <= b;
      } else if a != s {
        assert a + m[a].len <= s;
      }
    }
  }

  lemma SplitCovers(h: Heap, s: nat, k: nat)
    requires s in h.spans && 0 < k < h.spans[s].len && s + k !in h.spans
    requires forall i :: 0 <= i < h.nr ==> Covered(h.spans, i)
    ensures forall i :: 0 <= i < h.nr ==> Covered(Split(h, s, k).spans, i)
  {
    var m, m' := h.spans, Split(h, s, k).spans;
    forall i | 0 <= i < h.nr
      ensures Covered(m', i)
    {
      assert Covered(m, i);
      var x :| Covers(m, x, i);
      if x != s || i < s + k { assert Covers(m', x, i); } else { assert Covers(m', s + k, i); }
    }
  }

  lemma SplitCore(h: Heap, s: nat, k: nat)
    requires Core(h) && s in h.spans && !IsFree(h.spans, s) && 0 < k < h.spans[s].len
    ensures s + k !in h.spans
    ensures Core(Split(h, s, k))
  {
    hide Tiled, ListsOk;
    SplitTiled(h, s, k);
    ListsSame(h.spans, Split(h, s, k).spans, h.lists);
  }

  lemma JoinTiled(h: Heap, s: nat)
    requires Tiled(h.spans, h.nr) && s in h.spans && s + h.spans[s].len in h.spans
    ensures Tiled(Join(h, s).spans, h.nr)
  {
    hide Covered;
    JoinSpans(h, s);
    JoinCovers(h, s);
  }

  lemma JoinSpans(h: Heap, s: nat)
    requires SpansInside(h.spans, h.nr) && SpansDisjoint(h.spans) && s in h.spans && s + h.spans[s].len in h.spans
    ensures SpansInside(Join(h, s).spans, h.nr) && SpansDisjoint(Join(h, s).spans)
  {
    hide Join;
    var m, m', t := h.spans, Join(h, s).spans, s + h.spans[s].len;
    forall a | a in m'
      ensures 1 <= m'[a].len && a + m'[a].len <= h.nr
    {
      JoinAt(h, s, a);
    }
    forall a, b | a in m' && b in m' && a < b
      ensures a + m'[a].len <= b
    {
      JoinAt(h, s, a);
      JoinAt(h, s, b);
      assert a + m[a].len <= b;
      if a == s {
        assert t + m[t].len <= b;
      }
    }
  }

  lemma JoinAt(h: Heap, s: nat, x: nat)
    requires s in h.spans && s + h.spans[s].len in h.spans && h.spans[s].len > 0 && x in Join(h, s).spans
    ensures var m, t := h.spans, s + h.spans[s].len;
            x in m && x != t
            && Join(h, s).spans[x] == if x == s then Span(m[s].len + m[t].len, m[s].kind) else m[x]
  {
  }

  lemma JoinCovers(h: Heap, s: nat)
    requires s in h.spans && s + h.spans[s].len in h.spans && h.spans[s].len > 0
    requires forall i :: 0 <= i < h.nr ==> Covered(h.spans, i)
    ensures forall i :: 0 <= i < h.nr ==> Covered(Join(h, s).spans, i)
  {
    var m, m' := h.spans, Join(h, s).spans;
    forall i | 0 <= i < h.nr
      ensures Covered(m', i)
    {
      assert Covered(m, i);
      var x :| Covers(m, x, i);
      if x == s + m[s].len { assert Covers(m', s, i); } else { assert Covers(m', x, i); }
    }
  }

  lemma JoinCore(h: Heap, s: nat)
    requires Core(h) && s in h.spans && s + h.spans[s].len in h.spans
    requires !IsFree(h.spans, s) && !IsFree(h.spans, s + h.spans[s].len)
    ensures Core(Join(h, s))
  {
    hide Tiled, ListsOk;
    JoinTiled(h, s);
    SpanPositive(h, s);
    ListsSame(h.spans, Join(h, s).spans, h.lists);
  }

  lemma SpanPositive(h: Heap, s: nat)
    requires Core(h) && s in h.spans
    ensures h.spans[s].len > 0
  {
  }

  // ---------------------------------------------------------------- counting free pages

  ghost function Range(a: nat, b: nat): (r: set<nat>)
    ensures forall i :: i in r <==> a <= i < b
    ensures |r| == if a < b then b - a else 0
    decreases b - a
  {
    if a < b then {a} + Range(a + 1, b) else {}
  }

  lemma FreePagesSame(m: map<nat, Span>, m': map<nat, Span>, nr: nat)
    requires forall s: nat :: IsFree(m, s) <==> IsFree(m', s)
    requires forall s: nat :: IsFree(m, s) ==> s in m' && m[s] == m'[s]
    ensures FreePages(m, nr) == FreePages(m', nr)
  {
    forall i | 0 <= i < nr
      ensures FreeAt(m, i) <==> FreeAt(m', i)
    {
      if FreeAt(m, i) { var s :| IsFree(m, s) && Covers(m, s, i); assert IsFree(m', s) && Covers(m', s, i); }
      if FreeAt(m', i) { var s :| IsFree(m', s) && Covers(m', s, i); assert IsFree(m, s) && Covers(m, s, i); }
    }
  }

  // ---------------------------------------------------------------- search

  function FirstFit(list: seq<nat>, m: map<nat, Span>, n: nat): nat {
    if list == [] then 0
    else if list[0] in m && m[list[0]].len >= n then list[0]
    else FirstFit(list[1..], m, n)
  }

  function FirstNonEmpty(lists: seq<seq<nat>>, j: nat): nat
    decreases |lists| - j
  {
    if j >= |lists| then |lists|
    else if lists[j] != [] then j
    else FirstNonEmpty(lists, j + 1)
  }

  /** The span an initialised find_and_unlink_span settles on; 0 for none. */
  function Pick(h: Heap, n: u32): nat
    requires n >= 1 && |h.lists| == NR_SPAN_LISTS
  {
    IndexOfIsFloorLog2(n);
    var c := IndexOfConservative(n);
    var j := FirstNonEmpty(h.lists, c);
    if j < NR_SPAN_LISTS then FirstFit(h.lists[j], h.spans, n)
    else if FloorLog2(n) == c then 0
    else FirstFit(h.lists[FloorLog2(n)], h.spans, n)
  }

  lemma {:induction false} FirstNonEmptyIs(lists: seq<seq<nat>>, j: nat)
    requires j <= |lists|
    ensures var f := FirstNonEmpty(lists, j);
            j <= f <= |lists| && (f < |lists| ==> lists[f] != []) && forall i :: j <= i < f ==> lists[i] == []
    decreases |lists| - j
  {
    if j < |lists| && lists[j] == [] { FirstNonEmptyIs(lists, j + 1); }
  }

  lemma {:induction false} FirstFitIs(list: seq<nat>, m: map<nat, Span>, n: nat)
    requires forall x :: x in list ==> x in m && x != 0
    ensures var f := FirstFit(list, m, n);
            && (f != 0 ==> f in list && m[f].len >= n)
            && (f == 0 ==> forall x :: x in list ==> m[x].len < n)
  {
    if list != [] {
      assert forall x :: x in list <==> x == list[0] || x in list[1..];
      FirstFitIs(list[1..], m, n);
    }
  }

  lemma ListedNotZero(h: Heap, j: nat)
    requires Core(h) && j < |h.lists|
    ensures forall x :: x in h.lists[j] ==> x in h.spans && x != 0
  {
    forall x | x in h.lists[j]
      ensures x in h.spans && x != 0
    {
      assert IsFree(h.spans, x);
      assert h.spans[x].len >= 1;
    }
  }

  /** Soundness: what the search returns is a free span of at least n pages. */
  lemma PickSound(h: Heap, n: u32)
    requires Core(h) && n >= 1 && Pick(h, n) != 0
    ensures IsFree(h.spans, Pick(h, n)) && h.spans[Pick(h, n)].len >= n
  {
    IndexOfIsFloorLog2(n);
    ConservativeIndex(n);
    FirstNonEmptyIs(h.lists, IndexOfConservative(n));
    var j := FirstNonEmpty(h.lists, IndexOfConservative(n));
    var l := if j < NR_SPAN_LISTS then j else FloorLog2(n);
    ListedNotZero(h, l);
    FirstFitIs(h.lists[l], h.spans, n);
  }

  /** Completeness: the search fails only when no free span has n pages, the floor-list
      fallback included. */
  lemma PickComplete(h: Heap, n: u32)
    requires Core(h) && n >= 1 && Pick(h, n) == 0
    ensures forall s: nat :: IsFree(h.spans, s) ==> h.spans[s].len < n
  {
    forall s | IsFree(h.spans, s)
      ensures h.spans[s].len < n
    {
      if h.spans[s].len >= n { PickFinds(h, n, s); }
    }
  }

  lemma PickFinds(h: Heap, n: u32, s: nat)
    requires Core(h) && n >= 1 && IsFree(h.spans, s) && h.spans[s].len >= n
    ensures Pick(h, n) != 0
  {
    IndexInRange(h, s);
    IndexOfIsFloorLog2(n);
    IndexOfIsFloorLog2(h.spans[s].len);
    ConservativeIndex(n);
    FloorLog2Monotone(n, h.spans[s].len);
    var c, g := IndexOfConservative(n), FloorLog2(h.spans[s].len);
    FirstNonEmptyIs(h.lists, c);
    var j := FirstNonEmpty(h.lists, c);
    if j < NR_SPAN_LISTS {
      ListedNotZero(h, j);
      FirstFitIs(h.lists[j], h.spans, n);
      var x := h.lists[j][0];
      IndexInRange(h, x);
      IndexOfIsFloorLog2(h.spans[x].len);
      Pow2Monotone(c, j);
      assert x in h.lists[j];
    } else {
      assert g < c;
      ListedNotZero(h, g);
      FirstFitIs(h.lists[g], h.spans, n);
    }
  }

  /** A good fit: if there are spans long enough for a power of two that holds n pages, none of them is half
      as short as the one picked, which is the head of its list. */
  lemma PickGoodFit(h: Heap, n: u32, t: nat, k: nat)
    requires Core(h) && n >= 1 && IsFree(h.spans, t) && n <= Pow2(k) <= h.spans[t].len
    ensures var s := Pick(h, n);
            && IsFree(h.spans, s) && h.spans[s].len < 2 * h.spans[t].len
            && h.lists[FloorLog2(h.spans[s].len)] != [] && s == h.lists[FloorLog2(h.spans[s].len)][0]
  {
    hide Core, Pow2, FloorLog2, Pick, IndexOfConservative, FirstFit;
    var c, g := IndexOfConservative(n), FloorLog2(h.spans[t].len);
    InLists(h, t);
    IndexOfIsFloorLog2(h.spans[t].len);
    ConservativeIndex(n);
    if c > k { Pow2Monotone(k, c - 1); }
    if c > g { Pow2Monotone(g + 1, c); Pow2Monotone(c, k); }
    FirstNonEmptyIs(h.lists, c);
    var j := FirstNonEmpty(h.lists, c);
    PickHead(h, n);
    var s := h.lists[j][0];
    InLists(h, s);
    IndexOfIsFloorLog2(h.spans[s].len);
    NextPow2(g);
    Pow2Monotone(j + 1, g + 1);
  }

  lemma InLists(h: Heap, s: nat)
    requires Core(h)
    ensures |h.lists| == NR_SPAN_LISTS == 32
    ensures IsFree(h.spans, s) ==>
              1 <= h.spans[s].len < 0x1_0000_0000
              && FloorLog2(h.spans[s].len) < 32 && s in h.lists[FloorLog2(h.spans[s].len)]
    ensures forall i :: 0 <= i < 32 && s in h.lists[i] ==> IsFree(h.spans, s) && FloorLog2(h.spans[s].len) == i
  {
    hide FloorLog2;
  }

  /** Where a list of long enough spans is not empty, the head of the first such is picked. */
  lemma PickHead(h: Heap, n: u32)
    requires Core(h) && n >= 1 && FirstNonEmpty(h.lists, IndexOfConservative(n)) < 32
    ensures var j := FirstNonEmpty(h.lists, IndexOfConservative(n));
            h.lists[j] != [] && Pick(h, n) == h.lists[j][0]
  {
    hide Pow2, FloorLog2;
    var c := IndexOfConservative(n);
    ConservativeIndex(n);
    FirstNonEmptyIs(h.lists, c);
    var j := FirstNonEmpty(h.lists, c);
    var x := h.lists[j][0];
    assert x in h.lists[j];
    InLists(h, x);
    IndexOfIsFloorLog2(h.spans[x].len);
    Pow2Monotone(c, j);
  }
}
