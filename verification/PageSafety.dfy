/** Every run of the page allocator: the invariant is kept, the pool refines a ledger of live
    allocations that only sees calls and results, pages are conserved, and coalescing makes the
    tiling depend on nothing but what is in use. */
module PageSafety {
  import opened Bits
  import opened PageModel
  import opened PageOps
  import opened PageRuns

  /** One call. Adopt is the step by which a small-object pool takes over a span it has just
      been given. */
  datatype Op =
    | Malloc(n: u32)
    | Memalign(k: nat, n: u32)
    | Release(s: nat)
    | Trim(s: nat, keep: nat)
    | Adopt(s: nat, pool: nat)
    | Resize(nr: u32)

  /** What callers owe: page counts the 32-bit shift of the search admits, and live spans. */
  ghost predicate Legal(h: Heap, op: Op)
    requires FullInv(h)
  {
    match op
    case Malloc(n) => 1 <= n <= 0x8000_0000
    case Memalign(k, n) => n >= 1 && n + Pow2(k) - 1 <= 0x8000_0000
    case Release(s) => s in h.spans && (h.spans[s].kind.Large? || h.spans[s].kind.Small?)
    case Trim(s, n) => s in h.spans && h.spans[s].kind.Large? && 1 <= n <= h.spans[s].len
    case Adopt(s, pool) => s in h.spans && h.spans[s].kind.Large?
    case Resize(nr) => h.nr > 0 || nr == 0
  }

  ghost function Step(h: Heap, op: Op): (Heap, Got)
    requires FullInv(h) && Legal(h, op)
  {
    match op
    case Malloc(n) => AllocLarge(h, n)
    case Memalign(k, n) => AllocAligned(h, k, n)
    case Release(s) => (FreeSpan(h, s), Null)
    case Trim(s, n) => (ShrinkSpan(h, s, n), Null)
    case Adopt(s, pool) => (SetKind(h, s, Small(pool)), Null)
    case Resize(nr) => (Grow(h, nr).0, if Grow(h, nr).1 then Null else BadAlloc)
  }

  // ---------------------------------------------------------------- the ledger

  /** The spans handed out to clients and pools. */
  ghost function Clients(u: map<nat, Span>): map<nat, Span> {
    map x | x in u && (u[x].kind.Large? || u[x].kind.Small?) :: u[x]
  }

  ghost function Ledger(live: map<nat, Span>, op: Op, got: Got): map<nat, Span> {
    match op
    case Malloc(n) => if got.At? then live[got.page := Span(n, Large)] else live
    case Memalign(k, n) => if got.At? then live[got.page := Span(n, Large)] else live
    case Release(s) => live - {s}
    case Trim(s, n) => live[s := Span(n, Large)]
    case Adopt(s, pool) => if s in live then live[s := Span(live[s].len, Small(pool))] else live
    case Resize(nr) => live
  }

  lemma ClientsUpdate(u: map<nat, Span>, s: nat, sp: Span)
    ensures (sp.kind.Large? || sp.kind.Small?) ==> Clients(u[s := sp]) == Clients(u)[s := sp]
    ensures !(sp.kind.Large? || sp.kind.Small?) ==> Clients(u[s := sp]) == Clients(u) - {s}
    ensures Clients(u - {s}) == Clients(u) - {s}
  {
  }

  lemma AdoptFull(h: Heap, s: nat, pool: nat)
    requires FullInv(h) && s in h.spans && h.spans[s].kind.Large?
    ensures FullInv(SetKind(h, s, Small(pool)))
    ensures Used(SetKind(h, s, Small(pool)).spans) == Used(h.spans)[s := Span(h.spans[s].len, Small(pool))]
    ensures FreePages(SetKind(h, s, Small(pool)).spans, h.nr) == FreePages(h.spans, h.nr)
  {
    hide Core, CountOk, NoAdjacent, FreePages, ArrayPages;
    Unpack(h);
    NotReserved(h, s);
    SetKindMid(h, s, Small(pool));
    AdoptReserved(h.spans, s, pool);
    ArrayFrame(h, SetKind(h, s, Small(pool)));
  }

  lemma AdoptReserved(m: map<nat, Span>, s: nat, pool: nat)
    requires s in m && m[s].kind.Large?
    ensures ReservedSpans(m[s := m[s].(kind := Small(pool))]) == ReservedSpans(m)
  {
  }

  lemma StartedClients(h: Heap)
    requires FullInv(h)
    ensures Clients(Used(Started(h).spans)) == Clients(Used(h.spans))
  {
    hide Core, CountOk, NoAdjacent, ArrayPages, Initialized;
    Unpack(h);
    if h.nr == 0 {
      InitializedInv();
      if x: nat :| x in h.spans { CoreSpan(h, x); assert false; }
    }
  }

  /** The invariant is inductive: every legal call keeps it. */
  lemma StepInv(h: Heap, op: Op)
    requires FullInv(h) && Legal(h, op)
    ensures FullInv(Step(h, op).0)
  {
    hide FullInv, AllocLarge, AllocAligned, FreeSpan, ShrinkSpan, Grow, Carved, Started, Released, Shrunk, Grown,
         NoFreeSpanOf, SetKind, Used, FreePages, ArrayPages;
    match op
    case Malloc(n) => AllocLargeOk(h, n);
    case Memalign(k, n) => AllocAlignedOk(h, k, n);
    case Release(s) => FreeFull(h, s);
    case Trim(s, n) => ShrinkFull(h, s, n);
    case Adopt(s, pool) => AdoptFull(h, s, pool);
    case Resize(nr) => GrowOk(h, nr);
  }

  lemma CarveLedger(h: Heap, h': Heap, r: nat, n: nat)
    requires Carved(h, h', r, n)
    ensures Clients(Used(h'.spans)) == Clients(Used(h.spans))[r := Span(n, Large)]
    ensures r !in Clients(Used(h.spans))
  {
    hide Used, FreePages;
    ClientsUpdate(Used(h.spans), r, Span(n, Large));
  }

  lemma GrownLedger(h: Heap, h1: Heap, h': Heap, p: nat, nr: u32)
    requires FullInv(h) && h.nr > 0 && h.nr < nr
    requires Carved(h, h1, p, ArrayPages(nr)) && h1.nr == h.nr && Grown(h1, h', p, nr)
    ensures Clients(Used(h'.spans)) == Clients(Used(h.spans))
  {
    hide Used, FreePages, ArrayPages, OldArray, Core, CountOk, NoAdjacent, Clients;
    CarveLedger(h, h1, p, ArrayPages(nr));
    Unpack(h);
    UsedHas(h.spans, h.arr);
    UsedHas(h.spans, 0);
    var u := Used(h1.spans);
    ClientsUpdate(u, 0, Span(1, Reserved));
    ClientsUpdate(u, h.arr, Span(1, Reserved));
    var u1 := if h1.arr == 0 then u[0 := Span(1, Reserved)] else u - {h1.arr};
    ClientsUpdate(u1, p, Span(ArrayPages(nr), Reserved));
    NotClient(Used(h.spans), 0);
    NotClient(Used(h.spans), h.arr);
    LedgerCancel(Clients(Used(h.spans)), p, Span(ArrayPages(nr), Large), h.arr);
  }

  lemma NotClient(u: map<nat, Span>, s: nat)
    requires s in u && u[s].kind.Reserved?
    ensures s !in Clients(u)
  {
  }

  lemma LedgerCancel<V>(c: map<nat, V>, p: nat, v: V, z: nat)
    requires p !in c && z !in c
    ensures c[p := v] - {z} - {p} == c
  {
  }

  /** Each call changes the spans of clients exactly as the ledger says: no other allocation is
      moved, resized, handed out again or lost, relocation of the page array included. */
  lemma StepLedger(h: Heap, op: Op)
    requires FullInv(h) && Legal(h, op)
    ensures var (h', got) := Step(h, op);
            && Clients(Used(h'.spans)) == Ledger(Clients(Used(h.spans)), op, got)
            && (got.At? ==> got.page !in Clients(Used(h.spans)))
  {
    hide FullInv, AllocLarge, AllocAligned, FreeSpan, ShrinkSpan, Grow, Carved, Started, Grown, NoFreeSpanOf, SetKind,
         Used, FreePages, ArrayPages, Clients;
    var (h', got) := Step(h, op);
    StartedClients(h);
    match op {
      case Malloc(n) =>
        AllocLargeOk(h, n);
        if got.At? { CarveLedger(Started(h), h', got.page, n); }
      case Memalign(k, n) =>
        AllocAlignedOk(h, k, n);
        if got.At? { CarveLedger(Started(h), h', got.page, n); }
      case Release(s) =>
        FreeFull(h, s);
        ClientsUpdate(Used(h.spans), s, h.spans[s]);
      case Trim(s, n) =>
        ShrinkFull(h, s, n);
        ClientsUpdate(Used(h.spans), s, Span(n, Large));
      case Adopt(s, pool) =>
        AdoptFull(h, s, pool);
        ClientsUpdate(Used(h.spans), s, Span(h.spans[s].len, Small(pool)));
        ClientHas(h.spans, s);
      case Resize(nr) =>
        ResizeLedger(h, nr);
    }
  }

  lemma ClientHas(m: map<nat, Span>, s: nat)
    requires s in m && (m[s].kind.Large? || m[s].kind.Small?)
    ensures s in Clients(Used(m)) && Clients(Used(m))[s] == m[s]
  {
  }

  lemma ResizeLedger(h: Heap, nr: u32)
    requires FullInv(h) && (h.nr > 0 || nr == 0)
    ensures Clients(Used(Grow(h, nr).0.spans)) == Clients(Used(h.spans))
  {
    hide FullInv, Grow, Grown, NoFreeSpanOf, Used, FreePages, ArrayPages, Clients;
    GrowOk(h, nr);
    if Grow(h, nr).1 && nr > h.nr {
      var h1, p :| Carved(h, h1, p, ArrayPages(nr)) && Grown(h1, Grow(h, nr).0, p, nr);
      CarvedNr(h, h1, p, ArrayPages(nr));
      GrownLedger(h, h1, Grow(h, nr).0, p, nr);
    }
  }

  // ---------------------------------------------------------------- whole runs

  ghost predicate LegalRun(h: Heap, ops: seq<Op>)
    requires FullInv(h)
    decreases |ops|
  {
    ops == [] || (Legal(h, ops[0]) && (StepInv(h, ops[0]); LegalRun(Step(h, ops[0]).0, ops[1..])))
  }

  ghost function Run(h: Heap, ops: seq<Op>): Heap
    requires FullInv(h) && LegalRun(h, ops)
    decreases |ops|
  {
    if ops == [] then h else StepInv(h, ops[0]); Run(Step(h, ops[0]).0, ops[1..])
  }

  /** The ledger kept by an observer who sees the calls and what they return. */
  ghost function LedgerRun(h: Heap, live: map<nat, Span>, ops: seq<Op>): map<nat, Span>
    requires FullInv(h) && LegalRun(h, ops)
    decreases |ops|
  {
    if ops == [] then live
    else StepInv(h, ops[0]); LedgerRun(Step(h, ops[0]).0, Ledger(live, ops[0], Step(h, ops[0]).1), ops[1..])
  }

  /** Over every run the allocator keeps its invariant and refines the ledger. */
  lemma {:induction false} RunRefinesLedger(h: Heap, ops: seq<Op>)
    requires FullInv(h) && LegalRun(h, ops)
    ensures FullInv(Run(h, ops))
    ensures Clients(Used(Run(h, ops).spans)) == LedgerRun(h, Clients(Used(h.spans)), ops)
    decreases |ops|
  {
    hide FullInv, Step, Ledger, Clients, Used, Legal;
    if ops != [] {
      StepInv(h, ops[0]);
      StepLedger(h, ops[0]);
      RunRefinesLedger(Step(h, ops[0]).0, ops[1..]);
    }
  }

  ghost predicate UsedAt(m: map<nat, Span>, i: nat) {
    exists s :: s in m && !IsFree(m, s) && Covers(m, s, i)
  }

  ghost function UsedPages(m: map<nat, Span>, nr: nat): set<nat> {
    set i | 0 <= i < nr && UsedAt(m, i)
  }

  /** Conservation: every page is free or in use, never both, and the running counter is the
      number of the free ones. Live allocations are pairwise disjoint and inside the pool. */
  lemma Conservation(h: Heap)
    requires FullInv(h)
    ensures FreePages(h.spans, h.nr) + UsedPages(h.spans, h.nr) == Range(0, h.nr)
    ensures FreePages(h.spans, h.nr) !! UsedPages(h.spans, h.nr)
    ensures h.nrFree + |UsedPages(h.spans, h.nr)| == h.nr
    ensures var c := Clients(Used(h.spans));
            forall s, t :: s in c && t in c && s < t ==> 1 <= s && s + c[s].len <= t && t + c[t].len <= h.nr
  {
    hide ListsOk, NoAdjacent, ArrayOk;
    Unpack(h);
    forall i | 0 <= i < h.nr
      ensures FreeAt(h.spans, i) <==> !UsedAt(h.spans, i)
    {
      PageOnce(h.spans, h.nr, i);
    }
    ConserveSets(h.spans, h.nr);
    ClientsApart(h);
  }

  lemma ConserveSets(m: map<nat, Span>, nr: nat)
    requires forall i :: 0 <= i < nr ==> (FreeAt(m, i) <==> !UsedAt(m, i))
    ensures FreePages(m, nr) + UsedPages(m, nr) == Range(0, nr) && FreePages(m, nr) !! UsedPages(m, nr)
    ensures |FreePages(m, nr)| + |UsedPages(m, nr)| == nr
  {
    hide FreeAt, UsedAt;
    assert FreePages(m, nr) + UsedPages(m, nr) == Range(0, nr);
  }

  lemma PageOnce(m: map<nat, Span>, nr: nat, i: nat)
    requires Tiled(m, nr) && i < nr
    ensures FreeAt(m, i) <==> !UsedAt(m, i)
  {
    assert Covered(m, i);
    var x :| Covers(m, x, i);
    forall y: nat
      ensures Covers(m, y, i) ==> y == x
    {
    }
    if IsFree(m, x) { assert FreeAt(m, i); } else { assert UsedAt(m, i); }
  }

  lemma ClientsApart(h: Heap)
    requires FullInv(h)
    ensures var c := Clients(Used(h.spans));
            forall s, t :: s in c && t in c && s < t ==> 1 <= s && s + c[s].len <= t && t + c[t].len <= h.nr
  {
    hide ListsOk, NoAdjacent, ArrayOk, CountOk;
    var c := Clients(Used(h.spans));
    forall s, t | s in c && t in c && s < t
      ensures 1 <= s && s + c[s].len <= t && t + c[t].len <= h.nr
    {
      UsedOnly(h.spans, s);
      UsedOnly(h.spans, t);
      Unpack(h);
      NotReserved(h, s);
    }
  }

  // ---------------------------------------------------------------- canonical form

  /** With complete coalescing the tiling is determined by the spans in use. */
  lemma Canonical(h: Heap, h': Heap)
    requires FullInv(h) && FullInv(h') && h.nr == h'.nr && Used(h.spans) == Used(h'.spans)
    ensures h.spans == h'.spans
  {
    hide ListsOk, ArrayOk, CountOk, FullInv, Inv, Core, NoAdjacent, Tiled;
    Unpack(h);
    Unpack(h');
    CoreTiled(h);
    CoreTiled(h');
    SameFree(h.spans, h'.spans, h.nr);
    SameUsedSpans(h.spans, h'.spans);
    forall s: nat
      ensures IsFree(h.spans, s) ==> IsFree(h'.spans, s) && h'.spans[s].len == h.spans[s].len
      ensures IsFree(h'.spans, s) ==> IsFree(h.spans, s)
    {
      if IsFree(h.spans, s) { FreeSpanShared(h.spans, h'.spans, h.nr, s); }
      if IsFree(h'.spans, s) { FreeSpanShared(h'.spans, h.spans, h.nr, s); }
    }
  }

  lemma CoreTiled(h: Heap)
    requires Core(h)
    ensures Tiled(h.spans, h.nr)
  {
  }

  lemma SameUsedSpans(m: map<nat, Span>, m': map<nat, Span>)
    requires Used(m) == Used(m')
    ensures forall s :: s in m && !IsFree(m, s) ==> s in m' && m'[s] == m[s]
    ensures forall s :: s in m' && !IsFree(m', s) ==> s in m && m'[s] == m[s]
  {
    forall s | s in m && !IsFree(m, s)
      ensures s in m' && m'[s] == m[s]
    {
      assert s in Used(m);
    }
    forall s | s in m' && !IsFree(m', s)
      ensures s in m && m'[s] == m[s]
    {
      assert s in Used(m');
    }
  }

  lemma SameFree(m: map<nat, Span>, m': map<nat, Span>, nr: nat)
    requires Tiled(m, nr) && Tiled(m', nr) && Used(m) == Used(m')
    ensures forall i :: 0 <= i < nr ==> (FreeAt(m, i) <==> FreeAt(m', i))
  {
    hide Tiled, FreeAt, Used;
    forall i | 0 <= i < nr
      ensures FreeAt(m, i) <==> FreeAt(m', i)
    {
      PageOnce(m, nr, i);
      PageOnce(m', nr, i);
      SameUsedAt(m, m', i);
    }
  }

  lemma SameUsedAt(m: map<nat, Span>, m': map<nat, Span>, i: nat)
    requires Used(m) == Used(m')
    ensures UsedAt(m, i) <==> UsedAt(m', i)
  {
    SameUsedSpans(m, m');
    hide Used;
    if UsedAt(m, i) {
      var s :| s in m && !IsFree(m, s) && Covers(m, s, i);
      assert s in m' && !IsFree(m', s) && Covers(m', s, i);
    }
    if UsedAt(m', i) {
      var s :| s in m' && !IsFree(m', s) && Covers(m', s, i);
      assert s in m && !IsFree(m, s) && Covers(m, s, i);
    }
  }

  /** A maximal run of free pages is one span in every coalesced tiling. */
  lemma FreeSpanShared(m: map<nat, Span>, m': map<nat, Span>, nr: nat, s: nat)
    requires Tiled(m, nr) && Tiled(m', nr) && NoAdjacent(m) && NoAdjacent(m') && IsFree(m, s)
    requires forall i :: 0 <= i < nr ==> (FreeAt(m, i) <==> FreeAt(m', i))
    ensures IsFree(m', s) && m'[s].len == m[s].len
  {
    StartShared(m, m', nr, s);
    InsideFree(m', s, s + m[s].len);
    InsideFree(m, s, s + m'[s].len);
    NothingBehind(m, nr, s);
    NothingBehind(m', nr, s);
    hide FreeAt;
  }

  lemma InsideFree(m: map<nat, Span>, s: nat, i: nat)
    requires IsFree(m, s)
    ensures s <= i < s + m[s].len ==> FreeAt(m, i)
  {
    if s <= i < s + m[s].len { assert Covers(m, s, i); }
  }

  lemma NothingBehind(m: map<nat, Span>, nr: nat, s: nat)
    requires Tiled(m, nr) && NoAdjacent(m) && IsFree(m, s)
    ensures !FreeAt(m, s + m[s].len)
  {
    var e := s + m[s].len;
    forall x: nat
      ensures !(IsFree(m, x) && Covers(m, x, e))
    {
      assert IsFree(m, x) && Covers(m, x, e) ==> x == e;
    }
  }

  lemma NothingBefore(m: map<nat, Span>, nr: nat, s: nat)
    requires Tiled(m, nr) && NoAdjacent(m) && IsFree(m, s) && s > 0
    ensures !FreeAt(m, s - 1)
  {
    forall x: nat
      ensures !(IsFree(m, x) && Covers(m, x, s - 1))
    {
    }
  }

  lemma StartShared(m: map<nat, Span>, m': map<nat, Span>, nr: nat, s: nat)
    requires Tiled(m, nr) && Tiled(m', nr) && NoAdjacent(m) && NoAdjacent(m') && IsFree(m, s)
    requires forall i :: 0 <= i < nr ==> (FreeAt(m, i) <==> FreeAt(m', i))
    ensures IsFree(m', s)
  {
    InsideFree(m, s, s);
    assert FreeAt(m', s);
    var s' :| IsFree(m', s') && Covers(m', s', s);
    if s > 0 {
      NothingBefore(m, nr, s);
      InsideFree(m', s', s - 1);
    }
  }

  /** Allocating and then freeing gives back the very tiling there was before. */
  lemma AllocThenFree(h: Heap, n: u32)
    requires FullInv(h) && h.nr > 0 && 1 <= n <= 0x8000_0000 && AllocLarge(h, n).1.At?
    ensures var (h1, got) := AllocLarge(h, n);
            && FullInv(h1) && Legal(h1, Release(got.page))
            && var h2 := Step(h1, Release(got.page)).0;
            h2.spans == h.spans && h2.nrFree == h.nrFree
  {
    hide FullInv, AllocLarge, FreeSpan, NoFreeSpanOf, Used, FreePages;
    AllocLargeOk(h, n);
    var (h1, got) := AllocLarge(h, n);
    UsedOnly(h1.spans, got.page);
    FreeFull(h1, got.page);
    UpdateThenRemoveSame(Used(h.spans), got.page, Span(n, Large));
    Canonical(h, FreeSpan(h1, got.page));
  }
}
