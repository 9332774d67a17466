/** A pool of small objects of one size as a value: the objects carved from its spans, each held by
    a client, loose on the pool's own free list, or listed on the free list of its span. */
module SmallModel {
  import opened Bits
  import opened FreeChains
  import opened PageModel
  import opened PageLists

  /** Bytes of a link. */
  const WORD: nat := 8

  datatype Place = Held | Loose | Listed

  /** The k-th object of a span. */
  datatype Obj = Obj(span: nat, k: nat, place: Place)

  /** n objects have been carved from the span so far; list is its own free list. */
  datatype SpanUse = SpanUse(n: nat, list: seq<nat>)

  /** id names the pool in the pages' pool fields; span is the number of pages of a span. free,
      freeCount, front and back are the pool's fields; the rest is what they stand for. popped is
      the span whose list is just being emptied, or 0. */
  datatype Pool = Pool(id: nat, size: nat, span: nat, free: nat, freeCount: nat, front: nat, back: nat,
                       list: seq<nat>, loose: seq<nat>, spans: map<nat, SpanUse>, obj: map<nat, Obj>, popped: nat)

  function Addr(size: nat, s: nat, k: nat): nat {
    s * PAGE + k * size
  }

  /** How many objects a span holds. */
  function Capacity(size: nat, span: nat): nat
    requires size > 0
  {
    span * PAGE / size
  }

  ghost predicate IsHeld(v: Pool, o: nat) {
    o in v.obj && v.obj[o].place.Held?
  }

  ghost predicate IsLoose(v: Pool, o: nat) {
    o in v.obj && v.obj[o].place.Loose?
  }

  ghost predicate IsListed(v: Pool, o: nat, s: nat) {
    o in v.obj && v.obj[o].place.Listed? && v.obj[o].span == s
  }

  // ---------------------------------------------------------------- the invariant

  /** The pool's spans are those the page allocator has down as its. */
  ghost predicate SpansMatch(v: Pool, m: map<nat, Span>) {
    && (forall s :: s in v.spans <==> s in m && m[s].kind == Small(v.id))
    && (forall s :: s in v.spans ==> s in m && m[s].len == v.span)
  }

  ghost predicate ObjAt(v: Pool, s: nat, k: nat) {
    var a := Addr(v.size, s, k);
    a in v.obj && v.obj[a].span == s && v.obj[a].k == k
  }

  ghost predicate HomeOk(v: Pool, o: nat)
    requires o in v.obj
  {
    var b := v.obj[o];
    b.span in v.spans && b.k < v.spans[b.span].n && o == Addr(v.size, b.span, b.k)
  }

  /** The objects are exactly those carved. Only objects that hold a link are. */
  ghost predicate ObjsOk(v: Pool) {
    && v.size >= 1 && v.id != 0
    && (forall o :: o in v.obj ==> HomeOk(v, o))
    && (forall s, k: nat :: s in v.spans && k < v.spans[s].n ==> ObjAt(v, s, k))
    && (forall s :: s in v.spans ==> s != 0 && v.size >= WORD && v.spans[s].n <= Capacity(v.size, v.span))
  }

  ghost predicate LooseOk(v: Pool, mem: map<nat, nat>) {
    && Chain(mem, v.free, v.loose) && v.freeCount == |v.loose| && NoDup(v.loose)
    && (forall o :: o in v.loose <==> IsLoose(v, o))
  }

  ghost predicate ListOk(v: Pool, pg: seq<Page>, mem: map<nat, nat>, s: nat)
    requires s in v.spans
  {
    var c := v.spans[s];
    && s < |pg| && Chain(mem, pg[s].freelist, c.list) && NoDup(c.list) && |c.list| <= c.n
    && pg[s].nrSmallAlloc == c.n - |c.list|
    && (forall o :: o in c.list <==> IsListed(v, o, s))
  }

  ghost predicate ListsHold(v: Pool, pg: seq<Page>, mem: map<nat, nat>) {
    forall s :: s in v.spans ==> ListOk(v, pg, mem, s)
  }

  /** A span is on the pool's span list exactly when its own free list is not empty. */
  ghost predicate QueueOk(v: Pool, pg: seq<Page>) {
    && Threaded(Prevs(pg), Nexts(pg), v.front, v.back, v.list)
    && v.popped !in v.list
    && (forall s :: s in v.list ==> s in v.spans && v.spans[s].list != [])
    && (forall s :: s in v.spans && v.spans[s].list != [] && s != v.popped ==> s in v.list)
  }

  ghost predicate PoolCore(v: Pool, pg: seq<Page>, m: map<nat, Span>, mem: map<nat, nat>) {
    SpansMatch(v, m) && ObjsOk(v) && LooseOk(v, mem) && ListsHold(v, pg, mem) && QueueOk(v, pg)
  }

  ghost predicate AllCarved(v: Pool) {
    v.size > 0 && forall s :: s in v.spans ==>
      v.spans[s].n == Capacity(v.size, v.span) && |v.spans[s].list| < v.spans[s].n
  }

  /** The invariant between calls: spans are fully carved, and one all of whose objects are on its
      own list has been given back. */
  ghost predicate PoolOk(v: Pool, pg: seq<Page>, m: map<nat, Span>, mem: map<nat, nat>) {
    PoolCore(v, pg, m, mem) && AllCarved(v) && v.popped == 0
  }

  // ---------------------------------------------------------------- lists without repetitions

  lemma NoDupTail(q: seq<nat>)
    requires NoDup(q) && q != []
    ensures NoDup(q[1..]) && forall x :: x in q[1..] <==> x in q && x != q[0]
  {
    forall x | x in q && x != q[0] ensures x in q[1..] {
      var i :| 0 <= i < |q| && q[i] == x;
      assert q[1..][i - 1] == x;
    }
  }

  lemma NoDupPush(q: seq<nat>, o: nat)
    requires NoDup(q) && o !in q
    ensures NoDup([o] + q) && forall x :: x in [o] + q <==> x in q || x == o
  {
  }

  /** A list without repetitions that has as many members as a set containing it is that set. */
  lemma {:induction false} Pigeonhole(q: seq<nat>, u: set<nat>)
    requires NoDup(q) && (forall x :: x in q ==> x in u) && |u| == |q|
    ensures forall x :: x in u ==> x in q
    decreases |q|
  {
    if q != [] {
      NoDupTail(q);
      var u1 := u - {q[0]};
      assert q[0] in q;
      Pigeonhole(q[1..], u1);
      forall x | x in u ensures x in q {
        if x != q[0] { assert x in u1; }
      }
    }
  }

  // ---------------------------------------------------------------- addresses

  lemma AddrApart(size: nat, s: nat, j: nat, k: nat)
    requires size >= 1 && j < k
    ensures Addr(size, s, j) + size <= Addr(size, s, k)
  {
    MulMonotone(j + 1, k, size);
    assert (j + 1) * size == j * size + size;
  }

  /** An object lies inside its span, and its page lies in the span. */
  lemma AddrInside(size: nat, span: nat, s: nat, k: nat)
    requires size >= 1 && k < Capacity(size, span)
    ensures s * PAGE <= Addr(size, s, k) && Addr(size, s, k) + size <= (s + span) * PAGE
    ensures s <= Addr(size, s, k) / PAGE < s + span
  {
    var b := span * PAGE;
    assert b / size * size <= b;
    assert (k + 1) * size <= b / size * size by { MulMonotone(k + 1, b / size, size); }
    assert (k + 1) * size == k * size + size;
    var a := Addr(size, s, k);
    assert a / PAGE >= s && a / PAGE < s + span;
  }

  lemma MulMonotone(a: nat, b: nat, c: nat)
    requires a <= b
    ensures a * c <= b * c
  {
  }

  /** Objects of different spans are apart. */
  lemma HomesApart(v: Pool, o: nat)
    requires ObjsOk(v) && o in v.obj
    ensures o != 0 && v.obj[o].span * PAGE <= o && o + v.size <= (v.obj[o].span + v.span) * PAGE
    ensures v.obj[o].span <= o / PAGE < v.obj[o].span + v.span
  {
    assert HomeOk(v, o);
    AddrInside(v.size, v.span, v.obj[o].span, v.obj[o].k);
  }

  // ---------------------------------------------------------------- moving one object

  /** Taking the head of the pool's list. */
  ghost function PopLoose(v: Pool, mem: map<nat, nat>): Pool
    requires v.free in mem && v.free in v.obj && v.freeCount > 0 && v.loose != []
  {
    v.(free := mem[v.free], freeCount := v.freeCount - 1, loose := v.loose[1..],
       obj := v.obj[v.free := v.obj[v.free].(place := Held)])
  }

  /** Putting an object on the pool's list. */
  ghost function PushLoose(v: Pool, o: nat): Pool
    requires o in v.obj
  {
    v.(free := o, freeCount := v.freeCount + 1, loose := [o] + v.loose, obj := v.obj[o := v.obj[o].(place := Loose)])
  }

  lemma ReplacedOk(v: Pool, o: nat, p: Place)
    requires ObjsOk(v) && o in v.obj
    ensures ObjsOk(v.(obj := v.obj[o := v.obj[o].(place := p)]))
  {
    var v' := v.(obj := v.obj[o := v.obj[o].(place := p)]);
    forall x | x in v'.obj ensures HomeOk(v', x) { assert HomeOk(v, x); }
    forall s, k: nat | s in v'.spans && k < v'.spans[s].n ensures ObjAt(v', s, k) { assert ObjAt(v, s, k); }
  }

  lemma SpansMatchSame(v: Pool, v': Pool, m: map<nat, Span>)
    requires SpansMatch(v, m) && v'.id == v.id && v'.span == v.span && v'.spans.Keys == v.spans.Keys
    ensures SpansMatch(v', m)
  {
    assert forall s :: s in v'.spans <==> s in v.spans;
  }

  lemma QueueSame(v: Pool, v': Pool, pg: seq<Page>)
    requires QueueOk(v, pg) && v'.front == v.front && v'.back == v.back && v'.list == v.list && v'.popped == v.popped
             && v'.spans == v.spans
    ensures QueueOk(v', pg)
  {
    hide Threaded;
  }

  /** Neither the place of o nor the write to it concerns the list of another span, or of its own
      while o is not and will not be on it. */
  lemma ListKept(v: Pool, v': Pool, pg: seq<Page>, mem: map<nat, nat>, o: nat, w: nat, s: nat)
    requires s in v.spans && ListOk(v, pg, mem, s) && v'.spans == v.spans
    requires o !in v.spans[s].list && !IsListed(v', o, s)
    requires forall x :: x != o ==> (IsListed(v', x, s) <==> IsListed(v, x, s))
    ensures ListOk(v', pg, mem[o := w], s)
  {
    hide NoDup, Chain;
    ChainFrame(mem, mem[o := w], pg[s].freelist, v.spans[s].list);
    assert forall x :: x in v.spans[s].list <==> IsListed(v, x, s);
  }

  lemma ListKeptNoWrite(v: Pool, v': Pool, pg: seq<Page>, mem: map<nat, nat>, o: nat, s: nat)
    requires s in v.spans && ListOk(v, pg, mem, s) && v'.spans == v.spans
    requires o !in v.spans[s].list && !IsListed(v', o, s)
    requires forall x :: x != o ==> (IsListed(v', x, s) <==> IsListed(v, x, s))
    ensures ListOk(v', pg, mem, s)
  {
    hide NoDup, Chain;
    assert forall x :: x in v.spans[s].list <==> IsListed(v, x, s);
  }

  lemma PopLooseCore(v: Pool, pg: seq<Page>, m: map<nat, Span>, mem: map<nat, nat>)
    requires PoolCore(v, pg, m, mem) && v.free != 0
    ensures v.free in mem && v.free in v.obj && v.freeCount > 0 && v.loose != [] && v.loose[0] == v.free
            && IsLoose(v, v.free)
    ensures PoolCore(PopLoose(v, mem), pg, m, mem)
  {
    hide Chain, NoDup, ListOk, QueueOk, ObjsOk, SpansMatch;
    var o := v.free;
    ChainPop(mem, v.free, v.loose);
    assert o in v.loose;
    assert IsLoose(v, o);
    NoDupTail(v.loose);
    var v' := PopLoose(v, mem);
    ReplacedOk(v, o, Held);
    ObjsSame(v.(obj := v'.obj), v');
    SpansMatchSame(v, v', m);
    QueueSame(v, v', pg);
    forall x ensures x in v'.loose <==> IsLoose(v', x) { assert x in v.loose <==> IsLoose(v, x); }
    forall s | s in v'.spans
      ensures ListOk(v', pg, mem, s)
    {
      LooseNotListed(v, pg, mem, o, s);
      ListKeptNoWrite(v, v', pg, mem, o, s);
    }
  }

  lemma ObjsSame(v: Pool, v': Pool)
    requires ObjsOk(v) && v'.obj == v.obj && v'.spans == v.spans && v'.size == v.size && v'.span == v.span
             && v'.id == v.id
    ensures ObjsOk(v')
  {
    forall x | x in v'.obj ensures HomeOk(v', x) { assert HomeOk(v, x); }
    forall s, k: nat | s in v'.spans && k < v'.spans[s].n ensures ObjAt(v', s, k) { assert ObjAt(v, s, k); }
  }

  lemma LooseNotListed(v: Pool, pg: seq<Page>, mem: map<nat, nat>, o: nat, s: nat)
    requires s in v.spans && ListOk(v, pg, mem, s) && o in v.obj && !v.obj[o].place.Listed?
    ensures o !in v.spans[s].list
  {
    hide NoDup, Chain;
  }

  lemma PushLooseCore(v: Pool, pg: seq<Page>, m: map<nat, Span>, mem: map<nat, nat>, o: nat)
    requires PoolCore(v, pg, m, mem) && IsHeld(v, o)
    ensures PoolCore(PushLoose(v, o), pg, m, mem[o := v.free])
  {
    hide Chain, NoDup, ListOk, QueueOk, SpansMatch, ObjsOk;
    HomesApart(v, o);
    assert o !in v.loose;
    ChainPush(mem, v.free, v.loose, o);
    NoDupPush(v.loose, o);
    var v' := PushLoose(v, o);
    ReplacedOk(v, o, Loose);
    ObjsSame(v.(obj := v'.obj), v');
    SpansMatchSame(v, v', m);
    QueueSame(v, v', pg);
    forall x ensures x in v'.loose <==> IsLoose(v', x) { assert x in v.loose <==> IsLoose(v, x); }
    forall s | s in v'.spans
      ensures ListOk(v', pg, mem[o := v.free], s)
    {
      LooseNotListed(v, pg, mem, o, s);
      ListKept(v, v', pg, mem, o, v.free, s);
    }
  }

  // ---------------------------------------------------------------- between the pool's list and a span's

  /** The page fields a small pool reads are the same for every span but s. */
  ghost predicate HeadsKept(v: Pool, pg: seq<Page>, pg': seq<Page>, s: nat) {
    && |pg'| == |pg|
    && forall t :: t in v.spans && t != s && t < |pg| ==>
         pg'[t].freelist == pg[t].freelist && pg'[t].nrSmallAlloc == pg[t].nrSmallAlloc
  }

  /** trim_free_list moves the head of the pool's list to the list of its span. */
  ghost function ToList(v: Pool, mem: map<nat, nat>, front: nat, back: nat): Pool
    requires v.free in mem && v.free in v.obj && v.obj[v.free].span in v.spans && v.freeCount > 0 && v.loose != []
  {
    var o := v.free;
    var s := v.obj[o].span;
    var c := v.spans[s];
    v.(free := mem[o], freeCount := v.freeCount - 1, loose := v.loose[1..],
       spans := v.spans[s := SpanUse(c.n, [o] + c.list)], obj := v.obj[o := v.obj[o].(place := Listed)],
       front := front, back := back, list := if c.list == [] then [s] + v.list else v.list)
  }

  lemma SpansGrown(v: Pool, v': Pool, s: nat)
    requires ObjsOk(v) && s in v.spans && s in v'.spans && v'.spans == v.spans[s := v'.spans[s]]
             && v'.spans[s].n == v.spans[s].n
    requires v'.obj == v.obj && v'.size == v.size && v'.span == v.span && v'.id == v.id
    ensures ObjsOk(v')
  {
    forall x | x in v'.obj ensures HomeOk(v', x) { assert HomeOk(v, x); }
    forall t, k: nat | t in v'.spans && k < v'.spans[t].n ensures ObjAt(v', t, k) { assert ObjAt(v, t, k); }
  }

  lemma ToListObjs(v: Pool, mem: map<nat, nat>, front: nat, back: nat)
    requires ObjsOk(v) && v.free in mem && v.free in v.obj && v.freeCount > 0 && v.loose != []
    ensures v.obj[v.free].span in v.spans && ObjsOk(ToList(v, mem, front, back))
  {
    var o := v.free;
    assert HomeOk(v, o);
    ReplacedOk(v, o, Listed);
    hide ObjsOk;
    SpansGrown(v.(obj := v.obj[o := v.obj[o].(place := Listed)]), ToList(v, mem, front, back), v.obj[o].span);
  }

  lemma ToListLoose(v: Pool, mem: map<nat, nat>, w: nat, front: nat, back: nat)
    requires LooseOk(v, mem) && v.free != 0 && v.free in v.obj && v.obj[v.free].span in v.spans
    ensures v.loose != [] && v.free in mem && v.freeCount > 0 && LooseOk(ToList(v, mem, front, back), mem[v.free := w])
  {
    hide Chain, NoDup;
    var o := v.free;
    ChainPop(mem, o, v.loose);
    NoDupTail(v.loose);
    var v' := ToList(v, mem, front, back);
    ChainFrame(mem, mem[o := w], mem[o], v.loose[1..]);
    forall x ensures x in v'.loose <==> IsLoose(v', x) { assert x in v.loose <==> IsLoose(v, x); }
  }

  lemma ToListOwn(v: Pool, pg: seq<Page>, mem: map<nat, nat>, pg': seq<Page>, front: nat, back: nat)
    requires v.free != 0 && v.free in mem && v.free in v.obj && v.obj[v.free].place.Loose? && v.freeCount > 0
             && v.loose != []
    requires var s := v.obj[v.free].span;
             s in v.spans && ListOk(v, pg, mem, s) && |v.spans[s].list| < v.spans[s].n && s < |pg'|
             && pg'[s].freelist == v.free && pg'[s].nrSmallAlloc == pg[s].nrSmallAlloc - 1
    ensures var s := v.obj[v.free].span; ListOk(ToList(v, mem, front, back), pg', mem[v.free := pg[s].freelist], s)
  {
    hide Chain, NoDup;
    var o := v.free;
    var s := v.obj[o].span;
    var q := v.spans[s].list;
    LooseNotListed(v, pg, mem, o, s);
    ChainPush(mem, pg[s].freelist, q, o);
    NoDupPush(q, o);
    var v' := ToList(v, mem, front, back);
    forall x ensures x in [o] + q <==> IsListed(v', x, s) { assert x in q <==> IsListed(v, x, s); }
  }

  /** The lists of the other spans. */
  lemma OtherList(v: Pool, v': Pool, pg: seq<Page>, pg': seq<Page>, mem: map<nat, nat>, o: nat, w: nat, s: nat, t: nat)
    requires t in v.spans && t in v'.spans && t != s && ListOk(v, pg, mem, t) && v'.spans[t] == v.spans[t]
             && HeadsKept(v, pg, pg', s)
    requires o in v.obj ==> v.obj[o].span == s
    requires o in v'.obj ==> v'.obj[o].span == s
    requires forall x :: x != o ==> (IsListed(v', x, t) <==> IsListed(v, x, t))
    ensures ListOk(v', pg', mem[o := w], t)
  {
    hide NoDup, Chain;
    var q := v.spans[t].list;
    forall x ensures x in q <==> IsListed(v', x, t) { assert x in q <==> IsListed(v, x, t); }
    assert o !in q;
    ChainFrame(mem, mem[o := w], pg[t].freelist, q);
  }

  lemma ToListQueue(v: Pool, mem: map<nat, nat>, pg: seq<Page>, pg': seq<Page>, front: nat, back: nat)
    requires QueueOk(v, pg) && v.popped == 0
    requires v.free in mem && v.free in v.obj && v.obj[v.free].span in v.spans && v.obj[v.free].span != 0
             && v.freeCount > 0 && v.loose != []
    requires Threaded(Prevs(pg'), Nexts(pg'), front, back, ToList(v, mem, front, back).list)
    ensures QueueOk(ToList(v, mem, front, back), pg')
  {
    hide Threaded;
  }

  lemma ToListCore(v: Pool, pg: seq<Page>, m: map<nat, Span>, mem: map<nat, nat>, pg': seq<Page>, front: nat, back: nat)
    requires PoolCore(v, pg, m, mem) && v.free != 0 && v.popped == 0
    requires v.free in mem && v.free in v.obj && v.obj[v.free].span in v.spans && v.freeCount > 0 && v.loose != []
    requires var s := v.obj[v.free].span;
             && s < |pg| == |pg'| && |v.spans[s].list| < v.spans[s].n
             && pg'[s].freelist == v.free && pg'[s].nrSmallAlloc == pg[s].nrSmallAlloc - 1
             && HeadsKept(v, pg, pg', s)
    requires Threaded(Prevs(pg'), Nexts(pg'), front, back, ToList(v, mem, front, back).list)
    ensures PoolCore(ToList(v, mem, front, back), pg', m, mem[v.free := pg[v.obj[v.free].span].freelist])
  {
    hide Chain, NoDup, ListOk, QueueOk, SpansMatch, ObjsOk, Threaded, HeadsKept;
    var o := v.free;
    var s := v.obj[o].span;
    var v' := ToList(v, mem, front, back);
    PopLooseCore(v, pg, m, mem);
    ToListObjs(v, mem, front, back);
    SpansMatchSame(v, v', m);
    SpanNotNull(v, s);
    ToListLoose(v, mem, pg[s].freelist, front, back);
    ToListQueue(v, mem, pg, pg', front, back);
    forall t | t in v'.spans ensures ListOk(v', pg', mem[o := pg[s].freelist], t) {
      if t == s { ToListOwn(v, pg, mem, pg', front, back); }
      else { OtherList(v, v', pg, pg', mem, o, pg[s].freelist, s, t); }
    }
  }

  lemma SpanNotNull(v: Pool, s: nat)
    requires ObjsOk(v) && s in v.spans
    ensures s != 0 && v.spans[s].n <= Capacity(v.size, v.span)
  {
  }

  /** add_more_objects moves the head of a span's list to the pool's list. */
  ghost function FromList(v: Pool, s: nat): Pool
    requires s in v.spans && v.spans[s].list != [] && v.spans[s].list[0] in v.obj
  {
    var c := v.spans[s];
    var o := c.list[0];
    v.(free := o, freeCount := v.freeCount + 1, loose := [o] + v.loose,
       spans := v.spans[s := SpanUse(c.n, c.list[1..])], obj := v.obj[o := v.obj[o].(place := Loose)])
  }

  lemma FromListObjs(v: Pool, s: nat)
    requires ObjsOk(v) && s in v.spans && v.spans[s].list != [] && v.spans[s].list[0] in v.obj
    ensures ObjsOk(FromList(v, s))
  {
    var o := v.spans[s].list[0];
    ReplacedOk(v, o, Loose);
    hide ObjsOk;
    SpansGrown(v.(obj := v.obj[o := v.obj[o].(place := Loose)]), FromList(v, s), s);
  }

  lemma FromListLoose(v: Pool, mem: map<nat, nat>, s: nat)
    requires LooseOk(v, mem) && s in v.spans && v.spans[s].list != [] && IsListed(v, v.spans[s].list[0], s)
             && v.spans[s].list[0] != 0
    ensures LooseOk(FromList(v, s), mem[v.spans[s].list[0] := v.free])
  {
    hide Chain, NoDup;
    var o := v.spans[s].list[0];
    assert o !in v.loose by { assert !IsLoose(v, o); }
    ChainPush(mem, v.free, v.loose, o);
    NoDupPush(v.loose, o);
    var v' := FromList(v, s);
    forall x ensures x in v'.loose <==> IsLoose(v', x) { assert x in v.loose <==> IsLoose(v, x); }
  }

  lemma FromListOwn(v: Pool, pg: seq<Page>, mem: map<nat, nat>, pg': seq<Page>, s: nat)
    requires s in v.spans && ListOk(v, pg, mem, s) && v.spans[s].list != [] && v.spans[s].list[0] in mem
             && v.spans[s].list[0] in v.obj
    requires s < |pg'| && pg'[s].freelist == mem[v.spans[s].list[0]] && pg'[s].nrSmallAlloc == pg[s].nrSmallAlloc + 1
    ensures ListOk(FromList(v, s), pg', mem[v.spans[s].list[0] := v.free], s)
  {
    hide Chain, NoDup;
    var q := v.spans[s].list;
    var o := q[0];
    ChainEmpty(mem, pg[s].freelist, q);
    ChainPop(mem, pg[s].freelist, q);
    NoDupTail(q);
    ChainFrame(mem, mem[o := v.free], mem[o], q[1..]);
    var v' := FromList(v, s);
    forall x ensures x in q[1..] <==> IsListed(v', x, s) { assert x in q <==> IsListed(v, x, s); }
  }

  lemma ListHead(v: Pool, pg: seq<Page>, mem: map<nat, nat>, s: nat)
    requires s in v.spans && ListOk(v, pg, mem, s)
    ensures s < |pg| && (pg[s].freelist == 0 <==> v.spans[s].list == [])
            && pg[s].nrSmallAlloc == v.spans[s].n - |v.spans[s].list|
    ensures v.spans[s].list != [] ==>
              v.spans[s].list[0] == pg[s].freelist && pg[s].freelist in mem && IsListed(v, pg[s].freelist, s)
  {
    var q := v.spans[s].list;
    if q != [] { assert q[0] in q; }
  }

  lemma FromListQueue(v: Pool, pg: seq<Page>, pg': seq<Page>, s: nat)
    requires QueueOk(v, pg) && v.popped == s && s in v.spans && v.spans[s].list != [] && v.spans[s].list[0] in v.obj
    requires Threaded(Prevs(pg'), Nexts(pg'), v.front, v.back, v.list)
    ensures QueueOk(FromList(v, s), pg')
  {
    hide Threaded;
  }

  lemma FromListCore(v: Pool, pg: seq<Page>, m: map<nat, Span>, mem: map<nat, nat>, pg': seq<Page>, s: nat)
    requires PoolCore(v, pg, m, mem) && v.popped == s && s in v.spans && s < |pg| == |pg'| && pg[s].freelist != 0
             && pg[s].freelist in mem
    requires pg'[s].freelist == mem[pg[s].freelist] && pg'[s].nrSmallAlloc == pg[s].nrSmallAlloc + 1
             && HeadsKept(v, pg, pg', s)
    requires Threaded(Prevs(pg'), Nexts(pg'), v.front, v.back, v.list)
    requires v.spans[s].list != [] && v.spans[s].list[0] == pg[s].freelist && pg[s].freelist in v.obj
    ensures PoolCore(FromList(v, s), pg', m, mem[pg[s].freelist := v.free])
  {
    hide Chain, NoDup, ListOk, QueueOk, SpansMatch, ObjsOk, LooseOk, Threaded, HeadsKept;
    var o := pg[s].freelist;
    var v' := FromList(v, s);
    ListHead(v, pg, mem, s);
    FromListObjs(v, s);
    SpansMatchSame(v, v', m);
    FromListLoose(v, mem, s);
    FromListQueue(v, pg, pg', s);
    forall t | t in v'.spans ensures ListOk(v', pg', mem[o := v.free], t) {
      if t == s { FromListOwn(v, pg, mem, pg', s); }
      else { OtherList(v, v', pg, pg', mem, o, v.free, s, t); }
    }
  }

  /** pop_front of the span list, and the end of the emptied span's turn. */
  lemma PopQueueCore(v: Pool, pg: seq<Page>, m: map<nat, Span>, mem: map<nat, nat>, pg': seq<Page>, front: nat,
                     back: nat)
    requires PoolCore(v, pg, m, mem) && v.popped == 0 && v.list != [] && HeadsKept(v, pg, pg', 0)
    requires Threaded(Prevs(pg'), Nexts(pg'), front, back, v.list[1..])
    ensures PoolCore(v.(front := front, back := back, list := v.list[1..], popped := v.list[0]), pg', m, mem)
    ensures v.list[0] in v.spans && v.list[0] != 0
  {
    hide Chain, NoDup, ListOk, SpansMatch, ObjsOk, LooseOk, Threaded, HeadsKept, QueueOk;
    var v' := v.(front := front, back := back, list := v.list[1..], popped := v.list[0]);
    ObjsSame(v, v');
    SpansMatchSame(v, v', m);
    LooseSame(v, v', mem);
    PopQueue(v, pg, pg', front, back);
    SpanNotNull(v, v.list[0]);
    forall t | t in v'.spans ensures ListOk(v', pg', mem, t) { SpanNotNull(v, t); ListSame(v, v', pg, pg', mem, 0, t); }
  }

  lemma PopQueue(v: Pool, pg: seq<Page>, pg': seq<Page>, front: nat, back: nat)
    requires QueueOk(v, pg) && ObjsOk(v) && v.popped == 0 && v.list != []
    requires Threaded(Prevs(pg'), Nexts(pg'), front, back, v.list[1..])
    ensures QueueOk(v.(front := front, back := back, list := v.list[1..], popped := v.list[0]), pg')
            && v.list[0] in v.spans
  {
    hide ThreadAt;
    assert v.list[0] in v.list;
    NoDupTail(v.list);
    forall x | x in v.spans ensures x != 0 { SpanNotNull(v, x); }
  }

  lemma LooseSame(v: Pool, v': Pool, mem: map<nat, nat>)
    requires LooseOk(v, mem) && v'.free == v.free && v'.freeCount == v.freeCount && v'.loose == v.loose
             && v'.obj == v.obj
    ensures LooseOk(v', mem)
  {
    hide Chain, NoDup;
    forall x ensures x in v'.loose <==> IsLoose(v', x) { assert x in v.loose <==> IsLoose(v, x); }
  }

  lemma ListSame(v: Pool, v': Pool, pg: seq<Page>, pg': seq<Page>, mem: map<nat, nat>, s: nat, t: nat)
    requires t in v.spans && t in v'.spans && t != s && ListOk(v, pg, mem, t) && v'.spans[t] == v.spans[t]
             && HeadsKept(v, pg, pg', s)
    requires forall x :: IsListed(v', x, t) <==> IsListed(v, x, t)
    ensures ListOk(v', pg', mem, t)
  {
    hide NoDup, Chain;
    forall x
      ensures x in v.spans[t].list <==> IsListed(v', x, t)
    {
      assert x in v.spans[t].list <==> IsListed(v, x, t);
    }
  }

  lemma UnpopCore(v: Pool, pg: seq<Page>, m: map<nat, Span>, mem: map<nat, nat>)
    requires PoolCore(v, pg, m, mem) && v.popped in v.spans && v.spans[v.popped].list == []
    ensures PoolCore(v.(popped := 0), pg, m, mem)
  {
    hide Chain, NoDup, ListOk, SpansMatch, ObjsOk, LooseOk, Threaded, QueueOk;
    var v' := v.(popped := 0);
    ObjsSame(v, v');
    SpansMatchSame(v, v', m);
    LooseSame(v, v', mem);
    UnpopQueue(v, pg, m);
    assert HeadsKept(v, pg, pg, 0);
    forall t | t in v'.spans ensures ListOk(v', pg, mem, t) { SpanNotNull(v, t); ListSame(v, v', pg, pg, mem, 0, t); }
  }

  lemma UnpopQueue(v: Pool, pg: seq<Page>, m: map<nat, Span>)
    requires QueueOk(v, pg) && ObjsOk(v) && v.popped in v.spans && v.spans[v.popped].list == []
    ensures QueueOk(v.(popped := 0), pg)
  {
    hide Threaded;
    forall x | x in v.list ensures x != 0 { SpanNotNull(v, x); }
  }

  // ---------------------------------------------------------------- gaining and losing a span

  /** A span the pool has just adopted. */
  ghost function AddSpan(v: Pool, s: nat): Pool {
    v.(spans := v.spans[s := SpanUse(0, [])])
  }

  lemma NotHome(v: Pool, s: nat)
    requires ObjsOk(v) && s !in v.spans
    ensures forall o :: o in v.obj ==> v.obj[o].span != s
  {
    forall o | o in v.obj ensures v.obj[o].span != s { assert HomeOk(v, o); }
  }

  lemma AddSpanObjs(v: Pool, s: nat)
    requires ObjsOk(v) && s !in v.spans && s != 0 && v.size >= WORD
    ensures ObjsOk(AddSpan(v, s))
  {
    var v' := AddSpan(v, s);
    forall x | x in v'.obj ensures HomeOk(v', x) { assert HomeOk(v, x); }
    forall t, k: nat | t in v'.spans && k < v'.spans[t].n ensures ObjAt(v', t, k) { assert ObjAt(v, t, k); }
  }

  lemma AddSpanCore(v: Pool, pg: seq<Page>, m: map<nat, Span>, mem: map<nat, nat>, pg': seq<Page>, m': map<nat, Span>,
                    s: nat)
    requires PoolCore(v, pg, m, mem) && s !in v.spans && s != 0 && v.popped == 0 && v.size >= WORD
    requires HeadsKept(v, pg, pg', s) && s < |pg'| && pg'[s].freelist == 0 && pg'[s].nrSmallAlloc == 0
    requires Threaded(Prevs(pg'), Nexts(pg'), v.front, v.back, v.list)
    requires SpansMatch(AddSpan(v, s), m')
    ensures PoolCore(AddSpan(v, s), pg', m', mem)
  {
    hide Chain, NoDup, ListOk, SpansMatch, ObjsOk, LooseOk, Threaded, QueueOk, HeadsKept;
    var v' := AddSpan(v, s);
    AddSpanObjs(v, s);
    NotHome(v, s);
    LooseSame(v, v', mem);
    AddSpanQueue(v, pg, pg', s);
    forall t | t in v'.spans ensures ListOk(v', pg', mem, t) {
      if t == s { AddSpanOwn(v, pg', mem, s); }
      else { ListSame(v, v', pg, pg', mem, s, t); }
    }
  }

  lemma AddSpanOwn(v: Pool, pg': seq<Page>, mem: map<nat, nat>, s: nat)
    requires s < |pg'| && pg'[s].freelist == 0 && pg'[s].nrSmallAlloc == 0 && forall o :: o in v.obj ==>
               v.obj[o].span != s
    ensures ListOk(AddSpan(v, s), pg', mem, s)
  {
  }

  lemma AddSpanQueue(v: Pool, pg: seq<Page>, pg': seq<Page>, s: nat)
    requires QueueOk(v, pg) && s !in v.spans
    requires Threaded(Prevs(pg'), Nexts(pg'), v.front, v.back, v.list)
    ensures QueueOk(AddSpan(v, s), pg')
  {
    hide Threaded;
  }

  /** The next object carved from span s goes on the pool's list. */
  ghost function CarveOne(v: Pool, s: nat): Pool
    requires s in v.spans
  {
    var c := v.spans[s];
    var o := Addr(v.size, s, c.n);
    v.(free := o, freeCount := v.freeCount + 1, loose := [o] + v.loose,
       spans := v.spans[s := SpanUse(c.n + 1, c.list)], obj := v.obj[o := Obj(s, c.n, Loose)])
  }

  /** It is a new object: the spans do not overlap and its place in its own is the first unused. */
  lemma CarveFresh(v: Pool, m: map<nat, Span>, s: nat)
    requires ObjsOk(v) && SpansMatch(v, m) && SpansDisjoint(m) && s in v.spans
             && v.spans[s].n < Capacity(v.size, v.span)
    ensures Addr(v.size, s, v.spans[s].n) !in v.obj && Addr(v.size, s, v.spans[s].n) != 0
  {
    var n := v.spans[s].n;
    var a := Addr(v.size, s, n);
    AddrInside(v.size, v.span, s, n);
    if a in v.obj {
      HomesApart(v, a);
      var b := v.obj[a];
      assert HomeOk(v, a);
      SamePage(m, s, b.span, a / PAGE, v.span);
      AddrApart(v.size, s, b.k, n);
    }
  }

  lemma SamePage(m: map<nat, Span>, s: nat, t: nat, i: nat, len: nat)
    requires SpansDisjoint(m) && s in m && t in m && m[s].len == m[t].len == len && s <= i < s + len && t <= i < t + len
    ensures s == t
  {
  }

  lemma CarveObjs(v: Pool, s: nat)
    requires ObjsOk(v) && s in v.spans && v.spans[s].n < Capacity(v.size, v.span)
             && Addr(v.size, s, v.spans[s].n) !in v.obj
    ensures ObjsOk(CarveOne(v, s))
  {
    var v' := CarveOne(v, s);
    forall x | x in v'.obj ensures HomeOk(v', x) { if x in v.obj { assert HomeOk(v, x); } }
    forall t, k: nat | t in v'.spans && k < v'.spans[t].n ensures ObjAt(v', t, k) {
      if t != s || k < v.spans[s].n { assert ObjAt(v, t, k); }
    }
  }

  lemma CarveLoose(v: Pool, mem: map<nat, nat>, s: nat)
    requires LooseOk(v, mem) && s in v.spans && Addr(v.size, s, v.spans[s].n) !in v.obj
             && Addr(v.size, s, v.spans[s].n) != 0
    ensures LooseOk(CarveOne(v, s), mem[Addr(v.size, s, v.spans[s].n) := v.free])
  {
    hide Chain, NoDup, Addr;
    var o := Addr(v.size, s, v.spans[s].n);
    assert o !in v.loose by { assert !IsLoose(v, o); }
    ChainPush(mem, v.free, v.loose, o);
    NoDupPush(v.loose, o);
    var v' := CarveOne(v, s);
    forall x ensures x in v'.loose <==> IsLoose(v', x) { assert x in v.loose <==> IsLoose(v, x); }
  }

  lemma CarveQueue(v: Pool, pg: seq<Page>, pg': seq<Page>, s: nat)
    requires QueueOk(v, pg) && s in v.spans
    requires Threaded(Prevs(pg'), Nexts(pg'), v.front, v.back, v.list)
    ensures QueueOk(CarveOne(v, s), pg')
  {
    hide Threaded, Addr;
  }

  lemma CarveOwn(v: Pool, pg: seq<Page>, pg': seq<Page>, mem: map<nat, nat>, s: nat)
    requires s in v.spans && ListOk(v, pg, mem, s) && Addr(v.size, s, v.spans[s].n) !in v.obj
    requires s < |pg'| && pg'[s].freelist == pg[s].freelist && pg'[s].nrSmallAlloc == pg[s].nrSmallAlloc + 1
    ensures ListOk(CarveOne(v, s), pg', mem[Addr(v.size, s, v.spans[s].n) := v.free], s)
  {
    hide Chain, NoDup, Addr;
    var o := Addr(v.size, s, v.spans[s].n);
    var q := v.spans[s].list;
    var v' := CarveOne(v, s);
    assert o !in q by { assert !IsListed(v, o, s); }
    ChainFrame(mem, mem[o := v.free], pg[s].freelist, q);
    forall x ensures x in q <==> IsListed(v', x, s) { assert x in q <==> IsListed(v, x, s); }
  }

  lemma CarveOneCore(v: Pool, pg: seq<Page>, m: map<nat, Span>, mem: map<nat, nat>, pg': seq<Page>, s: nat)
    requires PoolCore(v, pg, m, mem) && SpansDisjoint(m) && s in v.spans && v.spans[s].n < Capacity(v.size, v.span)
    requires s < |pg| == |pg'| && pg'[s].freelist == pg[s].freelist && pg'[s].nrSmallAlloc == pg[s].nrSmallAlloc + 1
             && HeadsKept(v, pg, pg', s)
    requires Threaded(Prevs(pg'), Nexts(pg'), v.front, v.back, v.list)
    ensures PoolCore(CarveOne(v, s), pg', m, mem[Addr(v.size, s, v.spans[s].n) := v.free])
  {
    hide Chain, NoDup, ListOk, SpansMatch, ObjsOk, LooseOk, Threaded, QueueOk, HeadsKept, Addr;
    var o := Addr(v.size, s, v.spans[s].n);
    var v' := CarveOne(v, s);
    SizePositive(v);
    CarveFresh(v, m, s);
    CarveObjs(v, s);
    SpansMatchSame(v, v', m);
    CarveLoose(v, mem, s);
    CarveQueue(v, pg, pg', s);
    forall t | t in v'.spans ensures ListOk(v', pg', mem[o := v.free], t) {
      if t == s { CarveOwn(v, pg, pg', mem, s); }
      else { OtherList(v, v', pg, pg', mem, o, v.free, s, t); }
    }
  }

  lemma SizePositive(v: Pool)
    requires ObjsOk(v)
    ensures v.size >= 1 && v.id != 0
  {
  }

  /** A span given back, with the objects carved from it. */
  ghost function DropSpan(v: Pool, s: nat, front: nat, back: nat): Pool {
    v.(spans := v.spans - {s}, obj := map o | o in v.obj && v.obj[o].span != s :: v.obj[o],
       front := front, back := back, list := Without(v.list, s))
  }

  ghost function SlotsOf(size: nat, s: nat, n: nat): set<nat> {
    if n == 0 then {} else SlotsOf(size, s, n - 1) + {Addr(size, s, n - 1)}
  }

  lemma {:induction false} SlotIn(size: nat, s: nat, n: nat, k: nat)
    requires k < n
    ensures Addr(size, s, k) in SlotsOf(size, s, n)
  {
    hide Addr;
    if k < n - 1 { SlotIn(size, s, n - 1, k); }
  }

  lemma {:induction false} LaterSlot(size: nat, s: nat, n: nat, k: nat)
    requires size >= 1 && n <= k
    ensures Addr(size, s, k) !in SlotsOf(size, s, n)
  {
    hide Addr;
    if n > 0 {
      LaterSlot(size, s, n - 1, k);
      AddrApart(size, s, n - 1, k);
    }
  }

  lemma {:induction false} SlotsCount(size: nat, s: nat, n: nat)
    requires size >= 1
    ensures |SlotsOf(size, s, n)| == n
  {
    hide Addr;
    if n > 0 {
      SlotsCount(size, s, n - 1);
      LaterSlot(size, s, n - 1, n - 1);
    }
  }

  /** When a span's counter reaches zero, every object carved from it is on its own list: none is
      held by a client and none is loose. */
  lemma NoneMissing(v: Pool, pg: seq<Page>, mem: map<nat, nat>, s: nat)
    requires ObjsOk(v) && s in v.spans && ListOk(v, pg, mem, s) && pg[s].nrSmallAlloc == 0
    ensures forall o :: o in v.obj && v.obj[o].span == s ==> IsListed(v, o, s)
  {
    hide Chain, Addr;
    var q, n := v.spans[s].list, v.spans[s].n;
    var u := SlotsOf(v.size, s, n);
    SlotsCount(v.size, s, n);
    forall x | x in q ensures x in u {
      assert IsListed(v, x, s);
      assert HomeOk(v, x);
      SlotIn(v.size, s, n, v.obj[x].k);
    }
    Pigeonhole(q, u);
    forall o | o in v.obj && v.obj[o].span == s ensures IsListed(v, o, s) {
      assert HomeOk(v, o);
      SlotIn(v.size, s, n, v.obj[o].k);
    }
  }

  lemma DropSpanObjs(v: Pool, s: nat, front: nat, back: nat)
    requires ObjsOk(v)
    ensures ObjsOk(DropSpan(v, s, front, back))
  {
    var v' := DropSpan(v, s, front, back);
    forall x | x in v'.obj ensures HomeOk(v', x) { assert HomeOk(v, x); }
    forall t, k: nat | t in v'.spans && k < v'.spans[t].n ensures ObjAt(v', t, k) { assert ObjAt(v, t, k); }
  }

  lemma DropSpanQueue(v: Pool, pg: seq<Page>, pg': seq<Page>, s: nat, front: nat, back: nat)
    requires QueueOk(v, pg) && v.popped == 0 && Threaded(Prevs(pg'), Nexts(pg'), front, back, Without(v.list, s))
    ensures QueueOk(DropSpan(v, s, front, back), pg')
  {
    hide ThreadAt;
    WithoutMembers(v.list, s);
  }

  lemma DropSpanLoose(v: Pool, mem: map<nat, nat>, s: nat, front: nat, back: nat)
    requires LooseOk(v, mem) && forall o :: o in v.obj && v.obj[o].span == s ==> IsListed(v, o, s)
    ensures LooseOk(DropSpan(v, s, front, back), mem)
  {
    hide Chain, NoDup, Without;
    var v' := DropSpan(v, s, front, back);
    forall x ensures x in v'.loose <==> IsLoose(v', x) { assert x in v.loose <==> IsLoose(v, x); }
  }

  lemma DropSpanCore(v: Pool, pg: seq<Page>, m: map<nat, Span>, mem: map<nat, nat>, pg': seq<Page>, m': map<nat, Span>,
                     s: nat, front: nat, back: nat)
    requires PoolCore(v, pg, m, mem) && v.popped == 0 && s in v.spans && s < |pg| && pg[s].nrSmallAlloc == 0
    requires HeadsKept(v, pg, pg', s) && Threaded(Prevs(pg'), Nexts(pg'), front, back, Without(v.list, s))
    requires SpansMatch(DropSpan(v, s, front, back), m')
    ensures PoolCore(DropSpan(v, s, front, back), pg', m', mem)
    ensures forall o :: IsHeld(DropSpan(v, s, front, back), o) <==> IsHeld(v, o)
  {
    hide Chain, NoDup, ListOk, SpansMatch, ObjsOk, LooseOk, Threaded, QueueOk, HeadsKept, Without;
    var v' := DropSpan(v, s, front, back);
    NoneMissing(v, pg, mem, s);
    DropSpanObjs(v, s, front, back);
    DropSpanLoose(v, mem, s, front, back);
    DropSpanQueue(v, pg, pg', s, front, back);
    forall t | t in v'.spans ensures ListOk(v', pg', mem, t) { ListSame(v, v', pg, pg', mem, s, t); }
  }

  // ---------------------------------------------------------------- frames

  ghost predicate OwnedBy(m: map<nat, Span>, s: nat, id: nat) {
    s in m && m[s].kind == Small(id)
  }

  /** A pool's own page fields, and its links. */
  ghost predicate SameHead(pg: seq<Page>, pg': seq<Page>, s: nat) {
    s < |pg| ==> s < |pg'| && pg'[s].freelist == pg[s].freelist && pg'[s].nrSmallAlloc == pg[s].nrSmallAlloc
                 && pg'[s].prev == pg[s].prev && pg'[s].next == pg[s].next
  }

  /** Nothing has happened to the spans of pool id. */
  ghost predicate PoolKept(id: nat, pg: seq<Page>, m: map<nat, Span>, pg': seq<Page>, m': map<nat, Span>) {
    && (forall s :: OwnedBy(m, s, id) <==> OwnedBy(m', s, id))
    && (forall s :: OwnedBy(m, s, id) ==> m'[s].len == m[s].len && SameHead(pg, pg', s))
  }

  ghost predicate SameWord(mem: map<nat, nat>, mem': map<nat, nat>, o: nat) {
    (o in mem' <==> o in mem) && (o in mem ==> mem'[o] == mem[o])
  }

  /** Nothing has been written to the objects clients hold. */
  ghost predicate HeldWords(v: Pool, mem: map<nat, nat>, mem': map<nat, nat>) {
    forall o :: IsHeld(v, o) ==> SameWord(mem, mem', o)
  }

  /** The objects whose first words are links. */
  ghost function FreeObjs(v: Pool): set<nat> {
    set o | o in v.obj && !v.obj[o].place.Held?
  }

  ghost predicate WordsKept(keys: set<nat>, mem: map<nat, nat>, mem': map<nat, nat>) {
    forall o :: o in keys && o in mem ==> o in mem' && mem'[o] == mem[o]
  }

  lemma KeptSpans(v: Pool, pg: seq<Page>, m: map<nat, Span>, pg': seq<Page>, m': map<nat, Span>)
    requires SpansMatch(v, m) && PoolKept(v.id, pg, m, pg', m')
    ensures SpansMatch(v, m')
  {
    hide SameHead;
    forall s
      ensures s in v.spans <==> s in m' && m'[s].kind == Small(v.id)
    {
      assert OwnedBy(m, s, v.id) <==> OwnedBy(m', s, v.id);
    }
    forall s | s in v.spans ensures s in m' && m'[s].len == v.span { assert OwnedBy(m, s, v.id); }
  }

  lemma KeptQueue(v: Pool, pg: seq<Page>, pg': seq<Page>)
    requires QueueOk(v, pg) && forall s :: s in v.spans ==> SameHead(pg, pg', s)
    ensures QueueOk(v, pg')
  {
    hide NoDup;
    forall k | 0 <= k < |v.list| ensures ThreadAt(Prevs(pg'), Nexts(pg'), v.list, k) {
      assert ThreadAt(Prevs(pg), Nexts(pg), v.list, k);
      assert v.list[k] in v.list;
      assert SameHead(pg, pg', v.list[k]);
    }
  }

  lemma KeptLoose(v: Pool, mem: map<nat, nat>, mem': map<nat, nat>)
    requires LooseOk(v, mem) && WordsKept(FreeObjs(v), mem, mem')
    ensures LooseOk(v, mem')
  {
    hide Chain, NoDup;
    forall o | o in v.loose ensures o in FreeObjs(v) { assert IsLoose(v, o); }
    ChainFrame(mem, mem', v.free, v.loose);
  }

  lemma KeptList(v: Pool, pg: seq<Page>, pg': seq<Page>, mem: map<nat, nat>, mem': map<nat, nat>, s: nat)
    requires s in v.spans && ListOk(v, pg, mem, s) && SameHead(pg, pg', s) && WordsKept(FreeObjs(v), mem, mem')
    ensures ListOk(v, pg', mem', s)
  {
    hide Chain, NoDup;
    var q := v.spans[s].list;
    forall o | o in q ensures o in FreeObjs(v) { assert IsListed(v, o, s); }
    ChainFrame(mem, mem', pg[s].freelist, q);
  }

  /** What leaves a pool's spans and the words of its free objects alone keeps its invariant: clients
      may write to the objects they hold. */
  lemma KeptCore(v: Pool, pg: seq<Page>, m: map<nat, Span>, mem: map<nat, nat>, pg': seq<Page>, m': map<nat, Span>,
                 mem': map<nat, nat>)
    requires PoolCore(v, pg, m, mem) && PoolKept(v.id, pg, m, pg', m') && WordsKept(FreeObjs(v), mem, mem')
    ensures PoolCore(v, pg', m', mem')
  {
    hide Chain, NoDup, ListOk, ObjsOk, LooseOk, Threaded, QueueOk, SameHead, WordsKept;
    KeptSpans(v, pg, m, pg', m');
    forall s | s in v.spans ensures SameHead(pg, pg', s) { assert OwnedBy(m, s, v.id); }
    KeptQueue(v, pg, pg');
    KeptLoose(v, mem, mem');
    forall s | s in v.spans ensures ListOk(v, pg', mem', s) { KeptList(v, pg, pg', mem, mem', s); }
  }

  lemma KeptRefl(id: nat, pg: seq<Page>, m: map<nat, Span>)
    ensures PoolKept(id, pg, m, pg, m)
  {
  }

  lemma KeptTrans(id: nat, pg: seq<Page>, m: map<nat, Span>, pg1: seq<Page>, m1: map<nat, Span>, pg2: seq<Page>,
                  m2: map<nat, Span>)
    requires PoolKept(id, pg, m, pg1, m1) && PoolKept(id, pg1, m1, pg2, m2)
    ensures PoolKept(id, pg, m, pg2, m2)
  {
    forall s ensures OwnedBy(m, s, id) <==> OwnedBy(m2, s, id) { assert OwnedBy(m, s, id) <==> OwnedBy(m1, s, id); }
  }
}
