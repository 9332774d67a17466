/** The allocator of one CPU: the page allocator and its small pools together. What is live, and
    that every call keeps it apart and finds its way back to where a block came from. */
module Allocators {
  import opened Bits
  import opened PageModel
  import opened PageRuns
  import opened PageLists
  import opened PageTags
  import opened CpuMemory
  import opened FreeChains
  import opened SmallModel
  import opened SmallFrames
  import opened SmallPools
  import opened SizeClasses

  // ---------------------------------------------------------------- live blocks

  /** Pool i has the name i + 1 in the page structures. */
  ghost predicate AllOk(vs: seq<Pool>, pg: seq<Page>, m: map<nat, Span>, w: map<nat, nat>) {
    forall i :: 0 <= i < |vs| ==> vs[i].id == i + 1 && PoolOk(vs[i], pg, m, w)
  }

  /** Every small span belongs to one of the pools. */
  ghost predicate IdsOk(m: map<nat, Span>, n: nat) {
    forall s: nat, id: nat :: OwnedBy(m, s, id) ==> 1 <= id <= n
  }

  ghost predicate LargeLive(m: map<nat, Span>, a: nat, z: nat) {
    a % PAGE == 0 && IsLarge(m, a / PAGE) && z == m[a / PAGE].len * PAGE
  }

  ghost predicate SmallLive(vs: seq<Pool>, i: nat, a: nat, z: nat) {
    i < |vs| && IsHeld(vs[i], a) && z == vs[i].size
  }

  /** The block of z bytes at address a is in a client's hands; it comes from the pool named p, or
      from the page allocator if p is 0. */
  ghost predicate IsLive(m: map<nat, Span>, vs: seq<Pool>, a: nat, z: nat, p: nat) {
    if p == 0 then LargeLive(m, a, z) else SmallLive(vs, p - 1, a, z)
  }

  ghost predicate LiveSame(m: map<nat, Span>, vs: seq<Pool>, m': map<nat, Span>, vs': seq<Pool>) {
    forall a: nat, x: nat, p: nat :: IsLive(m', vs', a, x, p) <==> IsLive(m, vs, a, x, p)
  }

  /** The block is live now and none was at its address; nothing else has changed. */
  ghost predicate LiveAdded(m: map<nat, Span>, vs: seq<Pool>, m': map<nat, Span>, vs': seq<Pool>, r: nat, z: nat,
                            q: nat) {
    && (forall x: nat, p: nat :: !IsLive(m, vs, r, x, p))
    && (forall a: nat, x: nat, p: nat :: IsLive(m', vs', a, x, p) <==>
          IsLive(m, vs, a, x, p) || (a == r && x == z && p == q))
  }

  /** Exactly the block at r has gone. */
  ghost predicate LiveRemoved(m: map<nat, Span>, vs: seq<Pool>, m': map<nat, Span>, vs': seq<Pool>, r: nat) {
    forall a: nat, x: nat, p: nat :: IsLive(m', vs', a, x, p) <==> IsLive(m, vs, a, x, p) && a != r
  }

  /** The large block at r is z bytes long now; nothing else has changed. */
  ghost predicate LiveCut(m: map<nat, Span>, vs: seq<Pool>, m': map<nat, Span>, vs': seq<Pool>, r: nat, z: nat) {
    forall a: nat, x: nat, p: nat ::
      IsLive(m', vs', a, x, p) <==> if a == r then x == z && p == 0 else IsLive(m, vs, a, x, p)
  }

  /** Exactly the blocks at the addresses in q have gone. */
  ghost predicate LiveDrained(m: map<nat, Span>, vs: seq<Pool>, m': map<nat, Span>, vs': seq<Pool>, q: seq<nat>) {
    forall a: nat, x: nat, p: nat :: IsLive(m', vs', a, x, p) <==> IsLive(m, vs, a, x, p) && a !in q
  }

  /** No word of a block that was live and is live has been written. */
  ghost predicate LiveWords(m: map<nat, Span>, vs: seq<Pool>, w: map<nat, nat>, m': map<nat, Span>, vs': seq<Pool>,
                            w': map<nat, nat>) {
    forall a: nat, z: nat, p: nat, x: nat ::
      IsLive(m, vs, a, z, p) && IsLive(m', vs', a, z, p) && a <= x < a + z ==> SameWord(w, w', x)
  }

  // ---------------------------------------------------------------- blocks do not overlap

  /** An object lies in a span of its pool, which is not a large span. */
  lemma ObjectSpan(v: Pool, m: map<nat, Span>, o: nat)
    requires ObjsOk(v) && SpansMatch(v, m) && o in v.obj
    ensures var s := v.obj[o].span;
            s in m && m[s] == Span(v.span, Small(v.id)) && s * PAGE <= o && o + v.size <= (s + v.span) * PAGE
            && s <= o / PAGE < s + v.span
  {
    HomesApart(v, o);
    assert HomeOk(v, o);
    assert v.obj[o].span in v.spans;
  }

  lemma PoolsApart(v1: Pool, v2: Pool, m: map<nat, Span>)
    requires ObjsOk(v1) && SpansMatch(v1, m) && ObjsOk(v2) && SpansMatch(v2, m) && SpansDisjoint(m) && v1.id != v2.id
    ensures v1.obj.Keys !! v2.obj.Keys
  {
    hide ObjsOk, SpansMatch;
    forall o | o in v1.obj ensures o !in v2.obj {
      if o in v2.obj {
        ObjectSpan(v1, m, o);
        ObjectSpan(v2, m, o);
        assert false;
      }
    }
  }

  lemma SpansApart(m: map<nat, Span>, s: nat, t: nat, a: nat, z: nat, b: nat, y: nat)
    requires SpansDisjoint(m) && s in m && t in m && s != t
    requires s * PAGE <= a && a + z <= (s + m[s].len) * PAGE && t * PAGE <= b && b + y <= (t + m[t].len) * PAGE
    ensures a + z <= b || b + y <= a
  {
    if s < t { MulMonotone(s + m[s].len, t, PAGE); } else { MulMonotone(t + m[t].len, s, PAGE); }
  }

  lemma SmallParts(vs: seq<Pool>, pg: seq<Page>, m: map<nat, Span>, w: map<nat, nat>, i: nat)
    requires AllOk(vs, pg, m, w) && i < |vs|
    ensures vs[i].id == i + 1 && ObjsOk(vs[i]) && SpansMatch(vs[i], m) && PoolCore(vs[i], pg, m, w) && AllCarved(vs[i])
            && vs[i].popped == 0
  {
    hide ObjsOk, SpansMatch, LooseOk, ListsHold, QueueOk, AllCarved;
  }

  lemma SamePoolApart(v: Pool, m: map<nat, Span>, a: nat, b: nat)
    requires ObjsOk(v) && SpansMatch(v, m) && SpansDisjoint(m) && a in v.obj && b in v.obj && a != b
    ensures a + v.size <= b || b + v.size <= a
  {
    ObjectSpan(v, m, a);
    ObjectSpan(v, m, b);
    var s, t := v.obj[a], v.obj[b];
    assert HomeOk(v, a) && HomeOk(v, b);
    hide ObjsOk, SpansMatch, SpansDisjoint;
    if s.span != t.span {
      SpansApart(m, s.span, t.span, a, v.size, b, v.size);
    } else if s.k < t.k {
      AddrApart(v.size, s.span, s.k, t.k);
    } else if t.k < s.k {
      AddrApart(v.size, s.span, t.k, s.k);
    }
  }

  /** Where a live block lies: in one span in use. */
  ghost predicate LiesIn(m: map<nat, Span>, s: nat, a: nat, z: nat) {
    s in m && s * PAGE <= a && a + z <= (s + m[s].len) * PAGE
  }

  lemma SmallLies(vs: seq<Pool>, pg: seq<Page>, m: map<nat, Span>, w: map<nat, nat>, i: nat, a: nat, z: nat)
    requires AllOk(vs, pg, m, w) && SmallLive(vs, i, a, z)
    ensures i < |vs| && a in vs[i].obj && LiesIn(m, vs[i].obj[a].span, a, z)
            && m[vs[i].obj[a].span].kind == Small(i + 1)
  {
    hide AllOk;
    SmallParts(vs, pg, m, w, i);
    hide PoolCore, ObjsOk, SpansMatch;
    ObjectSpan(vs[i], m, a);
  }

  lemma LargeLies(m: map<nat, Span>, a: nat, z: nat)
    requires LargeLive(m, a, z)
    ensures LiesIn(m, a / PAGE, a, z) && m[a / PAGE].kind.Large? && a == a / PAGE * PAGE
  {
    var s := a / PAGE;
    assert (s + m[s].len) * PAGE == s * PAGE + m[s].len * PAGE;
  }

  /** The span a live block lies in. */
  ghost function SpanOf(vs: seq<Pool>, a: nat, p: nat): nat {
    if p == 0 then a / PAGE else if p - 1 < |vs| && a in vs[p - 1].obj then vs[p - 1].obj[a].span else 0
  }

  lemma LiveLies(vs: seq<Pool>, pg: seq<Page>, m: map<nat, Span>, w: map<nat, nat>, a: nat, z: nat, p: nat)
    requires AllOk(vs, pg, m, w) && IsLive(m, vs, a, z, p)
    ensures LiesIn(m, SpanOf(vs, a, p), a, z) && SpanOf(vs, a, p) in m
    ensures m[SpanOf(vs, a, p)].kind == if p == 0 then Large else Small(p)
  {
    hide AllOk, SmallLive, LargeLive;
    if p == 0 { LargeLies(m, a, z); } else { SmallLies(vs, pg, m, w, p - 1, a, z); }
  }

  /** Live blocks, large and small together, are pairwise disjoint; two at one address are one, of
      one origin. */
  lemma LiveApart(vs: seq<Pool>, pg: seq<Page>, m: map<nat, Span>, w: map<nat, nat>, a: nat, z: nat, p: nat, b: nat,
                  y: nat, q: nat)
    requires AllOk(vs, pg, m, w) && SpansDisjoint(m)
    requires IsLive(m, vs, a, z, p) && IsLive(m, vs, b, y, q) && (a != b || z != y || p != q)
    ensures a + z <= b || b + y <= a
  {
    hide AllOk, SpansDisjoint, LiesIn, SpanOf;
    LiveLies(vs, pg, m, w, a, z, p);
    LiveLies(vs, pg, m, w, b, y, q);
    if p != q {
      LiesApart(m, SpanOf(vs, a, p), SpanOf(vs, b, q), a, z, b, y);
    } else if p == 0 {
      LargeLies(m, a, z);
      LargeLies(m, b, y);
      LargesApart(m, a, z, b, y);
    } else {
      SmallsApart(vs, pg, m, w, p - 1, a, z, b, y);
    }
  }

  /** The free objects, whose first words are the pools' links, are apart from all live blocks. */
  lemma FreeApart(vs: seq<Pool>, pg: seq<Page>, m: map<nat, Span>, w: map<nat, nat>, i: nat, o: nat, a: nat, z: nat,
                  p: nat)
    requires AllOk(vs, pg, m, w) && SpansDisjoint(m) && i < |vs| && o in FreeObjs(vs[i]) && IsLive(m, vs, a, z, p)
    ensures WORD <= vs[i].size && (o + vs[i].size <= a || a + z <= o)
  {
    hide AllOk, SpansDisjoint, PoolCore, ObjsOk, SpansMatch, LiesIn, SpanOf;
    SmallParts(vs, pg, m, w, i);
    ObjectSpan(vs[i], m, o);
    ObjectWord(vs[i], o);
    if p == i + 1 {
      SamePoolApart(vs[i], m, o, a);
    } else {
      LiveLies(vs, pg, m, w, a, z, p);
      LiesFrom(m, vs[i].obj[o].span, o, vs[i].size);
      LiesApart(m, vs[i].obj[o].span, SpanOf(vs, a, p), o, vs[i].size, a, z);
    }
  }

  lemma ObjectWord(v: Pool, o: nat)
    requires ObjsOk(v) && o in v.obj
    ensures WORD <= v.size
  {
    assert HomeOk(v, o);
  }

  lemma LiesFrom(m: map<nat, Span>, s: nat, a: nat, z: nat)
    requires s in m && s * PAGE <= a && a + z <= (s + m[s].len) * PAGE
    ensures LiesIn(m, s, a, z)
  {
  }

  lemma LiesApart(m: map<nat, Span>, s: nat, t: nat, a: nat, z: nat, b: nat, y: nat)
    requires SpansDisjoint(m) && LiesIn(m, s, a, z) && LiesIn(m, t, b, y) && s != t
    ensures a + z <= b || b + y <= a
  {
    SpansApart(m, s, t, a, z, b, y);
  }

  lemma LargesApart(m: map<nat, Span>, a: nat, z: nat, b: nat, y: nat)
    requires SpansDisjoint(m) && LargeLive(m, a, z) && LargeLive(m, b, y) && (a != b || z != y)
    requires LiesIn(m, a / PAGE, a, z) && LiesIn(m, b / PAGE, b, y) && a == a / PAGE * PAGE && b == b / PAGE * PAGE
    ensures a + z <= b || b + y <= a
  {
    if a / PAGE != b / PAGE { LiesApart(m, a / PAGE, b / PAGE, a, z, b, y); }
  }

  lemma SmallsApart(vs: seq<Pool>, pg: seq<Page>, m: map<nat, Span>, w: map<nat, nat>, i: nat, a: nat, z: nat, b: nat,
                    y: nat)
    requires AllOk(vs, pg, m, w) && SpansDisjoint(m) && SmallLive(vs, i, a, z) && SmallLive(vs, i, b, y)
             && (a != b || z != y)
    ensures a + z <= b || b + y <= a
  {
    hide AllOk, SpansDisjoint, PoolCore, ObjsOk, SpansMatch;
    SmallParts(vs, pg, m, w, i);
    SamePoolApart(vs[i], m, a, b);
  }

  // ---------------------------------------------------------------- one pool changes

  lemma OthersStay(vs: seq<Pool>, i: nat, v': Pool, keys: set<nat>, pg: seq<Page>, m: map<nat, Span>, w: map<nat, nat>,
                   pg': seq<Page>, m': map<nat, Span>, w': map<nat, nat>)
    requires AllOk(vs, pg, m, w) && i < |vs| && PoolOk(v', pg', m', w') && v'.id == i + 1
    requires Gentle(i + 1, keys, pg, m, w, pg', m', w') && (keys == v'.obj.Keys || keys == vs[i].obj.Keys)
    requires SpansDisjoint(m) && SpansDisjoint(m')
    ensures AllOk(vs[i := v'], pg', m', w')
  {
    hide PoolOk, Gentle;
    forall j | 0 <= j < |vs| && j != i ensures PoolOk(vs[j], pg', m', w') {
      OtherStays(vs[i], v', vs[j], keys, pg, m, w, pg', m', w');
    }
  }

  lemma OtherStays(v: Pool, v': Pool, u: Pool, keys: set<nat>, pg: seq<Page>, m: map<nat, Span>, w: map<nat, nat>,
                   pg': seq<Page>, m': map<nat, Span>, w': map<nat, nat>)
    requires PoolOk(v, pg, m, w) && PoolOk(u, pg, m, w) && PoolOk(v', pg', m', w') && v'.id == v.id != u.id
    requires Gentle(v.id, keys, pg, m, w, pg', m', w') && (keys == v'.obj.Keys || keys == v.obj.Keys)
    requires SpansDisjoint(m) && SpansDisjoint(m')
    ensures PoolOk(u, pg', m', w')
  {
    hide ObjsOk, SpansMatch, LooseOk, ListsHold, QueueOk, PoolKept, LargesKept, AllCarved, SpansDisjoint;
    assert PoolKept(u.id, pg, m, pg', m');
    KeptSpans(u, pg, m, pg', m');
    if keys == v'.obj.Keys { PoolsApart(v', u, m'); } else { PoolsApart(v, u, m); }
    assert WordsKept(u.obj.Keys, w, w');
    hide WordsKept, PoolCore;
    KeptCore(u, pg, m, w, pg', m', w');
  }

  lemma IdsKept(id: nat, n: nat, pg: seq<Page>, m: map<nat, Span>, pg': seq<Page>, m': map<nat, Span>)
    requires IdsOk(m, n) && OthersKept(id, pg, m, pg', m') && 1 <= id <= n
    ensures IdsOk(m', n)
  {
    forall s: nat, j: nat | OwnedBy(m', s, j) ensures 1 <= j <= n {
      if j != id {
        assert PoolKept(j, pg, m, pg', m');
        assert OwnedBy(m, s, j);
      }
    }
  }

  /** An object of pool i is neither a large block nor an object of another pool. */
  lemma OnlyHere(vs: seq<Pool>, pg: seq<Page>, m: map<nat, Span>, w: map<nat, nat>, i: nat, o: nat)
    requires AllOk(vs, pg, m, w) && SpansDisjoint(m) && i < |vs| && o in vs[i].obj
    ensures !IsLarge(m, o / PAGE)
    ensures forall j :: 0 <= j < |vs| && j != i ==> o !in vs[j].obj
  {
    hide AllOk, PoolCore, ObjsOk, SpansMatch;
    SmallParts(vs, pg, m, w, i);
    ObjectSpan(vs[i], m, o);
    forall j | 0 <= j < |vs| && j != i ensures o !in vs[j].obj {
      SmallParts(vs, pg, m, w, j);
      PoolsApart(vs[i], vs[j], m);
    }
  }

  lemma LargeSame(m: map<nat, Span>, m': map<nat, Span>, a: nat, x: nat)
    requires LargesKept(m, m')
    ensures LargeLive(m', a, x) <==> LargeLive(m, a, x)
  {
    assert IsLarge(m, a / PAGE) <==> IsLarge(m', a / PAGE);
  }

  /** The live blocks after pool i has changed: its own are the objects held, the others are as before. */
  lemma LivePool(vs: seq<Pool>, i: nat, v': Pool, m: map<nat, Span>, m': map<nat, Span>, a: nat, x: nat, p: nat)
    requires i < |vs| && v'.size == vs[i].size && LargesKept(m, m')
    ensures IsLive(m', vs[i := v'], a, x, p) <==>
              if p == i + 1 then IsHeld(v', a) && x == v'.size else IsLive(m, vs, a, x, p)
  {
    hide LargesKept, LargeLive, IsHeld;
    LargeSame(m, m', a, x);
  }

  lemma LiveWas(vs: seq<Pool>, i: nat, m: map<nat, Span>, a: nat, x: nat)
    requires i < |vs|
    ensures IsLive(m, vs, a, x, i + 1) <==> IsHeld(vs[i], a) && x == vs[i].size
  {
    hide IsHeld;
  }

  lemma PoolLiveSame(vs: seq<Pool>, i: nat, v': Pool, m: map<nat, Span>, m': map<nat, Span>)
    requires i < |vs| && v'.size == vs[i].size && LargesKept(m, m') && SameHeld(vs[i], v')
    ensures LiveSame(m, vs, m', vs[i := v'])
  {
    hide LargesKept, LargeLive, SmallLive, IsLive, IsHeld;
    forall a: nat, x: nat, p: nat ensures IsLive(m', vs[i := v'], a, x, p) <==> IsLive(m, vs, a, x, p) {
      LivePool(vs, i, v', m, m', a, x, p);
      LiveWas(vs, i, m, a, x);
      assert IsHeld(vs[i], a) <==> IsHeld(v', a);
    }
  }

  lemma PoolLiveAdded(vs: seq<Pool>, i: nat, v': Pool, pg': seq<Page>, w': map<nat, nat>, m: map<nat, Span>,
                      m': map<nat, Span>, r: nat)
    requires i < |vs| && v'.size == vs[i].size && LargesKept(m, m') && AllOk(vs[i := v'], pg', m', w')
             && SpansDisjoint(m')
    requires !IsHeld(vs[i], r) && forall o :: IsHeld(v', o) <==> IsHeld(vs[i], o) || o == r
    ensures LiveAdded(m, vs, m', vs[i := v'], r, v'.size, i + 1)
  {
    hide LargesKept, LargeLive, SmallLive, IsLive, IsHeld, AllOk, SpansDisjoint;
    var vs', z: nat, q: nat := vs[i := v'], v'.size, i + 1;
    forall x: nat, p: nat ensures !IsLive(m, vs, r, x, p) {
      LiveWas(vs, i, m, r, x);
      if p != i + 1 { NewHere(vs, i, v', pg', w', m, m', r, x, p); }
    }
    forall a: nat, x: nat, p: nat
      ensures IsLive(m', vs', a, x, p) <==> IsLive(m, vs, a, x, p) || (a == r && x == z && p == q)
    {
      LivePool(vs, i, v', m, m', a, x, p);
      LiveWas(vs, i, m, a, x);
      assert IsHeld(v', a) <==> IsHeld(vs[i], a) || a == r;
    }
  }

  /** Where pool i holds an object now, nothing of another origin was live. */
  lemma NewHere(vs: seq<Pool>, i: nat, v': Pool, pg': seq<Page>, w': map<nat, nat>, m: map<nat, Span>,
                m': map<nat, Span>, r: nat, x: nat, p: nat)
    requires i < |vs| && LargesKept(m, m') && AllOk(vs[i := v'], pg', m', w') && SpansDisjoint(m') && IsHeld(v', r)
             && p != i + 1
    ensures !IsLive(m, vs, r, x, p)
  {
    hide AllOk, SpansDisjoint;
    var vs' := vs[i := v'];
    OnlyHere(vs', pg', m', w', i, r);
    assert IsLarge(m, r / PAGE) <==> IsLarge(m', r / PAGE);
    if 0 < p <= |vs| { assert vs'[p - 1] == vs[p - 1]; }
  }

  lemma PoolLiveRemoved(vs: seq<Pool>, i: nat, v': Pool, pg: seq<Page>, w: map<nat, nat>, m: map<nat, Span>,
                        m': map<nat, Span>, r: nat)
    requires i < |vs| && v'.size == vs[i].size && LargesKept(m, m') && AllOk(vs, pg, m, w) && SpansDisjoint(m)
    requires IsHeld(vs[i], r) && forall o :: IsHeld(v', o) <==> IsHeld(vs[i], o) && o != r
    ensures LiveRemoved(m, vs, m', vs[i := v'], r)
  {
    hide AllOk, LargesKept, LargeLive, SmallLive, IsLive, IsHeld, SpansDisjoint, IsLarge;
    forall a: nat, x: nat, p: nat ensures IsLive(m', vs[i := v'], a, x, p) <==> IsLive(m, vs, a, x, p) && a != r {
      LivePool(vs, i, v', m, m', a, x, p);
      LiveWas(vs, i, m, a, x);
      assert IsHeld(v', a) <==> IsHeld(vs[i], a) && a != r;
      if p != i + 1 { NotElsewhere(vs, pg, w, m, i, r, x, p); }
    }
  }

  lemma NotElsewhere(vs: seq<Pool>, pg: seq<Page>, w: map<nat, nat>, m: map<nat, Span>, i: nat, r: nat, x: nat, p: nat)
    requires AllOk(vs, pg, m, w) && SpansDisjoint(m) && i < |vs| && IsHeld(vs[i], r) && p != i + 1
    ensures !IsLive(m, vs, r, x, p)
  {
    hide AllOk, SpansDisjoint;
    OnlyHere(vs, pg, m, w, i, r);
  }

  // ---------------------------------------------------------------- a large block comes or goes

  lemma AllStay(vs: seq<Pool>, pg: seq<Page>, m: map<nat, Span>, w: map<nat, nat>, pg': seq<Page>, m': map<nat, Span>)
    requires AllOk(vs, pg, m, w) && forall id: nat :: PoolKept(id, pg, m, pg', m')
    ensures AllOk(vs, pg', m', w)
  {
    hide PoolKept, PoolCore, AllCarved;
    forall i | 0 <= i < |vs| ensures PoolOk(vs[i], pg', m', w) { KeptCore(vs[i], pg, m, w, pg', m', w); }
  }

  lemma AllIdsKept(n: nat, pg: seq<Page>, m: map<nat, Span>, pg': seq<Page>, m': map<nat, Span>)
    requires IdsOk(m, n) && forall id: nat :: PoolKept(id, pg, m, pg', m')
    ensures IdsOk(m', n)
  {
    forall s: nat, j: nat | OwnedBy(m', s, j) ensures 1 <= j <= n {
      assert PoolKept(j, pg, m, pg', m');
      assert OwnedBy(m, s, j);
    }
  }

  lemma LargeLiveSame(vs: seq<Pool>, m: map<nat, Span>, m': map<nat, Span>)
    requires LargesKept(m, m')
    ensures LiveSame(m, vs, m', vs)
  {
    hide LargesKept, LargeLive, SmallLive;
    forall a: nat, x: nat, p: nat
      ensures IsLive(m', vs, a, x, p) <==> IsLive(m, vs, a, x, p)
    {
      LargeSame(m, m', a, x);
    }
  }

  lemma AtPage(r: nat, a: nat)
    ensures r * PAGE / PAGE == r && r * PAGE % PAGE == 0
    ensures a % PAGE == 0 && a / PAGE == r ==> a == r * PAGE
  {
  }

  lemma NoObjectAt(vs: seq<Pool>, pg: seq<Page>, m: map<nat, Span>, w: map<nat, nat>, r: nat, x: nat, p: nat)
    requires AllOk(vs, pg, m, w) && SpansDisjoint(m) && IsLarge(m, r) && p > 0
    ensures p - 1 < |vs| ==> r * PAGE !in vs[p - 1].obj
    ensures !IsLive(m, vs, r * PAGE, x, p)
  {
    hide AllOk, SpansDisjoint;
    AtPage(r, r * PAGE);
    if p - 1 < |vs| && r * PAGE in vs[p - 1].obj { OnlyHere(vs, pg, m, w, p - 1, r * PAGE); }
  }

  lemma LargeLiveAdded(vs: seq<Pool>, pg: seq<Page>, w: map<nat, nat>, m: map<nat, Span>, m': map<nat, Span>, r: nat,
                       n: nat)
    requires NewLarge(m, m', r, n) && AllOk(vs, pg, m', w) && SpansDisjoint(m')
    ensures LiveAdded(m, vs, m', vs, r * PAGE, n * PAGE, 0)
  {
    hide AllOk, SpansDisjoint;
    AtPage(r, r * PAGE);
    forall x: nat, p: nat ensures !IsLive(m, vs, r * PAGE, x, p) {
      if p > 0 { NoObjectAt(vs, pg, m', w, r, x, p); }
    }
    forall a: nat, x: nat, p: nat
      ensures IsLive(m', vs, a, x, p) <==> IsLive(m, vs, a, x, p) || (a == r * PAGE && x == n * PAGE && p == 0)
    {
      AtPage(r, a);
      assert IsLarge(m', a / PAGE) <==> IsLarge(m, a / PAGE) || a / PAGE == r;
      if IsLarge(m, a / PAGE) { assert SpanStays(m, m', a / PAGE); }
    }
  }

  lemma LargeLiveRemoved(vs: seq<Pool>, pg: seq<Page>, w: map<nat, nat>, m: map<nat, Span>, m': map<nat, Span>, r: nat)
    requires AllOk(vs, pg, m, w) && SpansDisjoint(m) && IsLarge(m, r)
    requires forall s: nat :: IsLarge(m', s) <==> IsLarge(m, s) && s != r
    requires forall s: nat :: IsLarge(m, s) && s != r ==> SpanStays(m, m', s)
    ensures LiveRemoved(m, vs, m', vs, r * PAGE)
  {
    hide AllOk, SpansDisjoint;
    forall a: nat, x: nat, p: nat ensures IsLive(m', vs, a, x, p) <==> IsLive(m, vs, a, x, p) && a != r * PAGE {
      AtPage(r, a);
      AtPage(r, r * PAGE);
      assert IsLarge(m', a / PAGE) <==> IsLarge(m, a / PAGE) && a / PAGE != r;
      if IsLarge(m, a / PAGE) && a / PAGE != r { assert SpanStays(m, m', a / PAGE); }
      if p > 0 { NoObjectAt(vs, pg, m, w, r, x, p); }
    }
  }

  // ---------------------------------------------------------------- the allocator

  class Allocator {
    const cpu: CpuPages
    const mem: Words
    const pools: seq<SmallPool>

    /** What never changes: the pools are distinct and made for their size classes. */
    ghost predicate Shape() {
      && |pools| == NR_SMALL_POOLS
      && (forall i :: 0 <= i < |pools| ==>
            pools[i].cpu == cpu && pools[i].mem == mem && pools[i].id == i + 1 && pools[i].size == IdxToSize(i))
      && (forall i :: 0 <= i < |pools| ==> pools[i].Sized() && pools[i].spanList !in cpu.freeSpans)
      && (forall i, j :: 0 <= i < j < |pools| ==> pools[i] != pools[j] && pools[i].spanList != pools[j].spanList)
    }

    ghost function Lists(): set<PageList> {
      set p | p in pools :: p.spanList
    }

    ghost function Views(): (r: seq<Pool>)
      reads pools, Lists()
      ensures |r| == |pools| && forall i :: 0 <= i < |pools| ==> r[i] == pools[i].View()
    {
      seq(|pools|, i requires 0 <= i < |pools| reads pools, Lists() => pools[i].View())
    }

    ghost predicate CountsOk()
      reads pools
    {
      forall i :: 0 <= i < |pools| ==> pools[i].spansInUse == |pools[i].spans.Keys|
    }

    ghost predicate Valid()
      reads this, cpu, cpu.pages, cpu.freeSpans, mem, pools, Lists()
    {
      && Shape() && CountsOk() && cpu.Rep() && FullInv(cpu.Abs())
      && AllOk(Views(), cpu.pages[..], cpu.spans, mem.next) && IdsOk(cpu.spans, |pools|)
    }

    /** The block of z bytes at address a, counted from the start of the memory, is in a client's hands;
        it came from pool p, or from the page allocator if p is 0. */
    ghost predicate Live(a: nat, z: nat, p: nat)
      reads this, cpu, pools, Lists()
    {
      IsLive(cpu.spans, Views(), a, z, p)
    }

    /** Nothing to serve a request with: every object of pool p is held and no free span is as long as
        the pool's spans; or, where p is 0, no free span has n pages. */
    ghost predicate NoRoom(p: nat, n: nat)
      reads this, cpu, cpu.freeSpans, pools, Lists()
    {
      if p == 0 then NoFreeSpanOf(cpu.Abs(), n)
      else p - 1 < |pools| && Exhausted(pools[p - 1].View()) && NoFreeSpanOf(cpu.Abs(), pools[p - 1].span)
    }

    /** An allocator nobody has used: no block is live. */
    constructor ()
      ensures Valid() && forall a: nat, z: nat, p: nat :: !Live(a, z, p)
    {
      hide *;
      var c := new CpuPages();
      var w := new Words();
      NothingOwned(c);
      var ps: seq<SmallPool> := [];
      while |ps| < NR_SMALL_POOLS
        invariant |ps| <= NR_SMALL_POOLS && c.Rep() && FullInv(c.Abs())
        invariant forall s: nat, id: nat :: !OwnedBy(c.spans, s, id)
        invariant forall s: nat :: !IsLarge(c.spans, s)
        invariant forall i :: 0 <= i < |ps| ==>
                    ps[i].cpu == c && ps[i].mem == w && ps[i].id == i + 1 && ps[i].size == IdxToSize(i)
        invariant forall i :: 0 <= i < |ps| ==> ps[i].Valid() && ps[i].obj == map[]
        invariant forall i, j :: 0 <= i < j < |ps| ==> ps[i] != ps[j] && ps[i].spanList != ps[j].spanList
        modifies {}
      {
        ClassInRange(|ps|);
        var p := new SmallPool(|ps| + 1, IdxToSize(|ps|), c, w);
        ps := ps + [p];
      }
      cpu := c;
      mem := w;
      pools := ps;
      new;
      forall i | 0 <= i < |pools|
        ensures pools[i].Sized() && pools[i].spanList !in cpu.freeSpans
                && PoolOk(pools[i].View(), cpu.pages[..], cpu.spans, mem.next)
        ensures pools[i].spansInUse == |pools[i].spans.Keys| && pools[i].View().obj == map[]
                && pools[i].View().id == i + 1
      {
        FreshPool(pools[i]);
      }
      FreshValid(this);
      NothingLive(this);
    }

    /** cpu_pages::allocate_small: an object of the least size class that will do; null only when
        every object of the class is held and no free span is as long as the pool's spans. */
    method AllocateSmall(size: u32) returns (r: nat)
      requires Valid() && 8 <= size <= MAX_SMALL
      modifies cpu, cpu.pages, cpu.freeSpans, mem, pools, Lists()
      ensures Valid()
      ensures size <= IdxToSize(SizeToIdx(size)) && SizeToIdx(size) < |pools|
      ensures r == 0 ==> LiveSame(old(cpu.spans), old(Views()), cpu.spans, Views())
      ensures r == 0 ==> NoRoom(SizeToIdx(size) + 1, 0)
      ensures r != 0 ==>
                LiveAdded(old(cpu.spans), old(Views()), cpu.spans, Views(), r, IdxToSize(SizeToIdx(size)),
                          SizeToIdx(size) + 1)
      ensures r != 0 ==> Placed(r, IdxToSize(SizeToIdx(size)))
      ensures cpu.pages == old(cpu.pages) || fresh(cpu.pages)
      ensures LiveWords(old(cpu.spans), old(Views()), old(mem.next), cpu.spans, Views(), mem.next)
    {
      hide *;
      PoolsInUse(size);
      ShapeIs(this);
      var i := SizeToIdx(size);
      WordIs();
      PoolValid(this, i);
      ViewConsts(pools[i]);
      ghost var vs, pg, m, w := Views(), cpu.pages[..], cpu.spans, mem.next;
      DisjointSpans(cpu);
      r := pools[i].Allocate();
      ghost var v' := pools[i].View();
      forall x | 0 <= x < |pools| && x != i
        ensures pools[x].View() == vs[x] && pools[x].spansInUse == |pools[x].spans.Keys|
      {
        PoolsDiffer(this, i, x);
      }
      ViewsChanged(this, vs, i);
      DisjointSpans2(pools[i]);
      CountsFrom(this);
      PoolParts(pools[i]);
      ViewConsts(pools[i]);
      PoolGentle(vs, i, v', v'.obj.Keys, pg, m, w, cpu.pages[..], cpu.spans, mem.next, |pools|);
      AllocValid(this);
      GentleWords(i + 1, v'.obj.Keys, pg, m, w, cpu.pages[..], cpu.spans, mem.next);
      TakenWords(vs, i, v', pg, m, w, cpu.pages[..], cpu.spans, mem.next);
      if r == 0 {
        PoolLiveSame(vs, i, v', m, cpu.spans);
        NoRoomFrom(this, i, 0);
      } else {
        PoolLiveAdded(vs, i, v', cpu.pages[..], mem.next, m, cpu.spans, r);
        ObjectPlaced(v', cpu.pages[..], cpu.spans, mem.next, r);
      }
    }

    /** allocate_large, for a request in bytes: whole pages, first fit; it throws only above 2^30
        pages and is null only when no free span is long enough. */
    method AllocatePages(size: nat) returns (thrown: bool, r: nat, ghost n: nat)
      requires Valid() && 1 <= size <= 0x8000_0000 * PAGE
      modifies cpu, cpu.pages, cpu.freeSpans
      ensures Valid() && n == (size + 4095) / 4096
      ensures thrown <==> n > 0x4000_0000
      ensures r == 0 ==> LiveSame(old(cpu.spans), old(Views()), cpu.spans, Views())
      ensures r == 0 && !thrown ==> NoRoom(0, n)
      ensures thrown ==> r == 0
      ensures r != 0 ==> LiveAdded(old(cpu.spans), old(Views()), cpu.spans, Views(), r, n * 4096, 0) && r % 4096 == 0
    {
      hide *;
      ShapeIs(this);
      ghost var vs, h, pg, m, w := Views(), cpu.Abs(), cpu.pages[..], cpu.spans, mem.next;
      ghost var lists := cpu.freeSpans;
      DisjointSpans(cpu);
      NrIs(cpu);
      PagesFor(size);
      var pages := (size + PAGE - 1) / PAGE;
      n := pages;
      var p;
      ListsOutside(this);
      thrown, p := cpu.AllocateLarge(pages);
      SameAbs(cpu);
      AllocateKept(h, cpu.Abs(), pages, thrown, p, pg, cpu.pages[..]);
      ViewsSame(this, vs);
      LargeStep(this, vs, pg, m, w, p, pages);
      AtPage(p, p * PAGE);
      r := p * PAGE;
      NoPages(this, n);
    }

    /** allocate_large_aligned, for an alignment of 2^k bytes. */
    method AllocateAlignedPages(align: nat, size: nat, ghost k: nat) returns (thrown: bool, r: nat, ghost n: nat)
      requires Valid() && align == Pow2(k) && 1 <= size && size + align <= 0x7FFF_FFFF * PAGE
      modifies cpu, cpu.pages, cpu.freeSpans
      ensures Valid() && n == (size + 4095) / 4096
      ensures thrown <==> n + (if align > 4096 then align / 4096 else 1) - 1 > 0x4000_0000
      ensures thrown ==> r == 0
      ensures r == 0 ==> LiveSame(old(cpu.spans), old(Views()), cpu.spans, Views())
      ensures r == 0 && !thrown ==> NoRoom(0, n + (if align > 4096 then align / 4096 else 1) - 1)
      ensures r != 0 ==> LiveAdded(old(cpu.spans), old(Views()), cpu.spans, Views(), r, n * 4096, 0) && r % align == 0
    {
      hide *;
      ShapeIs(this);
      ghost var vs, h, pg, m, w := Views(), cpu.Abs(), cpu.pages[..], cpu.spans, mem.next;
      DisjointSpans(cpu);
      NrIs(cpu);
      PagesFor(size);
      AlignPages(align, size, k);
      var pages := (size + PAGE - 1) / PAGE;
      n := pages;
      var alignPages := (if align > PAGE then align else PAGE) / PAGE;
      ghost var e := if k > 12 then k - 12 else 0;
      var p;
      ListsOutside(this);
      thrown, p := cpu.AllocateLargeAligned(alignPages, pages, e);
      SameAbs(cpu);
      AlignedKept(h, cpu.Abs(), e, pages, thrown, p, pg, cpu.pages[..]);
      ViewsSame(this, vs);
      LargeStep(this, vs, pg, m, w, p, pages);
      AtPage(p, p * PAGE);
      PageAligned(p, k);
      r := p * PAGE;
      NoPages(this, n + alignPages - 1);
    }

    /** allocate: a block of at least size bytes that was not live and overlaps none that is: an object of the
        least class that will do, or whole pages. */
    method Allocate(size: nat) returns (thrown: bool, r: nat, ghost z: nat)
      requires Valid() && size <= 0x8000_0000 * PAGE
      modifies cpu, cpu.pages, cpu.freeSpans, mem, pools, Lists()
      ensures Valid()
      ensures if size <= 16384 then
                var q := if size <= 8 then 8 else size;
                SizedPool(size) != 0 && z == IdxToSize(SizedPool(size) - 1)
                && q <= z && 4 * z < 5 * q && forall i: nat :: IdxToSize(i) >= q ==> z <= IdxToSize(i)
              else SizedPool(size) == 0 && z == (size + 4095) / 4096 * 4096
      ensures thrown <==> size > 0x4000_0000 * PAGE
      ensures thrown ==> r == 0
      ensures r == 0 ==> LiveSame(old(cpu.spans), old(Views()), cpu.spans, Views())
      ensures r == 0 && !thrown ==> NoRoom(SizedPool(size), (size + PAGE - 1) / PAGE)
      ensures r != 0 ==> LiveAdded(old(cpu.spans), old(Views()), cpu.spans, Views(), r, z, SizedPool(size))
      ensures LiveWords(old(cpu.spans), old(Views()), old(mem.next), cpu.spans, Views(), mem.next)
    {
      hide *;
      ghost var vs, m, w := Views(), cpu.spans, mem.next;
      var bytes := if size <= 8 then 8 else size;
      thrown := false;
      Constants();
      SizedPoolIs(size);
      SizedPoolServes(size);
      if bytes <= MAX_SMALL {
        r := AllocateSmall(bytes);
        z := IdxToSize(SizeToIdx(bytes));
        if r == 0 { NoRoomInPool(this, SizeToIdx(bytes) + 1, (size + PAGE - 1) / PAGE); }
      } else {
        ghost var n;
        thrown, r, n := AllocatePages(bytes);
        z := n * 4096;
        LiveWordsRefl(m, vs, cpu.spans, Views(), w);
      }
    }

    /** allocate_aligned, for an alignment of 2^k bytes: an object of the least power of two that will do, or
        whole pages. */
    method AllocateAligned(align: nat, size: nat, ghost k: nat) returns (thrown: bool, r: nat, ghost z: nat)
      requires Valid() && align == Pow2(k) && size + 2 * align <= 0x7FFF_FFFF * PAGE
      modifies cpu, cpu.pages, cpu.freeSpans, mem, pools, Lists()
      ensures Valid()
      ensures var q := if size <= 8 && align <= 8 then 8 else if size > align then size else align;
              if q <= 16384 && align <= 4096 then
                AlignedPool(align, size) != 0 && q <= z < 2 * q && exists e: nat :: z == Pow2(e)
              else AlignedPool(align, size) == 0 && z == (q + 4095) / 4096 * 4096
      ensures var n := z / 4096 + (if align > 4096 then align / 4096 else 1) - 1;
              && (thrown <==> AlignedPool(align, size) == 0 && n > 0x4000_0000)
              && (r == 0 && !thrown ==> NoRoom(AlignedPool(align, size), n))
      ensures thrown ==> r == 0
      ensures r == 0 ==> LiveSame(old(cpu.spans), old(Views()), cpu.spans, Views())
      ensures r != 0 ==>
                LiveAdded(old(cpu.spans), old(Views()), cpu.spans, Views(), r, z, AlignedPool(align, size))
                && r % align == 0
      ensures LiveWords(old(cpu.spans), old(Views()), old(mem.next), cpu.spans, Views(), mem.next)
    {
      hide *;
      ghost var vs, m, w := Views(), cpu.spans, mem.next;
      Constants();
      PowerPositive(k);
      var bytes := if size > align then size else align;
      if bytes <= 8 { bytes := 8; }
      thrown := false;
      AlignedPoolIs(align, size);
      AlignedPoolServes(align, size);
      if bytes <= MAX_SMALL && align <= PAGE {
        PowerClass(bytes);
        var rounded := Pow2(Log2Ceil(bytes));
        r := AllocateSmall(rounded);
        z := rounded;
        if r == 0 { NoRoomInPool(this, SizeToIdx(rounded) + 1, z / 4096); }
        if r != 0 { AlignedObject(r, Log2Ceil(bytes), k, bytes); }
      } else {
        ghost var n;
        thrown, r, n := AllocateAlignedPages(align, bytes, k);
        z := n * 4096;
        LiveWordsRefl(m, vs, cpu.spans, Views(), w);
      }
    }

    /** The block goes back to the pool, or to the page allocator, it came from. */
    method GiveBack(ptr: nat, pool: nat, ghost z: nat)
      requires Valid() && Live(ptr, z, pool)
      modifies cpu, cpu.pages, cpu.freeSpans, mem, pools, Lists()
      ensures Valid() && LiveRemoved(old(cpu.spans), old(Views()), cpu.spans, Views(), ptr)
      ensures cpu.pages == old(cpu.pages)
      ensures LiveWords(old(cpu.spans), old(Views()), old(mem.next), cpu.spans, Views(), mem.next)
    {
      hide *;
      ShapeIs(this);
      ghost var vs, h, pg, m, w := Views(), cpu.Abs(), cpu.pages[..], cpu.spans, mem.next;
      DisjointSpans(cpu);
      LivePlan(this, ptr, z, pool);
      if pool != 0 {
        var i: nat := pool - 1;
        PoolValid(this, i);
        ViewConsts(pools[i]);
        PoolParts(pools[i]);
        pools[i].Deallocate(ptr);
        ghost var v' := pools[i].View();
        forall x | 0 <= x < |pools| && x != i
          ensures pools[x].View() == vs[x] && pools[x].spansInUse == |pools[x].spans.Keys|
        {
          PoolsDiffer(this, i, x);
        }
        ViewsChanged(this, vs, i);
        DisjointSpans2(pools[i]);
        CountsFrom(this);
        ViewConsts(pools[i]);
        PoolGentle(vs, i, v', vs[i].obj.Keys, pg, m, w, cpu.pages[..], cpu.spans, mem.next, |pools|);
        AllocValid(this);
        GentleWords(i + 1, vs[i].obj.Keys, pg, m, w, cpu.pages[..], cpu.spans, mem.next);
        BackWords(vs, i, v', pg, m, w, cpu.spans, mem.next);
        PoolLiveRemoved(vs, i, v', pg, w, m, cpu.spans, ptr);
      } else {
        var page := ptr / PAGE;
        ListsOutside(this);
        cpu.FreeLarge(page);
        SameAbs(cpu);
        FreeKept(h, cpu.Abs(), page, pg, cpu.pages[..]);
        ViewsSame(this, vs);
        DisjointSpans(cpu);
        LargeNotOwned(m, page);
        AllStay(vs, pg, m, w, cpu.pages[..], cpu.spans);
        AllIdsKept(|pools|, pg, m, cpu.pages[..], cpu.spans);
        AllocValid(this);
        LiveWordsRefl(m, vs, cpu.spans, Views(), w);
        LargeLiveRemoved(vs, pg, w, m, cpu.spans, page);
      }
    }

    /** cpu_pages::free of a block of this CPU: it goes back to where it came from, told by the pool
        field of the page it begins in, and nothing else changes hands. */
    method Free(ptr: nat, ghost z: nat, ghost p: nat)
      requires Valid() && Live(ptr, z, p)
      modifies cpu, cpu.pages, cpu.freeSpans, mem, pools, Lists()
      ensures Valid() && LiveRemoved(old(cpu.spans), old(Views()), cpu.spans, Views(), ptr)
      ensures cpu.pages == old(cpu.pages)
      ensures LiveWords(old(cpu.spans), old(Views()), old(mem.next), cpu.spans, Views(), mem.next)
    {
      hide *;
      DispatchPlan(this, ptr, z, p);
      GiveBack(ptr, cpu.pages[ptr / PAGE].pool, z);
    }

    /** cpu_pages::free with a size: the pool is the one a plain request of that size is served from.
        It has to be the block's own: SizedAfterAligned says when it is. */
    method FreeSized(ptr: nat, size: nat, ghost z: nat)
      requires Valid() && Live(ptr, z, SizedPool(size))
      modifies cpu, cpu.pages, cpu.freeSpans, mem, pools, Lists()
      ensures Valid() && LiveRemoved(old(cpu.spans), old(Views()), cpu.spans, Views(), ptr)
      ensures cpu.pages == old(cpu.pages)
      ensures LiveWords(old(cpu.spans), old(Views()), old(mem.next), cpu.spans, Views(), mem.next)
    {
      hide *;
      GiveBack(ptr, SizedPool(size), z);
    }

    /** object_size: what the block really holds. */
    method ObjectSize(ptr: nat, ghost z: nat, ghost p: nat) returns (size: nat)
      requires Valid() && Live(ptr, z, p)
      ensures size == z
    {
      hide *;
      ShapeIs(this);
      DispatchPlan(this, ptr, z, p);
      var page := ptr / PAGE;
      if cpu.pages[page].pool != 0 {
        ViewConsts(pools[cpu.pages[page].pool - 1]);
        size := pools[cpu.pages[page].pool - 1].size;
      } else {
        size := cpu.pages[page].spanSize * PAGE;
      }
    }

    /** shrink: the block keeps its first bytes, and the pages behind them are free; an object of a
        small pool stays as it is. */
    method Shrink(ptr: nat, newSize: nat, ghost z: nat, ghost p: nat)
      requires Valid() && Live(ptr, z, p) && (p == 0 ==> 1 <= newSize <= z)
      modifies cpu, cpu.pages, cpu.freeSpans
      ensures Valid()
      ensures p != 0 ==> LiveSame(old(cpu.spans), old(Views()), cpu.spans, Views())
      ensures p == 0 ==>
                LiveCut(old(cpu.spans), old(Views()), cpu.spans, Views(), ptr, (newSize + PAGE - 1) / PAGE * PAGE)
    {
      hide *;
      ShapeIs(this);
      ghost var vs, h, pg, m, w := Views(), cpu.Abs(), cpu.pages[..], cpu.spans, mem.next;
      DisjointSpans(cpu);
      DispatchPlan(this, ptr, z, p);
      var page := ptr / PAGE;
      if cpu.pages[page].pool != 0 {
        LiveSameRefl(m, vs);
        return;
      }
      LargeIs2(m, page);
      ShrinkPages(this, ptr, newSize, z);
      PagesFor(newSize);
      var pages := (newSize + PAGE - 1) / PAGE;
      ListsOutside(this);
      cpu.Shrink(page, pages);
      SameAbs(cpu);
      ShrinkKept(h, cpu.Abs(), page, pages, pg, cpu.pages[..]);
      ViewsSame(this, vs);
      DisjointSpans(cpu);
      AllStay(vs, pg, m, w, cpu.pages[..], cpu.spans);
      AllIdsKept(|pools|, pg, m, cpu.pages[..], cpu.spans);
      AllocValid(this);
      LargeLiveCut(vs, pg, w, m, cpu.spans, page, pages);
    }

    /** do_resize: the pool grows, and no client notices; the new pages are free, in one span. Without
        room for the new page array, and only then, nothing changes. */
    method GrowTo(newPages: u32, garbage: seq<Page>) returns (ok: bool)
      requires Valid() && (cpu.nrPages > 0 || newPages == 0) && |garbage| == newPages + 1
      modifies cpu, cpu.pages, cpu.freeSpans
      ensures Valid() && LiveSame(old(cpu.spans), old(Views()), cpu.spans, Views())
      ensures ok ==> cpu.nrPages == if newPages > old(cpu.nrPages) then newPages else old(cpu.nrPages)
      ensures ok <==> newPages <= old(cpu.nrPages) || !old(NoRoom(0, ArrayPages(newPages)))
      ensures ok && newPages > old(cpu.nrPages) ==> !NoRoom(0, newPages - old(cpu.nrPages))
      ensures !ok || newPages <= old(cpu.nrPages) ==> cpu.Abs() == old(cpu.Abs())
      ensures cpu.pages == old(cpu.pages) || fresh(cpu.pages)
    {
      hide *;
      ShapeIs(this);
      ghost var vs, h, pg, m, w := Views(), cpu.Abs(), cpu.pages[..], cpu.spans, mem.next;
      DisjointSpans(cpu);
      NrIs(cpu);
      ListsOutside(this);
      AbsIs(cpu);
      NoPages(this, ArrayPages(newPages));
      ok := cpu.DoResize(newPages, garbage);
      SameAbs(cpu);
      AbsIs(cpu);
      NrIs(cpu);
      GrowCases(h, newPages);
      if newPages > h.nr { NoPages(this, newPages - h.nr); }
      DisjointSpans(cpu);
      if ok && newPages > h.nr {
        GrowthKept(h, cpu.Abs(), newPages, pg, cpu.pages[..]);
      } else {
        SameKept(pg, m, cpu.pages[..]);
      }
      ViewsSame(this, vs);
      AllStay(vs, pg, m, w, cpu.pages[..], cpu.spans);
      AllIdsKept(|pools|, pg, m, cpu.pages[..], cpu.spans);
      AllocValid(this);
      LargeLiveSame(vs, m, cpu.spans);
    }

    /** One turn of resize's loop, on the way from pool h to n pages. */
    method GrowStep(size: nat, garbage: nat -> seq<Page>, ghost h: Heap, ghost n: nat) returns (ok: bool)
      requires Valid() && n <= 0x100_0000 && h.nr > 0 && Climbing(h, cpu.Abs(), n)
      requires size == n * PAGE && cpu.nrPages < n && forall n: nat :: |garbage(n)| == n + 1
      modifies cpu, cpu.pages, cpu.freeSpans
      ensures Valid() && LiveSame(old(cpu.spans), old(Views()), cpu.spans, Views())
      ensures ok ==> Climbing(h, cpu.Abs(), n) && old(cpu.nrPages) < cpu.nrPages <= n
      ensures !ok ==> cpu.Abs() == h && NoFreeSpanOf(h, ArrayPages(if n <= 4 * h.nr then n else 4 * h.nr))
      ensures cpu.pages == old(cpu.pages) || fresh(cpu.pages)
    {
      hide *;
      ghost var h1 := cpu.Abs();
      var tmp := if size <= 4 * cpu.nrPages * PAGE then size else 4 * cpu.nrPages * PAGE;
      NextSize(this, h, size, n, tmp);
      NoPages(this, ArrayPages(tmp / PAGE));
      ok := GrowTo(tmp / PAGE, garbage(tmp / PAGE));
      NoPages(this, tmp / PAGE - h1.nr);
      NrIs(cpu);
      ClimbStep(h, h1, cpu.Abs(), n, tmp / PAGE, ok);
    }

    /** resize: grow in steps, at most fourfold at a time, up to newSize bytes in whole huge pages; false
        when a step throws. That is never one behind the first, for each step leaves room for the next: all
        is done, or nothing. A CPU has 2^36 bytes of addresses. On a pool nobody has used it must not be
        called with a size: ResizeStuck. */
    method Resize(newSize: nat, garbage: nat -> seq<Page>) returns (ok: bool)
      requires Valid() && newSize <= 0x10_0000_0000 && forall n: nat :: |garbage(n)| == n + 1
      requires cpu.nrPages > 0 || newSize < 0x20_0000
      modifies cpu, cpu.pages, cpu.freeSpans
      ensures Valid() && LiveSame(old(cpu.spans), old(Views()), cpu.spans, Views())
      ensures var n, nr := newSize / 0x20_0000 * 512, old(cpu.nrPages);
              && (ok ==> cpu.nrPages == if n > nr then n else nr)
              && (!ok ==> cpu.Abs() == old(cpu.Abs()))
              && (ok <==> n <= nr || !old(NoRoom(0, ArrayPages(if n <= 4 * nr then n else 4 * nr))))
      ensures !old(NoRoom(0, cpu.nrPages / 32 + 2)) ==> ok
    {
      hide *;
      ghost var vs, m, n, h := Views(), cpu.spans, newSize / 0x20_0000 * 512, cpu.Abs();
      ClimbBegins(this, n);
      HugePages(newSize);
      var size := AlignDown(64, newSize, HUGE_PAGE);
      ok := true;
      while cpu.nrPages * PAGE < size
        invariant Valid() && LiveSame(m, vs, cpu.spans, Views()) && Climbing(h, cpu.Abs(), n)
        invariant cpu.pages == old(cpu.pages) || fresh(cpu.pages)
        decreases n - cpu.nrPages
      {
        ghost var m1, vs1 := cpu.spans, Views();
        PagesReached(n, cpu.nrPages);
        ok := GrowStep(size, garbage, h, n);
        LiveSameTrans(m, vs, m1, vs1, cpu.spans, Views());
        if !ok {
          return;
        }
      }
      NrIs(cpu);
      PagesReached(n, cpu.nrPages);
      ClimbEnd(h, cpu.Abs(), n);
    }

    /** A client writes a word of its own block: no other block, and no list, is touched. */
    method ClientWrite(x: nat, word: nat, ghost a: nat, ghost z: nat, ghost p: nat)
      requires Valid() && Live(a, z, p) && a <= x && x + WORD <= a + z
      modifies mem
      ensures Valid() && mem.next == old(mem.next)[x := word]
    {
      hide *;
      ShapeIs(this);
      DisjointSpans(cpu);
      LiveIs(this, a, z, p);
      ghost var vs, w := Views(), mem.next;
      mem.next := mem.next[x := word];
      ViewsSame(this, vs);
      WordWritten(vs, cpu.pages[..], cpu.spans, w, x, word, a, z, p);
      AllocValid(this);
    }

    /** drain_cross_cpu_freelist, once the stack has been taken: the blocks it links are freed one by one,
        each only after its link has been read, and exactly they stop being live. */
    method Drain(head: nat, ghost q: seq<nat>, ghost zs: seq<nat>, ghost ps: seq<nat>)
      requires Valid() && Chain(mem.next, head, q) && NoDup(q) && |zs| == |ps| == |q|
      requires forall i :: 0 <= i < |q| ==> Live(q[i], zs[i], ps[i])
      modifies cpu, cpu.pages, cpu.freeSpans, mem, pools, Lists()
      ensures Valid() && LiveDrained(old(cpu.spans), old(Views()), cpu.spans, Views(), q)
      ensures LiveWords(old(cpu.spans), old(Views()), old(mem.next), cpu.spans, Views(), mem.next)
    {
      hide *;
      ghost var vs, m, w := Views(), cpu.spans, mem.next;
      ghost var k := 0;
      var p := head;
      assert q[..0] == [] && q[0..] == q;
      DrainedNone(m, vs);
      LiveWordsRefl(m, vs, m, vs, w);
      AllLive(this, q, zs, ps);
      while p != 0
        invariant Valid() && k <= |q| && Chain(mem.next, p, q[k..]) && LiveDrained(m, vs, cpu.spans, Views(), q[..k])
        invariant LiveWords(m, vs, w, cpu.spans, Views(), mem.next)
        invariant cpu.pages == old(cpu.pages)
        decreases |q| - k
      {
        ghost var m1, vs1, w1 := cpu.spans, Views(), mem.next;
        ChainPop(w1, p, q[k..]);
        assert q[k..][0] == q[k] && q[k..][1..] == q[k + 1..];
        StillLive(this, m, vs, q, zs, ps, k);
        var n := mem.next[p];
        Free(p, zs[k], ps[k]);
        DrainedStep(m, vs, m1, vs1, cpu.spans, Views(), q, k);
        DrainedWords(m, vs, w, m1, vs1, w1, cpu.spans, Views(), mem.next, q, k);
        DrainedChain(this, m1, vs1, w1, n, q, zs, ps, k);
        p := n;
        k := k + 1;
      }
      ChainEmpty(mem.next, p, q[k..]);
      assert k == |q| && q[..k] == q;
    }
  }

  lemma ShapeIs(a: Allocator)
    requires a.Valid()
    ensures a.Shape() && |a.pools| == NR_SMALL_POOLS && a.CountsOk() && a.cpu.Rep() && FullInv(a.cpu.Abs())
    ensures AllOk(a.Views(), a.cpu.pages[..], a.cpu.spans, a.mem.next) && IdsOk(a.cpu.spans, |a.pools|)
    ensures forall i :: 0 <= i < |a.pools| ==>
              a.pools[i].cpu == a.cpu && a.pools[i].mem == a.mem && a.pools[i].id == i + 1
              && a.pools[i].size == IdxToSize(i)
    ensures forall i :: 0 <= i < |a.pools| ==>
              a.pools[i].spanList in a.Lists() && a.pools[i].spansInUse == |a.pools[i].spans.Keys|
  {
    hide FullInv, CpuPages.Rep, AllOk, IdsOk, IdxToSize, SmallPool.Sized;
  }

  lemma PoolValid(a: Allocator, i: nat)
    requires a.Valid() && i < |a.pools|
    ensures a.pools[i].Valid()
  {
    hide FullInv, CpuPages.Rep, IdsOk, IdxToSize, SmallPool.Sized, PoolCore, AllCarved;
    assert a.Views()[i] == a.pools[i].View();
    ViewIs(a.pools[i]);
  }

  lemma DisjointSpans(c: CpuPages)
    requires c.Rep() && FullInv(c.Abs())
    ensures SpansDisjoint(c.spans) && c.Abs().spans == c.spans
  {
    hide CountOk, NoAdjacent, Settled, ArrayOk, ListsOk, SpansInside, CpuPages.Rep;
    Unpack(c.Abs());
    AbsIs(c);
  }

  lemma DisjointSpans2(p: SmallPool)
    requires p.Valid()
    ensures SpansDisjoint(p.cpu.spans) && p.cpu.Rep() && FullInv(p.cpu.Abs()) && p.spansInUse == |p.spans.Keys|
    ensures PoolOk(p.View(), p.cpu.pages[..], p.cpu.spans, p.mem.next)
  {
    hide *;
    ValidOf(p);
    PartsOf(p);
    ViewIs(p);
    PoolOkFrom(p.View(), p.cpu.pages[..], p.cpu.spans, p.mem.next);
  }

  lemma PoolOkFrom(v: Pool, pg: seq<Page>, m: map<nat, Span>, mem: map<nat, nat>)
    requires PoolCore(v, pg, m, mem) && AllCarved(v) && v.popped == 0
    ensures PoolOk(v, pg, m, mem)
  {
    hide PoolCore, AllCarved;
  }

  lemma PoolParts(p: SmallPool)
    ensures p.View().obj == p.obj
  {
  }

  lemma ViewConsts(p: SmallPool)
    ensures p.View().id == p.id && p.View().size == p.size
  {
  }

  lemma PoolsDiffer(a: Allocator, i: nat, k: nat)
    requires a.Shape() && i < |a.pools| && k < |a.pools| && i != k
    ensures a.pools[k] != a.pools[i] && a.pools[k].spanList != a.pools[i].spanList
            && a.pools[k].spanList !in a.cpu.freeSpans
  {
    hide SmallPool.Sized, IdxToSize;
  }

  lemma ViewsChanged(a: Allocator, vs: seq<Pool>, i: nat)
    requires i < |a.pools| == |vs| && forall k :: 0 <= k < |a.pools| && k != i ==> a.pools[k].View() == vs[k]
    ensures a.Views() == vs[i := a.pools[i].View()]
  {
  }

  lemma CountsFrom(a: Allocator)
    requires forall x :: 0 <= x < |a.pools| ==> a.pools[x].spansInUse == |a.pools[x].spans.Keys|
    ensures a.CountsOk()
  {
  }

  lemma PoolGentle(vs: seq<Pool>, i: nat, v': Pool, keys: set<nat>, pg: seq<Page>, m: map<nat, Span>, w: map<nat, nat>,
                   pg': seq<Page>, m': map<nat, Span>, w': map<nat, nat>, n: nat)
    requires AllOk(vs, pg, m, w) && i < |vs| == n && PoolOk(v', pg', m', w') && v'.id == i + 1 && IdsOk(m, n)
    requires Gentle(i + 1, keys, pg, m, w, pg', m', w') && (keys == v'.obj.Keys || keys == vs[i].obj.Keys)
    requires SpansDisjoint(m) && SpansDisjoint(m')
    ensures AllOk(vs[i := v'], pg', m', w') && IdsOk(m', n) && LargesKept(m, m')
  {
    hide AllOk, PoolOk, IdsOk, OthersKept, SpansDisjoint, LargesKept;
    OthersStay(vs, i, v', keys, pg, m, w, pg', m', w');
    IdsKept(i + 1, n, pg, m, pg', m');
  }

  lemma AllocValid(a: Allocator)
    requires a.Shape() && a.CountsOk() && a.cpu.Rep() && FullInv(a.cpu.Abs())
    requires AllOk(a.Views(), a.cpu.pages[..], a.cpu.spans, a.mem.next) && IdsOk(a.cpu.spans, |a.pools|)
    ensures a.Valid()
  {
    hide FullInv, CpuPages.Rep, AllOk, IdsOk, Allocator.Shape, Allocator.CountsOk;
  }

  /** At a multiple of the object size behind the start of a page. */
  ghost predicate Placed(o: nat, size: nat) {
    exists page: nat, j: nat :: o == page * PAGE + j * size
  }

  lemma ObjectPlaced(v: Pool, pg: seq<Page>, m: map<nat, Span>, mem: map<nat, nat>, o: nat)
    requires PoolOk(v, pg, m, mem) && IsHeld(v, o)
    ensures Placed(o, v.size)
  {
    hide SpansMatch, LooseOk, ListsHold, QueueOk, AllCarved;
    assert HomeOk(v, o);
    assert o == v.obj[o].span * PAGE + v.obj[o].k * v.size;
  }

  lemma ClassInRange(i: nat)
    requires i < NR_SMALL_POOLS
    ensures 1 <= IdxToSize(i) <= MAX_SMALL
  {
    hide IdxToSize, SizeToIdx;
    PoolsInUse(8);
    ClassesMonotone(i, 56);
    ClassesMonotone(0, i);
    FirstClass();
  }

  lemma FirstClass()
    ensures IdxToSize(0) == 1
  {
    AndLow(0);
  }

  lemma NothingOwned(c: CpuPages)
    requires c.Abs() == Untouched()
    ensures forall s: nat, id: nat :: !OwnedBy(c.spans, s, id)
    ensures forall s: nat :: !IsLarge(c.spans, s)
  {
    AbsIs(c);
  }

  lemma FreshValid(a: Allocator)
    requires |a.pools| == NR_SMALL_POOLS && a.cpu.Rep() && FullInv(a.cpu.Abs())
    requires forall i :: 0 <= i < |a.pools| ==>
               a.pools[i].cpu == a.cpu && a.pools[i].mem == a.mem && a.pools[i].id == i + 1
    requires forall i :: 0 <= i < |a.pools| ==>
               a.pools[i].size == IdxToSize(i) && a.pools[i].Sized() && a.pools[i].spanList !in a.cpu.freeSpans
    requires forall i, j :: 0 <= i < j < |a.pools| ==>
               a.pools[i] != a.pools[j] && a.pools[i].spanList != a.pools[j].spanList
    requires forall i :: 0 <= i < |a.pools| ==> PoolOk(a.pools[i].View(), a.cpu.pages[..], a.cpu.spans, a.mem.next)
    requires forall i :: 0 <= i < |a.pools| ==> a.pools[i].spansInUse == |a.pools[i].spans.Keys|
    requires forall s: nat, id: nat :: !OwnedBy(a.cpu.spans, s, id)
    ensures a.Valid()
  {
    hide FullInv, CpuPages.Rep, PoolOk, IdxToSize, SmallPool.Sized, OwnedBy;
    forall i | 0 <= i < |a.pools| ensures a.Views()[i].id == i + 1 { ViewIs(a.pools[i]); }
  }

  lemma FreshPool(p: SmallPool)
    requires p.Valid() && p.obj == map[]
    ensures p.Sized() && p.spanList !in p.cpu.freeSpans
            && PoolOk(p.View(), p.cpu.pages[..], p.cpu.spans, p.mem.next)
    ensures p.spansInUse == |p.spans.Keys| && p.View().obj == map[] && p.View().id == p.id
  {
    hide *;
    ValidOf(p);
    PartsOf(p);
    DisjointSpans2(p);
    PoolParts(p);
    ViewConsts(p);
  }

  lemma NothingLive(a: Allocator)
    requires forall s: nat :: !IsLarge(a.cpu.spans, s)
    requires forall i :: 0 <= i < |a.pools| ==> a.pools[i].View().obj == map[]
    ensures forall x: nat, z: nat, p: nat :: !a.Live(x, z, p)
  {
    hide IsLarge, SmallPool.View;
    forall x: nat, z: nat, i: nat | i < |a.pools|
      ensures !SmallLive(a.Views(), i, x, z)
    {
      assert a.Views()[i] == a.pools[i].View();
    }
  }

  lemma NoRoomFrom(a: Allocator, i: nat, n: nat)
    requires i < |a.pools| && Exhausted(a.pools[i].View()) && NoFreeSpanOf(a.cpu.Abs(), a.pools[i].span)
    ensures a.NoRoom(i + 1, n)
  {
    hide Exhausted, NoFreeSpanOf;
  }

  /** How many pages were asked for does not matter to a pool. */
  lemma NoRoomInPool(a: Allocator, p: nat, n: nat)
    requires p != 0 && a.NoRoom(p, 0)
    ensures a.NoRoom(p, n)
  {
    hide Exhausted, NoFreeSpanOf;
  }

  lemma NoPages(a: Allocator, n: nat)
    ensures NoFreeSpanOf(a.cpu.Abs(), n) <==> a.NoRoom(0, n)
  {
    hide NoFreeSpanOf;
  }

  // ---------------------------------------------------------------- arithmetic of requests

  lemma Constants()
    ensures MAX_SMALL == 16384 && PAGE == 4096
  {
  }

  lemma PagesFor(size: nat)
    requires 1 <= size
    ensures var n := (size + PAGE - 1) / PAGE; n >= 1 && size <= n * PAGE < size + PAGE
    ensures size <= 0x8000_0000 * PAGE ==> (size + PAGE - 1) / PAGE <= 0x8000_0000
    ensures (size + PAGE - 1) / PAGE > 0x4000_0000 <==> size > 0x4000_0000 * PAGE
    ensures PAGE == 4096
  {
  }

  lemma WordIs()
    ensures WORD == 8
  {
  }

  lemma PowerPositive(k: nat)
    ensures Pow2(k) >= 1
  {
  }

  lemma AlignPages(align: nat, size: nat, k: nat)
    requires align == Pow2(k) && 1 <= size && size + align <= 0x7FFF_FFFF * PAGE
    ensures var a := (if align > PAGE then align else PAGE) / PAGE;
            a == Pow2(if k > 12 then k - 12 else 0) && (size + PAGE - 1) / PAGE + a - 1 <= 0x8000_0000
            && a == (if align > PAGE then align / PAGE else 1)
  {
    hide Pow2;
    Powers();
    if k > 12 {
      Pow2Sum(k - 12, 12);
      Pow2Less(12, k);
      DivideOut(Pow2(k - 12));
    } else {
      Pow2Monotone(k, 12);
    }
    PowerZero();
    PagesSum(size, align);
  }

  lemma PowerZero()
    ensures Pow2(0) == 1
  {
  }

  lemma DivideOut(a: nat)
    ensures a * PAGE / PAGE == a
  {
  }

  lemma PagesSum(size: nat, align: nat)
    requires size + align <= 0x7FFF_FFFF * PAGE
    ensures (size + PAGE - 1) / PAGE + (if align > PAGE then align / PAGE else 1) - 1 <= 0x8000_0000
  {
  }

  /** A page at a multiple of the alignment in pages is at a multiple of the alignment in bytes. */
  lemma PageAligned(p: nat, k: nat)
    requires k > 12 ==> p % Pow2(k - 12) == 0
    ensures p * PAGE % Pow2(k) == 0
  {
    hide Pow2;
    Powers();
    PowerPositive(k);
    if k > 12 {
      Pow2Sum(k - 12, 12);
      PowerPositive(k - 12);
      Rescale(p, Pow2(k - 12), PAGE);
    } else {
      Pow2Sum(12 - k, k);
      MultipleIs(p * Pow2(12 - k), Pow2(k));
      assert p * PAGE == p * Pow2(12 - k) * Pow2(k) by { MulAssoc(p, Pow2(12 - k), Pow2(k)); }
    }
  }

  lemma MulAssoc(a: nat, b: nat, c: nat)
    ensures a * (b * c) == a * b * c
  {
  }

  lemma MultipleIs(a: nat, b: nat)
    requires b >= 1
    ensures a * b % b == 0
  {
    Factor(0, 0, 1, a, b);
  }

  lemma Rescale(p: nat, a: nat, c: nat)
    requires a >= 1 && c >= 1 && p % a == 0
    ensures p * c % (a * c) == 0
  {
    var q := p / a;
    assert p == q * a;
    assert p * c == q * (a * c) by { MulAssoc(q, a, c); }
    MultipleIs(q, a * c);
  }

  lemma AlignedObject(r: nat, e: nat, k: nat, bytes: nat)
    requires Placed(r, Pow2(e)) && Pow2(k) <= bytes <= Pow2(e) && Pow2(k) <= PAGE
    ensures r % Pow2(k) == 0
  {
    hide Pow2;
    Powers();
    var page: nat, j: nat :| r == page * PAGE + j * Pow2(e);
    if k > e { Pow2Less(e, k); }
    if k > 12 { Pow2Less(12, k); }
    SmallAligned(page, j, e, k);
  }

  lemma Pow2Less(a: nat, b: nat)
    requires a < b
    ensures Pow2(a) < Pow2(b)
  {
    hide Pow2;
    Pow2Monotone(a + 1, b);
    NextPow2(a);
    PowerPositive(a);
  }

  // ---------------------------------------------------------------- large blocks and dispatch

  lemma ListsOutside(a: Allocator)
    requires a.Shape()
    ensures forall i :: 0 <= i < |a.pools| ==> a.pools[i].spanList !in a.cpu.freeSpans
  {
    hide IdxToSize, SmallPool.Sized;
  }

  lemma ViewsSame(a: Allocator, vs: seq<Pool>)
    requires |vs| == |a.pools| && forall i :: 0 <= i < |vs| ==> a.pools[i].View() == vs[i]
    ensures a.Views() == vs
  {
  }

  lemma LargeStep(a: Allocator, vs: seq<Pool>, pg: seq<Page>, m: map<nat, Span>, w: map<nat, nat>, p: nat, n: nat)
    requires a.Shape() && a.CountsOk() && a.cpu.Rep() && FullInv(a.cpu.Abs()) && a.Views() == vs && a.mem.next == w
    requires AllOk(vs, pg, m, w) && IdsOk(m, |a.pools|) && SpansDisjoint(m)
    requires forall id: nat :: PoolKept(id, pg, m, a.cpu.pages[..], a.cpu.Abs().spans)
    requires p == 0 ==> LargesKept(m, a.cpu.Abs().spans)
    requires p != 0 ==> NewLarge(m, a.cpu.Abs().spans, p, n)
    ensures a.Valid()
    ensures p == 0 ==> LiveSame(m, vs, a.cpu.spans, vs)
    ensures p != 0 ==> LiveAdded(m, vs, a.cpu.spans, vs, p * PAGE, n * PAGE, 0)
  {
    hide *;
    DisjointSpans(a.cpu);
    AllStay(vs, pg, m, w, a.cpu.pages[..], a.cpu.spans);
    AllIdsKept(|a.pools|, pg, m, a.cpu.pages[..], a.cpu.spans);
    AllocValid(a);
    if p == 0 { LargeLiveSame(vs, m, a.cpu.spans); }
    else { LargeLiveAdded(vs, a.cpu.pages[..], w, m, a.cpu.spans, p, n); }
  }

  /** The pool field of the page a live block begins in names the pool it came from, or none for a
      large block, whatever stale fields other pages carry. */
  lemma Dispatch(vs: seq<Pool>, pg: seq<Page>, m: map<nat, Span>, w: map<nat, nat>, nr: nat, a: nat, z: nat, p: nat)
    requires AllOk(vs, pg, m, w) && Tagged(pg, m, nr) && IsLive(m, vs, a, z, p)
    ensures a / PAGE < |pg| && pg[a / PAGE].pool == p
    ensures p == 0 ==> IsLarge(m, a / PAGE) && a == a / PAGE * PAGE && pg[a / PAGE].spanSize * PAGE == z
    ensures p != 0 ==> p <= |vs| && IsHeld(vs[p - 1], a) && z == vs[p - 1].size
  {
    hide AllOk, Tagged;
    if p == 0 {
      assert IsLarge(m, a / PAGE);
      KindByPool(pg, m, nr, a / PAGE);
      TagOf(pg, m, nr, a / PAGE);
    } else {
      SmallParts(vs, pg, m, w, p - 1);
      hide PoolCore, SpansMatch, ObjsOk;
      SpanOfObject(vs[p - 1], pg, m, nr, a);
    }
  }

  lemma TagOf(pg: seq<Page>, m: map<nat, Span>, nr: nat, s: nat)
    requires Tagged(pg, m, nr) && s in m && m[s].kind.Large?
    ensures s < |pg| && pg[s].spanSize == m[s].len
  {
    assert TagsAt(pg, s, m[s]);
  }

  lemma DispatchPlan(a: Allocator, ptr: nat, z: nat, p: nat)
    requires a.Valid() && a.Live(ptr, z, p)
    ensures ptr / PAGE < a.cpu.pages.Length && PAGE == 4096 && a.cpu.pages[ptr / PAGE].pool == p
    ensures p == 0 ==>
              IsLarge(a.cpu.spans, ptr / PAGE) && ptr == ptr / PAGE * PAGE
              && a.cpu.pages[ptr / PAGE].spanSize * PAGE == z
    ensures p != 0 ==> p <= |a.pools| && IsHeld(a.pools[p - 1].View(), ptr) && z == a.pools[p - 1].View().size
  {
    hide *;
    ShapeIs(a);
    RepParts(a.cpu);
    NrIs(a.cpu);
    PageIs();
    LiveIs(a, ptr, z, p);
    LiveLies(a.Views(), a.cpu.pages[..], a.cpu.spans, a.mem.next, ptr, z, p);
    DisjointSpans(a.cpu);
    if a.cpu.nrPages == 0 { NoSpans(a.cpu.Abs()); }
    Dispatch(a.Views(), a.cpu.pages[..], a.cpu.spans, a.mem.next, a.cpu.nrPages, ptr, z, p);
  }

  lemma LivePlan(a: Allocator, ptr: nat, z: nat, p: nat)
    requires a.Valid() && a.Live(ptr, z, p)
    ensures PAGE == 4096
    ensures p == 0 ==>
              IsLarge(a.cpu.spans, ptr / PAGE) && ptr / PAGE in a.cpu.spans && a.cpu.spans[ptr / PAGE].kind.Large?
              && ptr == ptr / PAGE * PAGE
    ensures p != 0 ==> p <= |a.pools| && IsHeld(a.pools[p - 1].View(), ptr)
  {
    hide *;
    DispatchPlan(a, ptr, z, p);
    LargeIs2(a.cpu.spans, ptr / PAGE);
  }

  lemma LargeIs2(m: map<nat, Span>, s: nat)
    ensures IsLarge(m, s) ==> s in m && m[s].kind.Large?
  {
  }

  lemma LiveIs(a: Allocator, x: nat, z: nat, p: nat)
    requires a.Live(x, z, p)
    ensures IsLive(a.cpu.spans, a.Views(), x, z, p)
  {
  }

  lemma LargeNotOwned(m: map<nat, Span>, s: nat)
    requires IsLarge(m, s)
    ensures forall id: nat :: !OwnedBy(m, s, id)
  {
  }

  /** In every state the calls can reach, no two live blocks overlap; a live block has one size and
      one origin. */
  lemma LiveDisjoint(a: Allocator, x: nat, z: nat, p: nat, y: nat, u: nat, q: nat)
    requires a.Valid() && a.Live(x, z, p) && a.Live(y, u, q) && (x != y || z != u || p != q)
    ensures x + z <= y || y + u <= x
  {
    hide *;
    ShapeIs(a);
    DisjointSpans(a.cpu);
    LiveIs(a, x, z, p);
    LiveIs(a, y, u, q);
    LiveApart(a.Views(), a.cpu.pages[..], a.cpu.spans, a.mem.next, x, z, p, y, u, q);
  }

  // ---------------------------------------------------------------- shrinking, growing, writing

  const HUGE_PAGE: nat := 512 * PAGE

  lemma LiveSameRefl(m: map<nat, Span>, vs: seq<Pool>)
    ensures LiveSame(m, vs, m, vs)
  {
  }

  lemma LiveSameTrans(m: map<nat, Span>, vs: seq<Pool>, m1: map<nat, Span>, vs1: seq<Pool>, m2: map<nat, Span>,
                      vs2: seq<Pool>)
    requires LiveSame(m, vs, m1, vs1) && LiveSame(m1, vs1, m2, vs2)
    ensures LiveSame(m, vs, m2, vs2)
  {
    hide IsLive;
    forall a: nat, x: nat, p: nat ensures IsLive(m2, vs2, a, x, p) <==> IsLive(m, vs, a, x, p) {
      assert IsLive(m1, vs1, a, x, p) <==> IsLive(m, vs, a, x, p);
    }
  }

  lemma ShrinkPages(a: Allocator, ptr: nat, newSize: nat, z: nat)
    requires a.Live(ptr, z, 0) && 1 <= newSize <= z
    ensures IsLarge(a.cpu.spans, ptr / PAGE) && ptr == ptr / PAGE * PAGE
    ensures 1 <= (newSize + PAGE - 1) / PAGE <= a.cpu.spans[ptr / PAGE].len
  {
    LiveIs(a, ptr, z, 0);
    hide Allocator.Live, Allocator.Views;
    LargeLies(a.cpu.spans, ptr, z);
    RoundUpWithin(newSize, a.cpu.spans[ptr / PAGE].len);
  }

  lemma RoundUpWithin(size: nat, n: nat)
    requires 1 <= size <= n * PAGE
    ensures 1 <= (size + PAGE - 1) / PAGE <= n
  {
  }

  lemma LargeLiveCut(vs: seq<Pool>, pg: seq<Page>, w: map<nat, nat>, m: map<nat, Span>, m': map<nat, Span>, r: nat,
                     n: nat)
    requires AllOk(vs, pg, m, w) && SpansDisjoint(m) && IsLarge(m, r) && r in m' && m'[r] == Span(n, Large)
    requires forall s: nat :: IsLarge(m', s) <==> IsLarge(m, s)
    requires forall s: nat :: IsLarge(m, s) && s != r ==> SpanStays(m, m', s)
    ensures LiveCut(m, vs, m', vs, r * PAGE, n * PAGE)
  {
    hide AllOk, SpansDisjoint;
    var b, y := r * PAGE, n * PAGE;
    forall a: nat, x: nat, p: nat
      ensures IsLive(m', vs, a, x, p) <==> if a == b then x == y && p == 0 else IsLive(m, vs, a, x, p)
    {
      AtPage(r, a);
      AtPage(r, b);
      assert IsLarge(m', a / PAGE) <==> IsLarge(m, a / PAGE);
      if IsLarge(m, a / PAGE) && a / PAGE != r { assert SpanStays(m, m', a / PAGE); }
      if p > 0 { NoObjectAt(vs, pg, m, w, r, x, p); }
    }
  }

  lemma GrowCases(h: Heap, nr: u32)
    requires FullInv(h) && (h.nr > 0 || nr == 0)
    ensures var (h', ok) := Grow(h, nr);
            if nr <= h.nr then ok && h' == h
            else (ok <==> !NoFreeSpanOf(h, ArrayPages(nr)))
                 && if ok then !NoFreeSpanOf(h', nr - h.nr) else h' == h
  {
    hide NoFreeSpanOf, FullInv, ArrayPages, AllocLarge, Moved;
    if nr > h.nr { GrowthRoom(h, nr); }
  }

  lemma RoomMore(h: Heap, m: nat, n: nat)
    requires !NoFreeSpanOf(h, m) && n <= m
    ensures !NoFreeSpanOf(h, n)
  {
  }

  /** Room for the page array of a pool four times as large is room for the first step. */
  lemma FirstFits(h: Heap, nr: nat, first: u32)
    requires first <= 4 * nr
    ensures !NoFreeSpanOf(h, nr / 32 + 2) ==> !NoFreeSpanOf(h, ArrayPages(first))
  {
    hide NoFreeSpanOf, ArrayPages;
    ArrayPagesFit(first);
    if !NoFreeSpanOf(h, nr / 32 + 2) { RoomMore(h, nr / 32 + 2, ArrayPages(first)); }
  }

  /** Half a pool is room for the page array of one four times as large. */
  lemma NextFits(h: Heap, nr: nat, next: u32)
    requires 4 <= nr && next <= 4 * nr && !NoFreeSpanOf(h, nr / 2)
    ensures !NoFreeSpanOf(h, ArrayPages(next))
  {
    hide NoFreeSpanOf, ArrayPages;
    ArrayPagesFit(next);
    RoomMore(h, nr / 2, ArrayPages(next));
  }

  /** A pool that has grown fourfold has half of it free, in one span. */
  lemma RoomLeft(h: Heap, nr: nat, next: nat)
    requires nr < next && !NoFreeSpanOf(h, next - nr)
    ensures next == 4 * nr ==> !NoFreeSpanOf(h, next / 2)
  {
    hide NoFreeSpanOf;
    if next == 4 * nr { RoomMore(h, next - nr, next / 2); }
  }

  lemma SameKept(pg: seq<Page>, m: map<nat, Span>, pg': seq<Page>)
    requires PoolFrame(pg, pg', m, m)
    ensures forall id: nat :: PoolKept(id, pg, m, pg', m)
    ensures LargesKept(m, m)
  {
    hide PoolFrame, PoolKept;
    forall id: nat ensures PoolKept(id, pg, m, pg', m) { FrameAll(id, pg, m, pg', m); }
  }

  lemma HugePages(size: nat)
    requires size <= 0x10_0000_0000
    ensures 1 <= HUGE_PAGE <= Pow2(64) && size < Pow2(64)
    ensures AlignDown(64, size, HUGE_PAGE) == size / 0x20_0000 * 512 * PAGE && size / 0x20_0000 * 512 <= 0x100_0000
  {
    hide Pow2, AlignDown;
    Powers();
    SixtyFour();
    NextPow2(6);
    NextPow2(7);
    NextPow2(8);
    Pow2Sum(12, 9);
    Pow2Sum(32, 32);
    Pow2Of32();
    Pow2Monotone(21, 64);
    AlignDownGreatest(64, size, 21);
    RoundedIs(size, HUGE_PAGE, AlignDown(64, size, HUGE_PAGE));
  }

  lemma RoundedIs(v: nat, d: nat, r: nat)
    requires d >= 1 && r <= v < r + d && r % d == 0
    ensures r == v / d * d
  {
    QuotientUnique(v, d, r / d, v - r);
  }

  /** Where growing from pool h towards n pages stands: nothing is done, or the first step has found room
      and there is room for the next. */
  ghost predicate Climbing(h: Heap, h1: Heap, n: nat)
    requires n <= 0x100_0000
  {
    if h1.nr <= h.nr then h1 == h
    else
      && h1.nr <= n
      && !NoFreeSpanOf(h, ArrayPages(if n <= 4 * h.nr then n else 4 * h.nr))
      && (h1.nr < n ==> h1.nr >= 4 && !NoFreeSpanOf(h1, h1.nr / 2))
  }

  lemma ClimbStep(h: Heap, h1: Heap, h2: Heap, n: nat, next: u32, ok: bool)
    requires n <= 0x100_0000 && 0 < h1.nr < n && h.nr <= h1.nr && Climbing(h, h1, n)
    requires next == if n <= 4 * h1.nr then n else 4 * h1.nr
    requires ok <==> !NoFreeSpanOf(h1, ArrayPages(next))
    requires if ok then h2.nr == next && !NoFreeSpanOf(h2, next - h1.nr) else h2 == h1
    ensures ok ==> Climbing(h, h2, n)
    ensures !ok ==> h2 == h && NoFreeSpanOf(h, ArrayPages(if n <= 4 * h.nr then n else 4 * h.nr))
  {
    hide NoFreeSpanOf, ArrayPages;
    if h1.nr > h.nr { NextFits(h1, h1.nr, next); }
    if ok { RoomLeft(h2, h1.nr, next); }
  }

  lemma ClimbEnd(h: Heap, h1: Heap, n: nat)
    requires n <= 0x100_0000 && Climbing(h, h1, n) && n <= h1.nr
    ensures h1.nr == if n > h.nr then n else h.nr
    ensures n <= h.nr || !NoFreeSpanOf(h, ArrayPages(if n <= 4 * h.nr then n else 4 * h.nr))
  {
    hide NoFreeSpanOf, ArrayPages;
  }

  lemma ClimbBegins(a: Allocator, n: nat)
    requires a.Valid() && n <= 0x100_0000
    ensures var h := a.cpu.Abs(); LiveSame(a.cpu.spans, a.Views(), a.cpu.spans, a.Views()) && Climbing(h, h, n)
    ensures var h := a.cpu.Abs(); var first := if n <= 4 * h.nr then n else 4 * h.nr;
            && (NoFreeSpanOf(h, ArrayPages(first)) <==> a.NoRoom(0, ArrayPages(first)))
            && (!a.NoRoom(0, h.nr / 32 + 2) ==> !NoFreeSpanOf(h, ArrayPages(first)))
            && h.nr == a.cpu.nrPages
  {
    hide *;
    var h := a.cpu.Abs();
    var first := if n <= 4 * h.nr then n else 4 * h.nr;
    ShapeIs(a);
    NrIs(a.cpu);
    LiveSameRefl(a.cpu.spans, a.Views());
    NoPages(a, ArrayPages(first));
    NoPages(a, h.nr / 32 + 2);
    FirstFits(h, h.nr, first);
    ClimbStart(h, n);
  }

  lemma ClimbStart(h: Heap, n: nat)
    requires n <= 0x100_0000
    ensures Climbing(h, h, n)
  {
  }

  lemma NextSize(a: Allocator, h: Heap, size: nat, n: nat, tmp: nat)
    requires a.Valid() && n <= 0x100_0000 && Climbing(h, a.cpu.Abs(), n) && h.nr > 0
    requires size == n * PAGE && a.cpu.nrPages < n
    requires tmp == if size <= 4 * a.cpu.nrPages * PAGE then size else 4 * a.cpu.nrPages * PAGE
    ensures PAGE == 4096 && h.nr <= a.cpu.nrPages == a.cpu.Abs().nr < tmp / PAGE <= n
    ensures tmp / PAGE == if n <= 4 * a.cpu.nrPages then n else 4 * a.cpu.nrPages
  {
    hide *;
    ShapeIs(a);
    NrIs(a.cpu);
    ClimbedFrom(h, a.cpu.Abs(), n);
    StepPages(size, n, a.cpu.nrPages, tmp);
  }

  lemma ClimbedFrom(h: Heap, h1: Heap, n: nat)
    requires n <= 0x100_0000 && Climbing(h, h1, n)
    ensures h.nr <= h1.nr
  {
    hide NoFreeSpanOf, ArrayPages;
  }

  lemma StepPages(size: nat, n: nat, nr: nat, tmp: nat)
    requires size == n * PAGE && 0 < nr < n
    requires tmp == if size <= 4 * nr * PAGE then size else 4 * nr * PAGE
    ensures PAGE == 4096 && nr < tmp / PAGE <= n && tmp / PAGE == if n <= 4 * nr then n else 4 * nr
  {
  }

  lemma PagesReached(n: nat, nr: nat)
    ensures n <= nr <==> n * PAGE <= nr * PAGE
  {
  }

  /** On a pool nobody has used, growing to some pages never ends: each step asks for four times none,
      and leaves the pool as it is. */
  lemma ResizeStuck(h: Heap, size: nat)
    requires FullInv(h) && h.nr * PAGE < size && h.nr == 0
    ensures var tmp := if size <= 4 * h.nr * PAGE then size else 4 * h.nr * PAGE;
            tmp / PAGE < 0x1_0000_0000 && Grow(h, tmp / PAGE) == (h, true)
  {
    hide FullInv;
  }

  lemma WordWritten(vs: seq<Pool>, pg: seq<Page>, m: map<nat, Span>, w: map<nat, nat>, x: nat, word: nat, a: nat,
                    z: nat, p: nat)
    requires AllOk(vs, pg, m, w) && SpansDisjoint(m) && IsLive(m, vs, a, z, p) && a <= x && x + WORD <= a + z
    ensures AllOk(vs, pg, m, w[x := word])
  {
    hide SpansDisjoint, IsLive, PoolCore, AllCarved, PoolKept, FreeObjs;
    forall i | 0 <= i < |vs| ensures PoolOk(vs[i], pg, m, w[x := word]) {
      forall o | o in FreeObjs(vs[i]) ensures o != x { FreeApart(vs, pg, m, w, i, o, a, z, p); }
      KeptRefl(vs[i].id, pg, m);
      KeptCore(vs[i], pg, m, w, pg, m, w[x := word]);
    }
  }

  // ---------------------------------------------------------------- nobody writes to live blocks

  lemma GentleWords(id: nat, keys: set<nat>, pg: seq<Page>, m: map<nat, Span>, w: map<nat, nat>,
                    pg': seq<Page>, m': map<nat, Span>, w': map<nat, nat>)
    requires Gentle(id, keys, pg, m, w, pg', m', w')
    ensures WordsWithin(keys, w, w')
  {
    hide OthersKept, LargesKept, WordsWithin;
  }

  lemma LiveWordsRefl(m: map<nat, Span>, vs: seq<Pool>, m': map<nat, Span>, vs': seq<Pool>, w: map<nat, nat>)
    ensures LiveWords(m, vs, w, m', vs', w)
  {
    hide IsLive;
  }

  /** Where a pool has given out an object: what has been written is a free object's, or the new block's. */
  lemma TakenWords(vs: seq<Pool>, i: nat, v': Pool, pg: seq<Page>, m: map<nat, Span>, w: map<nat, nat>,
                   pg': seq<Page>, m': map<nat, Span>, w': map<nat, nat>)
    requires i < |vs| && v'.size == vs[i].size && WordsWithin(v'.obj.Keys, w, w') && HeldWords(vs[i], w, w')
    requires AllOk(vs[i := v'], pg', m', w') && SpansDisjoint(m')
    ensures LiveWords(m, vs, w, m', vs[i := v'], w')
  {
    hide *;
    forall a: nat, z: nat, p: nat, x: nat | IsLive(m, vs, a, z, p) && IsLive(m', vs[i := v'], a, z, p) && a <= x < a + z
      ensures SameWord(w, w', x)
    {
      TakenWord(vs, i, v', pg, m, w, pg', m', w', a, z, p, x);
    }
    LiveWordsFrom(m, vs, w, m', vs[i := v'], w');
  }

  lemma LiveWordsFrom(m: map<nat, Span>, vs: seq<Pool>, w: map<nat, nat>, m': map<nat, Span>, vs': seq<Pool>,
                      w': map<nat, nat>)
    requires forall a: nat, z: nat, p: nat, x: nat ::
               IsLive(m, vs, a, z, p) && IsLive(m', vs', a, z, p) && a <= x < a + z ==> SameWord(w, w', x)
    ensures LiveWords(m, vs, w, m', vs', w')
  {
    hide IsLive, SameWord;
  }

  lemma TakenWord(vs: seq<Pool>, i: nat, v': Pool, pg: seq<Page>, m: map<nat, Span>, w: map<nat, nat>,
                  pg': seq<Page>, m': map<nat, Span>, w': map<nat, nat>, a: nat, z: nat, p: nat, x: nat)
    requires i < |vs| && v'.size == vs[i].size && WordsWithin(v'.obj.Keys, w, w') && HeldWords(vs[i], w, w')
    requires AllOk(vs[i := v'], pg', m', w') && SpansDisjoint(m')
    requires IsLive(m, vs, a, z, p) && IsLive(m', vs[i := v'], a, z, p) && a <= x < a + z
    ensures SameWord(w, w', x)
  {
    hide AllOk, SpansDisjoint, IsLive, IsHeld, SameWord, FreeObjs;
    var vs' := vs[i := v'];
    if x in v'.obj && !IsHeld(vs[i], x) {
      ObjectPlace(v', x);
      if IsHeld(v', x) {
        LiveWas(vs, i, m, x, v'.size);
        LiveWas(vs', i, m', x, v'.size);
        LiveApart(vs', pg', m', w', x, v'.size, i + 1, a, z, p);
        SizeSome(vs', pg', m', w', i, x);
      } else {
        FreeApart(vs', pg', m', w', i, x, a, z, p);
      }
      assert false;
    }
  }

  lemma ObjectPlace(v: Pool, o: nat)
    requires o in v.obj
    ensures IsHeld(v, o) || o in FreeObjs(v)
  {
  }

  lemma SizeSome(vs: seq<Pool>, pg: seq<Page>, m: map<nat, Span>, w: map<nat, nat>, i: nat, o: nat)
    requires AllOk(vs, pg, m, w) && i < |vs| && o in vs[i].obj
    ensures vs[i].size >= WORD
  {
    hide AllOk, PoolCore, ObjsOk, SpansMatch;
    SmallParts(vs, pg, m, w, i);
    ObjectWord(vs[i], o);
  }

  /** Where a pool has taken an object back. */
  lemma BackWords(vs: seq<Pool>, i: nat, v': Pool, pg: seq<Page>, m: map<nat, Span>, w: map<nat, nat>,
                  m': map<nat, Span>, w': map<nat, nat>)
    requires i < |vs| && v'.size == vs[i].size && WordsWithin(vs[i].obj.Keys, w, w') && HeldWords(v', w, w')
    requires AllOk(vs, pg, m, w) && SpansDisjoint(m)
    ensures LiveWords(m, vs, w, m', vs[i := v'], w')
  {
    hide *;
    forall a: nat, z: nat, p: nat, x: nat | IsLive(m, vs, a, z, p) && IsLive(m', vs[i := v'], a, z, p) && a <= x < a + z
      ensures SameWord(w, w', x)
    {
      BackWord(vs, i, v', pg, m, w, m', w', a, z, p, x);
    }
    LiveWordsFrom(m, vs, w, m', vs[i := v'], w');
  }

  lemma BackWord(vs: seq<Pool>, i: nat, v': Pool, pg: seq<Page>, m: map<nat, Span>, w: map<nat, nat>,
                 m': map<nat, Span>, w': map<nat, nat>, a: nat, z: nat, p: nat, x: nat)
    requires i < |vs| && v'.size == vs[i].size && WordsWithin(vs[i].obj.Keys, w, w') && HeldWords(v', w, w')
    requires AllOk(vs, pg, m, w) && SpansDisjoint(m)
    requires IsLive(m, vs, a, z, p) && IsLive(m', vs[i := v'], a, z, p) && a <= x < a + z
    ensures SameWord(w, w', x)
  {
    hide AllOk, SpansDisjoint, IsLive, IsHeld, SameWord, FreeObjs;
    if x in vs[i].obj && !IsHeld(v', x) {
      ObjectPlace(vs[i], x);
      if IsHeld(vs[i], x) {
        LiveWas(vs, i, m, x, v'.size);
        LiveWas(vs[i := v'], i, m', x, v'.size);
        LiveApart(vs, pg, m, w, x, v'.size, i + 1, a, z, p);
        SizeSome(vs, pg, m, w, i, x);
      } else {
        FreeApart(vs, pg, m, w, i, x, a, z, p);
      }
      assert false;
    }
  }

  // ---------------------------------------------------------------- draining

  lemma DrainedNone(m: map<nat, Span>, vs: seq<Pool>)
    ensures LiveDrained(m, vs, m, vs, [])
  {
    hide IsLive;
  }

  lemma AllLive(a: Allocator, q: seq<nat>, zs: seq<nat>, ps: seq<nat>)
    requires |zs| == |ps| == |q| && forall i :: 0 <= i < |q| ==> a.Live(q[i], zs[i], ps[i])
    ensures forall i :: 0 <= i < |q| ==> IsLive(a.cpu.spans, a.Views(), q[i], zs[i], ps[i])
  {
    hide IsLive;
  }

  lemma StillLive(a: Allocator, m: map<nat, Span>, vs: seq<Pool>, q: seq<nat>, zs: seq<nat>, ps: seq<nat>, k: nat)
    requires k < |q| == |zs| == |ps| && NoDup(q) && LiveDrained(m, vs, a.cpu.spans, a.Views(), q[..k])
    requires forall i :: 0 <= i < |q| ==> IsLive(m, vs, q[i], zs[i], ps[i])
    ensures forall i :: k <= i < |q| ==> IsLive(a.cpu.spans, a.Views(), q[i], zs[i], ps[i])
    ensures a.Live(q[k], zs[k], ps[k])
  {
    hide IsLive, Allocator.Views;
    forall i | k <= i < |q|
      ensures IsLive(a.cpu.spans, a.Views(), q[i], zs[i], ps[i])
    {
      NotBefore(q, k, i);
    }
  }

  lemma NotBefore(q: seq<nat>, k: nat, i: nat)
    requires NoDup(q) && k <= i < |q|
    ensures q[i] !in q[..k]
  {
  }

  lemma DrainedStep(m: map<nat, Span>, vs: seq<Pool>, m1: map<nat, Span>, vs1: seq<Pool>, m2: map<nat, Span>,
                    vs2: seq<Pool>, q: seq<nat>, k: nat)
    requires k < |q| && LiveDrained(m, vs, m1, vs1, q[..k]) && LiveRemoved(m1, vs1, m2, vs2, q[k])
    ensures LiveDrained(m, vs, m2, vs2, q[..k + 1])
  {
    hide IsLive;
    forall a: nat, x: nat, p: nat
      ensures IsLive(m2, vs2, a, x, p) <==> IsLive(m, vs, a, x, p) && a !in q[..k + 1]
    {
      assert IsLive(m1, vs1, a, x, p) <==> IsLive(m, vs, a, x, p) && a !in q[..k];
      assert q[..k + 1] == q[..k] + [q[k]];
    }
  }

  lemma DrainedWords(m: map<nat, Span>, vs: seq<Pool>, w: map<nat, nat>, m1: map<nat, Span>, vs1: seq<Pool>,
                     w1: map<nat, nat>, m2: map<nat, Span>, vs2: seq<Pool>, w2: map<nat, nat>, q: seq<nat>, k: nat)
    requires k < |q| && LiveRemoved(m1, vs1, m2, vs2, q[k])
    requires LiveWords(m, vs, w, m1, vs1, w1) && LiveWords(m1, vs1, w1, m2, vs2, w2)
    ensures LiveWords(m, vs, w, m2, vs2, w2)
  {
    hide IsLive;
    forall a: nat, z: nat, p: nat, x: nat | IsLive(m, vs, a, z, p) && IsLive(m2, vs2, a, z, p) && a <= x < a + z
      ensures SameWord(w, w2, x)
    {
      assert IsLive(m1, vs1, a, z, p);
      assert SameWord(w, w1, x) && SameWord(w1, w2, x);
    }
  }

  /** The links still to be followed lie in blocks that are still live. */
  lemma DrainedChain(a: Allocator, m1: map<nat, Span>, vs1: seq<Pool>, w1: map<nat, nat>, n: nat, q: seq<nat>,
                     zs: seq<nat>, ps: seq<nat>, k: nat)
    requires a.Valid() && k < |q| == |zs| == |ps| && NoDup(q) && Chain(w1, n, q[k + 1..])
    requires LiveRemoved(m1, vs1, a.cpu.spans, a.Views(), q[k])
    requires LiveWords(m1, vs1, w1, a.cpu.spans, a.Views(), a.mem.next)
    requires forall i :: k <= i < |q| ==> IsLive(m1, vs1, q[i], zs[i], ps[i])
    ensures Chain(a.mem.next, n, q[k + 1..])
  {
    hide *;
    ShapeIs(a);
    var rest := q[k + 1..];
    forall o | o in rest ensures SameWord(w1, a.mem.next, o) {
      var i :| 0 <= i < |rest| && rest[i] == o;
      OthersRemain(m1, vs1, a.cpu.spans, a.Views(), q, zs, ps, k, k + 1 + i);
      LivePositive(a, q[k + 1 + i], zs[k + 1 + i], ps[k + 1 + i]);
      LiveWord(m1, vs1, w1, a.cpu.spans, a.Views(), a.mem.next, o, zs[k + 1 + i], ps[k + 1 + i]);
    }
    SameChain(w1, a.mem.next, n, rest);
  }

  lemma SameChain(w: map<nat, nat>, w': map<nat, nat>, n: nat, q: seq<nat>)
    requires Chain(w, n, q) && forall o :: o in q ==> SameWord(w, w', o)
    ensures Chain(w', n, q)
  {
    hide Chain;
    ChainFrame(w, w', n, q);
  }

  lemma OthersRemain(m1: map<nat, Span>, vs1: seq<Pool>, m2: map<nat, Span>, vs2: seq<Pool>, q: seq<nat>, zs: seq<nat>,
                     ps: seq<nat>, k: nat, i: nat)
    requires k < i < |q| == |zs| == |ps| && NoDup(q) && LiveRemoved(m1, vs1, m2, vs2, q[k])
    requires IsLive(m1, vs1, q[i], zs[i], ps[i])
    ensures IsLive(m2, vs2, q[i], zs[i], ps[i])
  {
    hide IsLive;
  }

  lemma LiveWord(m: map<nat, Span>, vs: seq<Pool>, w: map<nat, nat>, m': map<nat, Span>, vs': seq<Pool>,
                 w': map<nat, nat>, a: nat, z: nat, p: nat)
    requires LiveWords(m, vs, w, m', vs', w') && IsLive(m, vs, a, z, p) && IsLive(m', vs', a, z, p) && z > 0
    ensures SameWord(w, w', a)
  {
    hide IsLive, SameWord;
  }

  lemma LivePositive(a: Allocator, x: nat, z: nat, p: nat)
    requires a.Valid() && IsLive(a.cpu.spans, a.Views(), x, z, p)
    ensures z > 0
  {
    hide *;
    ShapeIs(a);
    DisjointSpans(a.cpu);
    if p == 0 {
      LargePositive(a.cpu.Abs(), a.Views(), x, z);
    } else {
      HeldObject(a.cpu.spans, a.Views(), x, z, p);
      SizeSome(a.Views(), a.cpu.pages[..], a.cpu.spans, a.mem.next, p - 1, x);
      WordIs();
    }
  }

  lemma HeldObject(m: map<nat, Span>, vs: seq<Pool>, x: nat, z: nat, p: nat)
    requires IsLive(m, vs, x, z, p) && p > 0
    ensures p - 1 < |vs| && x in vs[p - 1].obj && z == vs[p - 1].size
  {
  }

  lemma LargePositive(h: Heap, vs: seq<Pool>, x: nat, z: nat)
    requires FullInv(h) && IsLive(h.spans, vs, x, z, 0)
    ensures z > 0
  {
    hide CountOk, NoAdjacent, Settled, ArrayOk;
    Unpack(h);
    CoreSpan(h, x / PAGE);
  }

  /** A live block is apart from every span that is not a client's: the page array's own pages and the
      free pages. */
  lemma SpanApart(vs: seq<Pool>, pg: seq<Page>, m: map<nat, Span>, w: map<nat, nat>, s: nat, a: nat, z: nat, p: nat)
    requires AllOk(vs, pg, m, w) && SpansDisjoint(m) && IsLive(m, vs, a, z, p)
    requires s in m && !m[s].kind.Large? && !m[s].kind.Small?
    ensures a + z <= s * PAGE || (s + m[s].len) * PAGE <= a
  {
    hide AllOk, SpansDisjoint, LiesIn, SpanOf, IsLive;
    LiveLies(vs, pg, m, w, a, z, p);
    LiesWhole(m, s);
    LiesApart(m, SpanOf(vs, a, p), s, a, z, s * PAGE, m[s].len * PAGE);
  }

  lemma LiesWhole(m: map<nat, Span>, s: nat)
    requires s in m
    ensures LiesIn(m, s, s * PAGE, m[s].len * PAGE) && s * PAGE + m[s].len * PAGE == (s + m[s].len) * PAGE
  {
  }

  /** No live block reaches into the pages of the page array. */
  lemma ArrayApart(a: Allocator, x: nat, z: nat, p: nat)
    requires a.Valid() && a.Live(x, z, p) && a.cpu.nrPages > 0
    ensures a.cpu.nrPages < 0x1_0000_0000
    ensures x + z <= a.cpu.pagesStart * PAGE || (a.cpu.pagesStart + ArrayPages(a.cpu.nrPages)) * PAGE <= x
  {
    hide *;
    ShapeIs(a);
    DisjointSpans(a.cpu);
    AbsIs(a.cpu);
    LiveIs(a, x, z, p);
    ArraySpan(a.cpu.Abs());
    SpanApart(a.Views(), a.cpu.pages[..], a.cpu.spans, a.mem.next, a.cpu.pagesStart, x, z, p);
  }

  lemma ArraySpan(h: Heap)
    requires FullInv(h) && h.nr > 0
    ensures h.nr < 0x1_0000_0000 && h.arr in h.spans && h.spans[h.arr] == Span(ArrayPages(h.nr), Reserved)
    ensures !h.spans[h.arr].kind.Large? && !h.spans[h.arr].kind.Small?
  {
    hide Inv, ArrayPages;
  }
}
