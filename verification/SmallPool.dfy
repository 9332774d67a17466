/** small_pool: objects of one size, carved from spans of the page allocator, on two levels of
    intrusive free lists. */
module SmallPools {
  import opened Bits
  import opened PageModel
  import opened PageRuns
  import opened PageLists
  import opened PageTags
  import opened PageSafety
  import opened CpuMemory
  import opened FreeChains
  import opened SmallModel
  import opened SmallFrames
  import SizeClasses

  /** The first word of every object. */
  class Words {
    var next: map<nat, nat>

    constructor ()
      ensures next == map[]
    {
      next := map[];
    }
  }

  class SmallPool {
    const id: nat
    const size: nat
    const span: nat
    const minFree: nat
    const maxFree: nat
    const cpu: CpuPages
    const mem: Words
    const spanList: PageList
    var free: nat
    var freeCount: nat
    var spansInUse: nat
    ghost var loose: seq<nat>
    ghost var spans: map<nat, SpanUse>
    ghost var obj: map<nat, Obj>
    ghost var popped: nat

    ghost function View(): Pool
      reads this, spanList
    {
      Pool(id, size, span, free, freeCount, spanList.front, spanList.back, spanList.contents, loose, spans, obj, popped)
    }

    /** What the constructor fixes. */
    ghost predicate Sized() {
      && id != 0 && 1 <= size <= SizeClasses.MAX_SMALL && 1 <= span <= 128
      && 32 <= Capacity(size, span) <= 4096 && !SizeClasses.TooSmall(span, size)
      && maxFree == (if span * PAGE * 2 / size > 100 then span * PAGE * 2 / size else 100) && minFree == maxFree / 2
    }

    /** The invariant within a call. */
    ghost predicate Parts()
      reads this, spanList, mem, cpu, cpu.pages, cpu.freeSpans
    {
      && Sized() && spanList !in cpu.freeSpans
      && cpu.Rep() && FullInv(cpu.Abs())
      && PoolCore(View(), cpu.pages[..], cpu.spans, mem.next)
      && spansInUse == |spans.Keys|
    }

    /** The invariant between calls. */
    ghost predicate Valid()
      reads this, spanList, mem, cpu, cpu.pages, cpu.freeSpans
    {
      Parts() && AllCarved(View()) && popped == 0
    }

    constructor (id: nat, size: nat, cpu: CpuPages, mem: Words)
      requires id != 0 && 1 <= size <= SizeClasses.MAX_SMALL
      requires cpu.Rep() && FullInv(cpu.Abs()) && forall s: nat :: !OwnedBy(cpu.spans, s, id)
      ensures Valid() && fresh(spanList) && this.id == id && this.size == size && this.cpu == cpu && this.mem == mem
      ensures obj == map[] && SizeClasses.LeastSpan(span, size)
      ensures maxFree == (if span * 4096 * 2 / size > 100 then span * 4096 * 2 / size else 100)
      ensures minFree == maxFree / 2
    {
      hide *;
      var pages := SizeClasses.SpanSize(size);
      var most := pages * PAGE * 2 / size;
      this.id := id;
      this.size := size;
      this.span := pages;
      this.maxFree := if most > 100 then most else 100;
      this.minFree := (if most > 100 then most else 100) / 2;
      this.cpu := cpu;
      this.mem := mem;
      spanList := new PageList();
      free, freeCount, spansInUse := 0, 0, 0;
      loose, spans, obj, popped := [], map[], map[], 0;
      new;
      PageIs();
      SizedFrom(this);
      ViewIs(this);
      EmptyPool(View(), cpu.pages[..], cpu.spans, mem.next);
      PartsFrom(this);
      ValidFrom(this);
    }

    /** Write the free list and the counter of a span. */
    method WriteSpan(s: nat, freelist: nat, count: u16)
      requires cpu.Rep() && s < cpu.pages.Length
      modifies cpu.pages
      ensures cpu.Rep() && cpu.Abs() == old(cpu.Abs())
      ensures cpu.pages[..] == old(cpu.pages[..])[s := old(cpu.pages[s]).(freelist := freelist, nrSmallAlloc := count)]
    {
      hide Threaded, NoDup, Core, Tagged, CpuPages.Rep, CpuPages.Abs;
      ghost var pg := cpu.pages[..];
      RepParts(cpu);
      cpu.pages[s] := cpu.pages[s].(freelist := freelist, nrSmallAlloc := count);
      SpanWritten(pg, s, freelist, count);
      if cpu.nrPages > 0 { WrittenTags(pg, cpu.spans, cpu.nrPages, s, freelist, count); }
      AbsIs(cpu);
      RepFrom(cpu);
    }

    /** _span_list.push_front. */
    method PushSpan(s: nat)
      requires cpu.Rep() && spanList !in cpu.freeSpans && spanList.Linked(cpu.pages)
      requires 0 < s < cpu.pages.Length && s !in spanList.contents && !IsFree(cpu.spans, s)
      requires forall x :: x in spanList.contents ==> !IsFree(cpu.spans, x)
      modifies spanList, cpu.pages
      ensures cpu.Rep() && cpu.Abs() == old(cpu.Abs())
      ensures spanList.Linked(cpu.pages) && spanList.contents == [s] + old(spanList.contents)
      ensures RelinkedWithin(old(cpu.pages[..]), cpu.pages[..], spanList.contents)
    {
      hide Threaded, NoDup, Core, Tagged, CpuPages.Rep, CpuPages.Abs, RelinkedWithin, AllLinked;
      ghost var pg := cpu.pages[..];
      RepParts(cpu);
      AllLinkedParts(cpu);
      ListsAreFree(cpu);
      spanList.PushFront(cpu.pages, s);
      forall j | 0 <= j < |cpu.freeSpans| ensures cpu.freeSpans[j].Linked(cpu.pages) {
        ThreadedElsewhere(pg, cpu.pages[..], cpu.freeSpans[j].front, cpu.freeSpans[j].back, cpu.freeSpans[j].contents,
                          spanList.contents);
      }
      if cpu.nrPages > 0 { RelinkedTags(pg, cpu.pages[..], cpu.spans, cpu.nrPages, spanList.contents); }
      AbsIs(cpu);
      WovenFrom(cpu);
      RepFrom(cpu);
    }

    /** _span_list.pop_front. */
    method PopSpan()
      requires cpu.Rep() && spanList !in cpu.freeSpans && spanList.Linked(cpu.pages) && spanList.contents != []
      requires forall x :: x in spanList.contents ==> !IsFree(cpu.spans, x)
      modifies spanList, cpu.pages
      ensures cpu.Rep() && cpu.Abs() == old(cpu.Abs())
      ensures spanList.Linked(cpu.pages) && spanList.contents == old(spanList.contents)[1..]
      ensures RelinkedWithin(old(cpu.pages[..]), cpu.pages[..], old(spanList.contents))
    {
      hide Threaded, NoDup, Core, Tagged, CpuPages.Rep, CpuPages.Abs, RelinkedWithin, AllLinked;
      ghost var pg, c := cpu.pages[..], spanList.contents;
      RepParts(cpu);
      AllLinkedParts(cpu);
      ListsAreFree(cpu);
      spanList.PopFront(cpu.pages);
      forall j | 0 <= j < |cpu.freeSpans| ensures cpu.freeSpans[j].Linked(cpu.pages) {
        ThreadedElsewhere(pg, cpu.pages[..], cpu.freeSpans[j].front, cpu.freeSpans[j].back, cpu.freeSpans[j].contents,
                          c);
      }
      if cpu.nrPages > 0 { RelinkedTags(pg, cpu.pages[..], cpu.spans, cpu.nrPages, c); }
      AbsIs(cpu);
      WovenFrom(cpu);
      RepFrom(cpu);
    }

    /** _span_list.erase. */
    method EraseSpan(s: nat)
      requires cpu.Rep() && spanList !in cpu.freeSpans && spanList.Linked(cpu.pages) && s in spanList.contents
      requires forall x :: x in spanList.contents ==> !IsFree(cpu.spans, x)
      modifies spanList, cpu.pages
      ensures cpu.Rep() && cpu.Abs() == old(cpu.Abs())
      ensures spanList.Linked(cpu.pages) && spanList.contents == Without(old(spanList.contents), s)
      ensures RelinkedWithin(old(cpu.pages[..]), cpu.pages[..], old(spanList.contents))
    {
      hide Threaded, NoDup, Core, Tagged, CpuPages.Rep, CpuPages.Abs, RelinkedWithin, AllLinked;
      ghost var pg, c := cpu.pages[..], spanList.contents;
      RepParts(cpu);
      AllLinkedParts(cpu);
      ListsAreFree(cpu);
      LinkedNoDup(spanList, cpu.pages);
      ghost var k :| 0 <= k < |c| && c[k] == s;
      WithoutAt(c, k);
      spanList.Erase(cpu.pages, s, k);
      forall j | 0 <= j < |cpu.freeSpans| ensures cpu.freeSpans[j].Linked(cpu.pages) {
        ThreadedElsewhere(pg, cpu.pages[..], cpu.freeSpans[j].front, cpu.freeSpans[j].back, cpu.freeSpans[j].contents,
                          c);
      }
      if cpu.nrPages > 0 { RelinkedTags(pg, cpu.pages[..], cpu.spans, cpu.nrPages, c); }
      AbsIs(cpu);
      WovenFrom(cpu);
      RepFrom(cpu);
    }

    /** One object more from the span being carved. */
    method CarveNext(s: nat, offset: nat)
      requires Parts() && popped == 0 && s in spans && spans[s].n < Capacity(size, span) && offset == spans[s].n * size
      modifies this, cpu.pages, mem
      ensures Parts() && View() == CarveOne(old(View()), s) && cpu.Abs() == old(cpu.Abs())
              && cpu.spans == old(cpu.spans)
      ensures mem.next == old(mem.next)[Addr(size, s, old(spans[s].n)) := old(free)]
      ensures OnlyPage(old(cpu.pages[..]), cpu.pages[..], s)
    {
      hide *;
      PartsOf(this);
      ghost var v, pg, m, w := View(), cpu.pages[..], cpu.spans, mem.next;
      ViewIs(this);
      CapacityIs(this);
      CarvePlan(v, pg, m, w, s);
      AddrIs(size, s, spans[s].n);
      var h := s * PAGE + offset;
      mem.next := mem.next[h := free];
      free := h;
      freeCount := freeCount + 1;
      WriteSpan(s, cpu.pages[s].freelist, cpu.pages[s].nrSmallAlloc + 1);
      spans, obj, loose := CarveOne(v, s).spans, CarveOne(v, s).obj, CarveOne(v, s).loose;
      CarvedPlan(v, pg, m, w, cpu.pages[..], s);
      SameAbs(cpu);
      ViewIs(this);
      PartsFrom(this);
    }

    /** The carving loop of add_more_objects. */
    method Carve(s: nat)
      requires Parts() && popped == 0 && s in spans && spans[s] == SpanUse(0, [])
      modifies this, cpu.pages, mem
      ensures Parts() && popped == 0 && cpu.Abs() == old(cpu.Abs()) && cpu.spans == old(cpu.spans)
      ensures spans == old(spans)[s := SpanUse(Capacity(size, span), [])]
              && freeCount == old(freeCount) + Capacity(size, span)
      ensures SameHeld(old(View()), View()) && old(obj).Keys <= obj.Keys
      ensures HeldWords(old(View()), old(mem.next), mem.next)
      ensures Gentle(id, obj.Keys, old(cpu.pages[..]), old(cpu.spans), old(mem.next), cpu.pages[..], cpu.spans,
                     mem.next)
    {
      hide *;
      PartsOf(this);
      ghost var v, pg, m, w := View(), cpu.pages[..], cpu.spans, mem.next;
      ViewIs(this);
      GentleRefl(id, obj.Keys, pg, m, w);
      SameHeldRefl(v);
      HeldWordsRefl(v, w);
      CapacityIs(this);
      var offset := 0;
      ghost var k := 0;
      while offset <= span * PAGE - size
        invariant Parts() && popped == 0 && cpu.Abs() == old(cpu.Abs()) && cpu.spans == m
        invariant 0 <= k <= Capacity(size, span) && offset == k * size
        invariant spans == old(spans)[s := SpanUse(k, [])] && freeCount == old(freeCount) + k
        invariant SameHeld(v, View()) && v.obj.Keys <= obj.Keys && HeldWords(v, w, mem.next)
        invariant Gentle(id, obj.Keys, pg, m, w, cpu.pages[..], m, mem.next)
        decreases Capacity(size, span) - k
      {
        CarveMore(size, span, k);
        ghost var v1, pg1, w1 := View(), cpu.pages[..], mem.next;
        PartsOf(this);
        ViewIs(this);
        CarveNext(s, offset);
        ViewIs(this);
        CarveWords(v1, pg1, m, w1, s);
        HeldWordsTrans(v, v1, w, w1, mem.next);
        CarveGentle(v, v1, pg, m, w, pg1, w1, cpu.pages[..], mem.next, s);
        k := k + 1;
        offset := offset + size;
      }
      CarveMore(size, span, k);
    }

    /** Name the pool and the place in the span in every page of a span, and reset its counters. */
    method Label(s: nat)
      requires 1 <= span <= 128 && s + span <= cpu.pages.Length && Woven(cpu.freeSpans, cpu.pages)
      modifies cpu.pages
      ensures Labelled(old(cpu.pages[..]), cpu.pages[..], s, span, id) && Woven(cpu.freeSpans, cpu.pages)
    {
      hide Threaded, NoDup, Labelled;
      ghost var pg := cpu.pages[..];
      LabelPages(cpu.pages, s);
      LabelledLinks(pg, cpu.pages[..], s, span, id);
    }

    method LabelPages(ary: array<Page>, s: nat)
      requires 1 <= span <= 128 && s + span <= ary.Length
      modifies ary
      ensures Labelled(old(ary[..]), ary[..], s, span, id)
    {
      ghost var pg := ary[..];
      var i := 0;
      while i < span
        invariant 0 <= i <= span
        invariant forall j :: 0 <= j < |pg| ==>
                    ary[j] == if s <= j < s + i then pg[j].(offsetInSpan := j - s, pool := id) else pg[j]
        modifies ary
      {
        ary[s + i] := ary[s + i].(offsetInSpan := i, pool := id);
        i := i + 1;
      }
      ary[s] := ary[s].(nrSmallAlloc := 0, freelist := 0);
    }

    /** Take over a large span, as add_more_objects does with one it has just allocated. */
    method Adopt(s: nat)
      requires Parts() && popped == 0 && size >= WORD && s !in spans && s in cpu.spans
               && cpu.spans[s] == Span(span, Large)
      modifies this, cpu`spans, cpu.pages
      ensures Parts() && View() == AddSpan(old(View()), s) && cpu.Abs() == SetKind(old(cpu.Abs()), s, Small(id))
      ensures OthersKept(id, old(cpu.pages[..]), old(cpu.spans), cpu.pages[..], cpu.spans)
      ensures forall x: nat :: IsLarge(cpu.spans, x) <==> IsLarge(old(cpu.spans), x) && x != s
      ensures forall x: nat :: IsLarge(old(cpu.spans), x) && x != s ==> SpanStays(old(cpu.spans), cpu.spans, x)
    {
      hide *;
      PartsOf(this);
      RepParts(cpu);
      ghost var h, v, pg, m := cpu.Abs(), View(), cpu.pages[..], cpu.spans;
      ViewIs(this);
      CapacityIs(this);
      AdoptPlan(h, pg, m, s, span, id);
      spansInUse := spansInUse + 1;
      Label(s);
      cpu.spans := cpu.spans[s := Span(span, Small(id))];
      AbsIs(cpu);
      AdoptTags(h, pg, cpu.pages[..], s, span, id);
      RepFrom(cpu);
      spans := spans[s := SpanUse(0, [])];
      KeysGrow(v.spans, s, SpanUse(0, []));
      AdoptCore(v, pg, m, mem.next, cpu.pages[..], s);
      AdoptKept(id, pg, m, cpu.pages[..], s, span);
      ViewIs(this);
      PartsFrom(this);
    }

    /** A new span for the pool, fully carved; false when the page allocator has none. */
    method AddSpanOfObjects() returns (ok: bool)
      requires Parts() && popped == 0 && size >= WORD
      modifies this, cpu, cpu.pages, cpu.freeSpans, mem
      ensures Parts() && popped == 0 && SameHeld(old(View()), View()) && old(obj).Keys <= obj.Keys
      ensures ok ==> freeCount == old(freeCount) + Capacity(size, span)
      ensures !ok ==> View() == old(View()) && cpu.Abs() == Started(old(cpu.Abs())) && NoFreeSpanOf(cpu.Abs(), span)
      ensures forall t :: t in spans ==>
                (t in old(spans) && spans[t] == old(spans)[t]) || spans[t] == SpanUse(Capacity(size, span), [])
      ensures HeldWords(old(View()), old(mem.next), mem.next)
      ensures Gentle(id, obj.Keys, old(cpu.pages[..]), old(cpu.spans), old(mem.next), cpu.pages[..], cpu.spans,
                     mem.next)
      ensures cpu.pages == old(cpu.pages) || fresh(cpu.pages)
    {
      hide *;
      PartsOf(this);
      ghost var h, v, pg, m, w := cpu.Abs(), View(), cpu.pages[..], cpu.spans, mem.next;
      ViewIs(this);
      CapacityIs(this);
      NrIs(cpu);
      var thrown, r := cpu.AllocateLarge(span);
      ghost var pg1, m1 := cpu.pages[..], cpu.spans;
      SameAbs(cpu);
      NrIs(cpu);
      AllocateKept(h, cpu.Abs(), span, thrown, r, pg, pg1);
      ViewIs(this);
      PoolStays(v, pg, m, w, pg1, m1);
      PartsFrom(this);
      SameHeldRefl(v);
      HeldWordsRefl(v, w);
      if r == 0 {
        AllGentle(id, obj.Keys, pg, m, w, pg1, m1);
        return false;
      }
      NewLargeIs(m, m1, r, span);
      LargeNotOwn(v, m1, pg1, w, r);
      Adopt(r);
      ViewIs(this);
      AddSpanIs(v, r);
      ghost var v2, pg2, m2 := View(), cpu.pages[..], cpu.spans;
      Carve(r);
      ViewIs(this);
      AddSpanHeld(v, r);
      HeldWordsTrans(v, v2, w, w, mem.next);
      NewSpanGentle(v, v2, View(), r, pg, m, w, pg1, m1, pg2, m2, cpu.pages[..], mem.next);
      ok := true;
    }

    /** The head of the list of span s becomes that of the pool's list. */
    method TakeBack(s: nat)
      requires cpu.Rep() && s < cpu.pages.Length && cpu.pages[s].freelist in mem.next
      requires cpu.pages[s].nrSmallAlloc < 4096
      modifies this`free, this`freeCount, mem, cpu.pages
      ensures cpu.Rep() && cpu.Abs() == old(cpu.Abs())
      ensures free == old(cpu.pages[s].freelist) && freeCount == old(freeCount) + 1
      ensures mem.next == old(mem.next)[old(cpu.pages[s].freelist) := old(free)]
      ensures cpu.pages[..] == old(cpu.pages[..])[s :=
                old(cpu.pages[s]).(freelist := old(mem.next)[old(cpu.pages[s].freelist)],
                                   nrSmallAlloc := old(cpu.pages[s]).nrSmallAlloc + 1)]
    {
      hide *;
      var h := cpu.pages[s].freelist;
      WriteSpan(s, mem.next[h], cpu.pages[s].nrSmallAlloc + 1);
      mem.next := mem.next[h := free];
      free := h;
      freeCount := freeCount + 1;
    }

    /** The other way round. */
    method HandOver(s: nat)
      requires cpu.Rep() && s < cpu.pages.Length && free in mem.next && freeCount > 0 && cpu.pages[s].nrSmallAlloc >= 1
      modifies this`free, this`freeCount, mem, cpu.pages
      ensures cpu.Rep() && cpu.Abs() == old(cpu.Abs())
      ensures free == old(mem.next)[old(free)] && freeCount == old(freeCount) - 1
      ensures mem.next == old(mem.next)[old(free) := old(cpu.pages[s].freelist)]
      ensures cpu.pages[..] == old(cpu.pages[..])[s :=
                old(cpu.pages[s]).(freelist := old(free), nrSmallAlloc := old(cpu.pages[s]).nrSmallAlloc - 1)]
    {
      hide *;
      var o := free;
      free := mem.next[o];
      freeCount := freeCount - 1;
      mem.next := mem.next[o := cpu.pages[s].freelist];
      WriteSpan(s, o, cpu.pages[s].nrSmallAlloc - 1);
    }

    /** One object from the span that is being emptied to the pool's list. */
    method RefillOne(s: nat)
      requires Parts() && popped == s && s in spans && spans[s].list != []
      modifies this, cpu.pages, mem
      ensures Parts() && cpu.Abs() == old(cpu.Abs()) && cpu.spans == old(cpu.spans)
      ensures spans == old(spans)[s := SpanUse(old(spans[s].n), old(spans[s].list)[1..])] && popped == old(popped)
      ensures freeCount == old(freeCount) + 1 && spanList.contents == old(spanList.contents)
      ensures SameHeld(old(View()), View()) && obj.Keys == old(obj).Keys
      ensures HeldWords(old(View()), old(mem.next), mem.next)
      ensures Gentle(id, obj.Keys, old(cpu.pages[..]), old(cpu.spans), old(mem.next), cpu.pages[..], cpu.spans,
                     mem.next)
    {
      hide *;
      PartsOf(this);
      ghost var v, pg, m, w := View(), cpu.pages[..], cpu.spans, mem.next;
      ViewIs(this);
      CapacityIs(this);
      RefillPlan(v, pg, m, w, s);
      ghost var h := cpu.pages[s].freelist;
      TakeBack(s);
      spans, obj, loose := FromList(v, s).spans, FromList(v, s).obj, FromList(v, s).loose;
      ListedWords(v, w, h, v.free, s);
      RefilledPlan(v, pg, m, w, cpu.pages[..], s);
      SameAbs(cpu);
      ViewIs(this);
      PartsFrom(this);
    }

    /** The first span leaves the span list, to be emptied. */
    method BeginRefill() returns (s: nat)
      requires Parts() && popped == 0 && spanList.contents != []
      modifies this`popped, cpu.pages, spanList
      ensures Parts() && popped == s && s in spans && s < cpu.pages.Length && cpu.Abs() == old(cpu.Abs())
      ensures spanList.contents == old(spanList.contents)[1..] && spans[s].list != []
      ensures Gentle(id, obj.Keys, old(cpu.pages[..]), cpu.spans, mem.next, cpu.pages[..], cpu.spans, mem.next)
    {
      hide *;
      PartsOf(this);
      ghost var v, pg, m, w := View(), cpu.pages[..], cpu.spans, mem.next;
      ViewIs(this);
      QueueOwned(v, pg, m, w);
      s := spanList.front;
      PopSpan();
      SameAbs(cpu);
      popped := s;
      PoppedPlan(v, pg, m, w, cpu.pages[..], spanList.front, spanList.back);
      LinkedIs(this);
      ViewIs(this);
      PopQueueCore(v, pg, m, w, cpu.pages[..], spanList.front, spanList.back);
      PartsFrom(this);
    }

    /** The span has been emptied. */
    ghost method EndRefill(s: nat)
      requires Parts() && popped == s && s in spans && spans[s].list == []
      modifies this`popped
      ensures Parts() && popped == 0
    {
      hide *;
      PartsOf(this);
      ViewIs(this);
      UnpopCore(View(), cpu.pages[..], cpu.spans, mem.next);
      popped := 0;
      ViewIs(this);
      PartsFrom(this);
    }

    /** The first span on the span list gives all its objects to the pool's list. */
    method Refill()
      requires Parts() && popped == 0 && AllCarved(View()) && spanList.contents != []
      modifies this, cpu.pages, mem, spanList
      ensures Parts() && popped == 0 && AllCarved(View()) && cpu.Abs() == old(cpu.Abs()) && cpu.spans == old(cpu.spans)
      ensures spanList.contents == old(spanList.contents)[1..]
              && old(freeCount) < freeCount < old(freeCount) + Capacity(size, span)
      ensures SameHeld(old(View()), View()) && obj.Keys == old(obj).Keys
      ensures HeldWords(old(View()), old(mem.next), mem.next)
      ensures Gentle(id, obj.Keys, old(cpu.pages[..]), old(cpu.spans), old(mem.next), cpu.pages[..], cpu.spans,
                     mem.next)
    {
      hide *;
      ghost var v, pg, m, w := View(), cpu.pages[..], cpu.spans, mem.next;
      PartsOf(this);
      ViewIs(this);
      var s := BeginRefill();
      ViewIs(this);
      SameHeldObj(v, View());
      HeldWordsRefl(v, w);
      SpanHead(this, s);
      while cpu.pages[s].freelist != 0
        invariant Parts() && popped == s && s in spans && s < cpu.pages.Length && cpu.Abs() == old(cpu.Abs())
                  && cpu.spans == m
        invariant spans.Keys == v.spans.Keys && (forall t :: t in spans && t != s ==> spans[t] == v.spans[t])
                  && spans[s].n == v.spans[s].n
        invariant |spans[s].list| <= |v.spans[s].list| && freeCount == v.freeCount + |v.spans[s].list| - |spans[s].list|
        invariant cpu.pages[s].freelist == 0 <==> spans[s].list == []
        invariant spanList.contents == v.list[1..]
        invariant SameHeld(v, View()) && obj.Keys == v.obj.Keys && HeldWords(v, w, mem.next)
        invariant Gentle(id, v.obj.Keys, pg, m, w, cpu.pages[..], m, mem.next)
        decreases |spans[s].list|
      {
        ghost var v1, pg1, w1 := View(), cpu.pages[..], mem.next;
        ViewIs(this);
        RefillOne(s);
        ViewIs(this);
        HeldWordsTrans(v, v1, w, w1, mem.next);
        SameHeldTrans(v, v1, View());
        GentleTrans(id, v.obj.Keys, pg, m, w, pg1, m, w1, cpu.pages[..], m, mem.next);
        SpanHead(this, s);
      }
      ghost var v2 := View();
      ViewIs(this);
      ListShort(v, s);
      EndRefill(s);
      ViewIs(this);
      SameHeldObj(v2, View());
      SameHeldTrans(v, v2, View());
      PartsOf(this);
      EmptiedCarved(v, View(), s);
    }

    /** The first half of add_more_objects: spans from the front of the span list give up their free objects
        until the goal is reached or none is left. */
    method RefillListed(goal: nat)
      requires Parts() && popped == 0 && AllCarved(View())
      modifies this, cpu.pages, mem, spanList
      ensures Parts() && popped == 0 && AllCarved(View()) && cpu.Abs() == old(cpu.Abs()) && cpu.spans == old(cpu.spans)
      ensures freeCount < goal ==> spanList.contents == []
      ensures if old(freeCount) < goal then old(freeCount) <= freeCount < goal + Capacity(size, span)
              else freeCount == old(freeCount)
      ensures |spanList.contents| <= |old(spanList.contents)|
              && spanList.contents == old(spanList.contents)[|old(spanList.contents)| - |spanList.contents|..]
      ensures SameHeld(old(View()), View()) && obj.Keys == old(obj).Keys
      ensures HeldWords(old(View()), old(mem.next), mem.next)
      ensures Gentle(id, obj.Keys, old(cpu.pages[..]), old(cpu.spans), old(mem.next), cpu.pages[..], cpu.spans,
                     mem.next)
    {
      hide *;
      PartsOf(this);
      CapacityIs(this);
      ghost var v, pg, m, w := View(), cpu.pages[..], cpu.spans, mem.next;
      ViewIs(this);
      SameHeldRefl(v);
      HeldWordsRefl(v, w);
      GentleRefl(id, obj.Keys, pg, m, w);
      ghost var most := if freeCount < goal then goal + Capacity(size, span) - 1 else freeCount;
      FrontIsEmpty(this);
      while spanList.front != 0 && freeCount < goal
        invariant Parts() && popped == 0 && AllCarved(View()) && cpu.spans == m && cpu.Abs() == old(cpu.Abs())
        invariant old(freeCount) <= freeCount <= most
        invariant |spanList.contents| <= |v.list| && spanList.contents == v.list[|v.list| - |spanList.contents|..]
        invariant spanList.front == 0 <==> spanList.contents == []
        invariant SameHeld(v, View()) && obj.Keys == v.obj.Keys && HeldWords(v, w, mem.next)
        invariant Gentle(id, v.obj.Keys, pg, m, w, cpu.pages[..], m, mem.next)
        decreases |spanList.contents|
      {
        ghost var v1, pg1, w1 := View(), cpu.pages[..], mem.next;
        ViewIs(this);
        Refill();
        ViewIs(this);
        HeldWordsTrans(v, v1, w, w1, mem.next);
        SameHeldTrans(v, v1, View());
        GentleTrans(id, v.obj.Keys, pg, m, w, pg1, m, w1, cpu.pages[..], m, mem.next);
        FrontIsEmpty(this);
      }
    }

    /** add_more_objects: up to the goal and not beyond, first from the spans at the front of the span list,
        then from new ones. A new span is taken only when no listed one is left. It stays below the goal only
        if that is so and no free span is long enough. */
    method AddMoreObjects()
      requires Valid() && size >= WORD
      modifies this, cpu, cpu.pages, cpu.freeSpans, mem, spanList
      ensures Valid() && SameHeld(old(View()), View()) && old(obj).Keys <= obj.Keys
      ensures free == 0 ==> Exhausted(View()) && NoFreeSpanOf(cpu.Abs(), span)
      ensures var goal := (minFree + maxFree) / 2;
              && (freeCount < goal ==> spanList.contents == [] && NoFreeSpanOf(cpu.Abs(), span))
              && (old(freeCount) < goal ==> old(freeCount) <= freeCount < goal + Capacity(size, span))
              && (old(freeCount) >= goal ==> freeCount == old(freeCount))
      ensures |spanList.contents| <= |old(spanList.contents)|
              && spanList.contents == old(spanList.contents)[|old(spanList.contents)| - |spanList.contents|..]
      ensures spanList.contents != [] ==> cpu.spans == old(cpu.spans) && obj.Keys == old(obj).Keys
      ensures HeldWords(old(View()), old(mem.next), mem.next)
      ensures Gentle(id, obj.Keys, old(cpu.pages[..]), old(cpu.spans), old(mem.next), cpu.pages[..], cpu.spans,
                     mem.next)
      ensures cpu.pages == old(cpu.pages) || fresh(cpu.pages)
    {
      hide *;
      ValidOf(this);
      PartsOf(this);
      SizedIs(this);
      ghost var v, pg, m, w := View(), cpu.pages[..], cpu.spans, mem.next;
      ViewIs(this);
      var goal := (minFree + maxFree) / 2;
      ghost var most := if freeCount < goal then goal + Capacity(size, span) - 1 else freeCount;
      CapacityIs(this);
      RefillListed(goal);
      ViewIs(this);
      ghost var was := spanList.contents;
      while freeCount < goal
        invariant Parts() && popped == 0 && AllCarved(View()) && (cpu.pages == old(cpu.pages) || fresh(cpu.pages))
        invariant old(freeCount) <= freeCount <= most && spanList.contents == was
        invariant was != [] ==> cpu.spans == m && obj.Keys == v.obj.Keys
        invariant SameHeld(v, View()) && v.obj.Keys <= obj.Keys && HeldWords(v, w, mem.next)
        invariant Gentle(id, obj.Keys, pg, m, w, cpu.pages[..], cpu.spans, mem.next)
        invariant freeCount < goal ==> was == []
        decreases goal - freeCount
      {
        ghost var v1, pg1, m1, w1 := View(), cpu.pages[..], cpu.spans, mem.next;
        ViewIs(this);
        CapacityIs(this);
        var ok := AddSpanOfObjects();
        ViewIs(this);
        AddedCarved(v1, View());
        HeldWordsTrans(v, v1, w, w1, mem.next);
        SameHeldTrans(v, v1, View());
        GentleWider(id, v1.obj.Keys, obj.Keys, pg, m, w, pg1, m1, w1);
        GentleTrans(id, obj.Keys, pg, m, w, pg1, m1, w1, cpu.pages[..], cpu.spans, mem.next);
        if !ok {
          PartsOf(this);
          NothingLeft(View(), cpu.pages[..], cpu.spans, mem.next);
          ValidFrom(this);
          return;
        }
      }
      PartsOf(this);
      ViewIs(this);
      NotEmpty(View(), cpu.pages[..], cpu.spans, mem.next);
      ValidFrom(this);
    }

    /** Put a span without free objects of its own on the span list. */
    method ListSpan(s: nat, ghost empty: bool)
      requires cpu.Rep() && spanList !in cpu.freeSpans && spanList.Linked(cpu.pages)
      requires 0 < s < cpu.pages.Length && !IsFree(cpu.spans, s) && empty == (cpu.pages[s].freelist == 0)
      requires empty ==> s !in spanList.contents
      requires forall x :: x in spanList.contents ==> !IsFree(cpu.spans, x)
      modifies spanList, cpu.pages
      ensures cpu.Rep() && cpu.Abs() == old(cpu.Abs())
      ensures spanList.contents == (if empty then [s] + old(spanList.contents) else old(spanList.contents))
      ensures Threaded(Prevs(cpu.pages[..]), Nexts(cpu.pages[..]), spanList.front, spanList.back, spanList.contents)
      ensures cpu.pages[..] == old(cpu.pages[..])
              || RelinkedWithin(old(cpu.pages[..]), cpu.pages[..], [s] + old(spanList.contents))
    {
      hide *;
      if cpu.pages[s].freelist == 0 {
        PushSpan(s);
      }
      LinkedIs(this);
    }

    /** The span of the head of the pool's list, found through the page the object lies in. */
    method FindSpan() returns (s: nat)
      requires Valid() && free != 0
      ensures Trimmable(View(), cpu.pages[..], cpu.spans, mem.next, s)
    {
      hide *;
      TrimPlan(this);
      ViewIs(this);
      PageIs();
      var page := free / PAGE;
      s := page - cpu.pages[page].offsetInSpan;
    }

    /** The head of the pool's list becomes that of the list of its span, which is listed if need be. */
    method Detach(s: nat, ghost empty: bool) returns (ghost pg1: seq<Page>)
      requires cpu.Rep() && spanList !in cpu.freeSpans && spanList.Linked(cpu.pages)
      requires 0 < s < cpu.pages.Length && !IsFree(cpu.spans, s) && empty == (cpu.pages[s].freelist == 0)
      requires empty ==> s !in spanList.contents
      requires forall x :: x in spanList.contents ==> !IsFree(cpu.spans, x)
      requires free in mem.next && freeCount > 0 && cpu.pages[s].nrSmallAlloc >= 1
      modifies this`free, this`freeCount, cpu.pages, mem, spanList
      ensures cpu.Rep() && cpu.Abs() == old(cpu.Abs())
      ensures spanList.contents == (if empty then [s] + old(spanList.contents) else old(spanList.contents))
      ensures pg1 == old(cpu.pages[..]) || RelinkedWithin(old(cpu.pages[..]), pg1, [s] + old(spanList.contents))
      ensures Threaded(Prevs(pg1), Nexts(pg1), spanList.front, spanList.back, spanList.contents)
      ensures s < |pg1| && pg1[s].nrSmallAlloc >= 1
              && cpu.pages[..] == pg1[s := pg1[s].(freelist := old(free), nrSmallAlloc := pg1[s].nrSmallAlloc - 1)]
      ensures free == old(mem.next)[old(free)] && freeCount == old(freeCount) - 1
      ensures mem.next == old(mem.next)[old(free) := old(cpu.pages[s].freelist)]
    {
      hide *;
      ghost var pg, c := cpu.pages[..], spanList.contents;
      ListSpan(s, empty);
      pg1 := cpu.pages[..];
      RelinkedAt(pg, pg1, [s] + c, s);
      HandOver(s);
    }

    /** trim_free_list, up to the decrement: the head of the pool's list goes to the list of its span. */
    method MoveToSpan(s: nat)
      requires Valid() && free != 0 && Trimmable(View(), cpu.pages[..], cpu.spans, mem.next, s)
      modifies this, cpu.pages, mem, spanList
      ensures Parts() && popped == 0 && cpu.Abs() == old(cpu.Abs()) && cpu.spans == old(cpu.spans)
              && freeCount == old(freeCount) - 1
      ensures s in spans && s in spanList.contents && s < cpu.pages.Length && AllCarvedBut(View(), s)
      ensures SameHeld(old(View()), View()) && obj.Keys == old(obj).Keys
      ensures HeldWords(old(View()), old(mem.next), mem.next)
      ensures Gentle(id, obj.Keys, old(cpu.pages[..]), old(cpu.spans), old(mem.next), cpu.pages[..], cpu.spans,
                     mem.next)
    {
      hide *;
      ghost var v, pg, m, w := View(), cpu.pages[..], cpu.spans, mem.next;
      ValidOf(this);
      PartsOf(this);
      ViewIs(this);
      TrimmableIs(v, pg, m, w, s);
      ghost var pg1 := Detach(s, v.spans[s].list == []);
      PushedPlan(v, pg, m, w, pg1, s, spanList.front, spanList.back);
      ghost var v' := ToList(v, w, spanList.front, spanList.back);
      MovedPlan(v, pg, m, w, pg1, cpu.pages[..], s, spanList.front, spanList.back);
      spans, obj, loose := v'.spans, v'.obj, v'.loose;
      LooseWords(v, pg, m, w, pg[s].freelist);
      SameAbs(cpu);
      ViewIs(this);
      assert View() == v';
      PartsFrom(this);
    }

    /** The span leaves the span list and goes back to the page allocator. */
    method LetGo(s: nat) returns (ghost pg1: seq<Page>)
      requires cpu.Rep() && FullInv(cpu.Abs()) && spanList !in cpu.freeSpans && spanList.Linked(cpu.pages)
      requires s in spanList.contents && s in cpu.spans && cpu.spans[s].kind.Small?
      requires forall x :: x in spanList.contents ==> !IsFree(cpu.spans, x)
      modifies spanList, cpu`spans, cpu`nrFreePages, cpu.pages, cpu.freeSpans
      ensures cpu.Rep() && FullInv(cpu.Abs()) && cpu.Abs() == PageOps.FreeSpan(old(cpu.Abs()), s)
      ensures spanList.contents == Without(old(spanList.contents), s)
      ensures RelinkedWithin(old(cpu.pages[..]), pg1, old(spanList.contents))
      ensures Threaded(Prevs(pg1), Nexts(pg1), spanList.front, spanList.back, spanList.contents)
      ensures PoolFrame(pg1, cpu.pages[..], old(cpu.spans), cpu.spans)
    {
      hide *;
      SameAbs(cpu);
      EraseSpan(s);
      SameAbs(cpu);
      LinkedIs(this);
      pg1 := cpu.pages[..];
      cpu.FreeLarge(s);
    }

    /** A span all of whose objects are on its own list goes back to the page allocator. */
    method ReturnSpan(s: nat)
      requires Parts() && popped == 0 && s in spans && s in spanList.contents && s < cpu.pages.Length
      requires cpu.pages[s].nrSmallAlloc == 0 && AllCarvedBut(View(), s)
      modifies this, cpu`spans, cpu`nrFreePages, cpu.pages, cpu.freeSpans, spanList
      ensures Valid() && View().obj.Keys <= old(obj).Keys && freeCount == old(freeCount)
      ensures forall o :: o in old(obj) && o !in obj ==> IsListed(old(View()), o, s)
      ensures cpu.Abs() == PageOps.FreeSpan(old(cpu.Abs()), s)
      ensures SameHeld(old(View()), View())
      ensures HeldWords(old(View()), old(mem.next), mem.next)
      ensures Gentle(id, old(obj).Keys, old(cpu.pages[..]), old(cpu.spans), old(mem.next), cpu.pages[..], cpu.spans,
                     mem.next)
    {
      hide *;
      PartsOf(this);
      ghost var v, pg, m, w := View(), cpu.pages[..], cpu.spans, mem.next;
      ViewIs(this);
      QueueOwned(v, pg, m, w);
      OwnedIs(m, s, id);
      ghost var h := cpu.Abs();
      ghost var pg1 := LetGo(s);
      SameAbs(cpu);
      spansInUse := spansInUse - 1;
      FreeKept(h, cpu.Abs(), s, pg1, cpu.pages[..]);
      KeysShrink(v.spans, s);
      ghost var v' := DropSpan(v, s, spanList.front, spanList.back);
      ReturnedPlan(v, pg, m, w, pg1, cpu.pages[..], cpu.spans, s, spanList.front, spanList.back);
      spans, obj := v'.spans, v'.obj;
      HeldWordsRefl(v, w);
      ViewIs(this);
      assert View() == v';
      PartsFrom(this);
      ValidFrom(this);
    }

    /** One turn of trim_free_list. */
    method TrimOne()
      requires Valid() && free != 0
      modifies this, cpu`spans, cpu`nrFreePages, cpu.pages, cpu.freeSpans, mem, spanList
      ensures Valid() && SameHeld(old(View()), View()) && obj.Keys <= old(obj).Keys && freeCount == old(freeCount) - 1
      ensures HeldWords(old(View()), old(mem.next), mem.next)
      ensures Gentle(id, old(obj).Keys, old(cpu.pages[..]), old(cpu.spans), old(mem.next), cpu.pages[..], cpu.spans,
                     mem.next)
    {
      hide *;
      ghost var v, pg, m, w := View(), cpu.pages[..], cpu.spans, mem.next;
      ViewIs(this);
      var s := FindSpan();
      MoveToSpan(s);
      ghost var v1, pg1, w1 := View(), cpu.pages[..], mem.next;
      ViewIs(this);
      if cpu.pages[s].nrSmallAlloc == 0 {
        ReturnSpan(s);
        ViewIs(this);
        HeldWordsTrans(v, v1, w, w1, mem.next);
        SameHeldTrans(v, v1, View());
        GentleTrans(id, v.obj.Keys, pg, m, w, pg1, m, w1, cpu.pages[..], cpu.spans, mem.next);
      } else {
        PartsOf(this);
        StillCarved(v1, pg1, m, w1, s);
        ValidFrom(this);
      }
    }

    /** trim_free_list: back to the goal, each object to the list of its span; spans that become
        entirely free are returned. */
    method TrimFreeList()
      requires Valid()
      modifies this, cpu`spans, cpu`nrFreePages, cpu.pages, cpu.freeSpans, mem, spanList
      ensures Valid() && SameHeld(old(View()), View()) && obj.Keys <= old(obj).Keys
      ensures var goal := (minFree + maxFree) / 2; freeCount == if old(freeCount) > goal then goal else old(freeCount)
      ensures old(freeCount) >= minFree ==> freeCount >= minFree
      ensures HeldWords(old(View()), old(mem.next), mem.next)
      ensures Gentle(id, old(obj).Keys, old(cpu.pages[..]), old(cpu.spans), old(mem.next), cpu.pages[..], cpu.spans,
                     mem.next)
    {
      hide *;
      ghost var v, pg, m, w := View(), cpu.pages[..], cpu.spans, mem.next;
      ViewIs(this);
      SameHeldRefl(v);
      HeldWordsRefl(v, w);
      GentleRefl(id, obj.Keys, pg, m, w);
      var goal := (minFree + maxFree) / 2;
      while free != 0 && freeCount > goal
        invariant Valid() && SameHeld(v, View()) && obj.Keys <= v.obj.Keys && cpu.pages == old(cpu.pages)
        invariant HeldWords(v, w, mem.next)
        invariant freeCount == v.freeCount || goal <= freeCount <= v.freeCount
        invariant Gentle(id, v.obj.Keys, pg, m, w, cpu.pages[..], cpu.spans, mem.next)
        decreases freeCount
      {
        ghost var v1, pg1, m1, w1 := View(), cpu.pages[..], cpu.spans, mem.next;
        ViewIs(this);
        TrimOne();
        ViewIs(this);
        HeldWordsTrans(v, v1, w, w1, mem.next);
        SameHeldTrans(v, v1, View());
        GentleWider(id, v1.obj.Keys, v.obj.Keys, pg1, m1, w1, cpu.pages[..], cpu.spans, mem.next);
        GentleTrans(id, v.obj.Keys, pg, m, w, pg1, m1, w1, cpu.pages[..], cpu.spans, mem.next);
      }
      ValidOf(this);
      PartsOf(this);
      SizedIs(this);
      ViewIs(this);
      NotEmpty(View(), cpu.pages[..], cpu.spans, mem.next);
    }

    /** The head of the pool's list is taken off it, and held. */
    method TakeHead() returns (r: nat)
      requires Valid() && free != 0
      modifies this`free, this`freeCount, this`loose, this`obj
      ensures Valid() && r == old(free) && freeCount == old(freeCount) - 1 && obj.Keys == old(obj).Keys
      ensures !IsHeld(old(View()), r) && forall o :: IsHeld(View(), o) <==> IsHeld(old(View()), o) || o == r
    {
      hide *;
      ghost var v := View();
      ValidOf(this);
      PartsOf(this);
      ViewIs(this);
      PopPlan(v, cpu.pages[..], cpu.spans, mem.next);
      r := free;
      free := mem.next[r];
      freeCount := freeCount - 1;
      loose, obj := PopLoose(v, mem.next).loose, PopLoose(v, mem.next).obj;
      ViewIs(this);
      PartsFrom(this);
      ValidFrom(this);
    }

    /** allocate: an object nobody held, the one freed last if any is left; null when the pool is
        exhausted. */
    method Allocate() returns (r: nat)
      requires Valid() && size >= WORD
      modifies this, cpu, cpu.pages, cpu.freeSpans, mem, spanList
      ensures Valid()
      ensures r == 0 ==> SameHeld(old(View()), View()) && Exhausted(View()) && NoFreeSpanOf(cpu.Abs(), span)
      ensures r != 0 ==> !IsHeld(old(View()), r) && forall o :: IsHeld(View(), o) <==> IsHeld(old(View()), o) || o == r
      ensures old(free) != 0 ==> r == old(free) && freeCount == old(freeCount) - 1
      ensures old(free) == 0 && r != 0 && freeCount + 1 < (minFree + maxFree) / 2 ==>
                spanList.contents == [] && NoFreeSpanOf(cpu.Abs(), span)
      ensures HeldWords(old(View()), old(mem.next), mem.next)
      ensures Gentle(id, obj.Keys, old(cpu.pages[..]), old(cpu.spans), old(mem.next), cpu.pages[..], cpu.spans,
                     mem.next)
      ensures cpu.pages == old(cpu.pages) || fresh(cpu.pages)
    {
      hide *;
      ghost var v, pg, m, w := View(), cpu.pages[..], cpu.spans, mem.next;
      ViewIs(this);
      SameHeldRefl(v);
      HeldWordsRefl(v, w);
      GentleRefl(id, obj.Keys, pg, m, w);
      if free == 0 {
        AddMoreObjects();
      }
      if free == 0 {
        return 0;
      }
      ghost var v1 := View();
      ViewIs(this);
      r := TakeHead();
      TakenHeld(v, v1, View());
    }

    /** deallocate: the object, held until now, is the pool's again. */
    method Deallocate(o: nat)
      requires Valid() && IsHeld(View(), o)
      modifies this, cpu`spans, cpu`nrFreePages, cpu.pages, cpu.freeSpans, mem, spanList
      ensures Valid() && obj.Keys <= old(obj).Keys
      ensures forall x :: IsHeld(View(), x) <==> IsHeld(old(View()), x) && x != o
      ensures freeCount == if old(freeCount) + 1 >= maxFree then (minFree + maxFree) / 2 else old(freeCount) + 1
      ensures old(freeCount) + 1 >= maxFree ==> minFree <= freeCount <= maxFree - maxFree / 4
      ensures HeldWords(View(), old(mem.next), mem.next)
      ensures Gentle(id, old(obj).Keys, old(cpu.pages[..]), old(cpu.spans), old(mem.next), cpu.pages[..], cpu.spans,
                     mem.next)
    {
      hide *;
      ghost var v, pg, m, w := View(), cpu.pages[..], cpu.spans, mem.next;
      ViewIs(this);
      ValidOf(this);
      PartsOf(this);
      SizedIs(this);
      PushPlanLoose(v, pg, m, w, o);
      mem.next := mem.next[o := free];
      free := o;
      freeCount := freeCount + 1;
      loose, obj := PushLoose(v, o).loose, PushLoose(v, o).obj;
      ViewIs(this);
      PartsFrom(this);
      ValidFrom(this);
      ghost var v1, w1 := View(), mem.next;
      SameHeldRefl(v1);
      GivenWords(v, v1, o, w, v.free);
      HeldWordsRefl(v1, w1);
      if freeCount >= maxFree {
        TrimFreeList();
        ViewIs(this);
        GentleTrans(id, v.obj.Keys, pg, m, w, pg, m, w1, cpu.pages[..], cpu.spans, mem.next);
      }
      GivenHeld(v, v1, View(), o);
      HeldWordsBack(v1, View(), w, w1, mem.next);
    }
  }

  lemma RelinkedAt(pg: seq<Page>, pg1: seq<Page>, c: seq<nat>, s: nat)
    requires s < |pg| && (pg1 == pg || RelinkedWithin(pg, pg1, c))
    ensures |pg1| == |pg| && pg1[s].freelist == pg[s].freelist && pg1[s].nrSmallAlloc == pg[s].nrSmallAlloc
  {
    assert pg1 != pg ==> Unlinked(pg1[s]) == Unlinked(pg[s]);
  }

  lemma SizedFrom(p: SmallPool)
    requires p.id != 0 && 1 <= p.size <= SizeClasses.MAX_SMALL && 1 <= p.span <= 128
    requires 32 <= p.span * PAGE / p.size <= 4096 && !SizeClasses.TooSmall(p.span, p.size)
    requires var most := p.span * PAGE * 2 / p.size; p.maxFree == if most > 100 then most else 100
    requires p.minFree == p.maxFree / 2
    ensures p.Sized()
  {
    hide SizeClasses.TooSmall;
  }

  lemma EmptyPool(v: Pool, pg: seq<Page>, m: map<nat, Span>, mem: map<nat, nat>)
    requires v.size >= 1 && v.id != 0 && v.free == 0 && v.freeCount == 0 && v.front == 0 && v.back == 0
    requires v.list == [] && v.loose == [] && v.spans == map[] && v.obj == map[] && v.popped == 0
    requires forall s: nat :: !OwnedBy(m, s, v.id)
    ensures PoolCore(v, pg, m, mem) && AllCarved(v)
  {
    forall s | s in m && m[s].kind == Small(v.id) ensures false { assert OwnedBy(m, s, v.id); }
  }

  lemma SpanWritten(pg: seq<Page>, s: nat, freelist: nat, count: u16)
    requires s < |pg|
    ensures var pg' := pg[s := pg[s].(freelist := freelist, nrSmallAlloc := count)];
            Prevs(pg') == Prevs(pg) && Nexts(pg') == Nexts(pg)
  {
  }

  lemma WrittenTags(pg: seq<Page>, m: map<nat, Span>, nr: nat, s: nat, freelist: nat, count: u16)
    requires Tagged(pg, m, nr) && s < |pg|
    ensures Tagged(pg[s := pg[s].(freelist := freelist, nrSmallAlloc := count)], m, nr)
  {
    var pg' := pg[s := pg[s].(freelist := freelist, nrSmallAlloc := count)];
    forall x | x in m ensures TagsAt(pg', x, m[x]) { assert TagsAt(pg, x, m[x]); }
  }

  lemma AllLinkedParts(c: CpuPages)
    requires Woven(c.freeSpans, c.pages)
    ensures forall j :: 0 <= j < |c.freeSpans| ==> c.freeSpans[j].Linked(c.pages)
  {
    hide Threaded;
  }

  lemma ListsAreFree(c: CpuPages)
    requires c.Rep()
    ensures forall j, x :: 0 <= j < |c.freeSpans| && x in c.freeSpans[j].contents ==> IsFree(c.spans, x)
    ensures forall i, j, x ::
              0 <= i < |c.freeSpans| && 0 <= j < |c.freeSpans| && i != j && x in c.freeSpans[i].contents ==>
                x !in c.freeSpans[j].contents
    ensures Distinct32(c.freeSpans)
  {
    hide Tagged, AllLinked, Tiled, Threaded;
    RepParts(c);
    ghost var l := ContentsOf(c.freeSpans);
    assert ListsOk(c.spans, l);
    forall j, x | 0 <= j < |c.freeSpans| && x in c.freeSpans[j].contents
      ensures IsFree(c.spans, x) && FloorLog2(c.spans[x].len) == j
    {
      assert x in l[j];
    }
  }

  lemma WovenFrom(c: CpuPages)
    requires Distinct32(c.freeSpans) && forall j :: 0 <= j < |c.freeSpans| ==> c.freeSpans[j].Linked(c.pages)
    requires forall i, j, x ::
               0 <= i < |c.freeSpans| && 0 <= j < |c.freeSpans| && i != j && x in c.freeSpans[i].contents ==>
                 x !in c.freeSpans[j].contents
    ensures Woven(c.freeSpans, c.pages)
  {
    hide Threaded;
  }

  // ---------------------------------------------------------------- the class's predicates

  lemma PartsOf(p: SmallPool)
    requires p.Parts()
    ensures p.Sized() && p.size >= 1 && p.id != 0 && p.spanList !in p.cpu.freeSpans && p.cpu.Rep()
            && FullInv(p.cpu.Abs()) && Core(p.cpu.Abs())
    ensures PoolCore(p.View(), p.cpu.pages[..], p.cpu.spans, p.mem.next) && p.spansInUse == |p.spans.Keys|
    ensures SpansDisjoint(p.cpu.spans) && p.cpu.Abs().spans == p.cpu.spans
    ensures p.spanList.Linked(p.cpu.pages)
  {
    hide PoolCore, CpuPages.Rep, SizeClasses.TooSmall, CountOk, NoAdjacent, Settled, ArrayOk, ListsOk, SpansInside;
    Unpack(p.cpu.Abs());
    AbsIs(p.cpu);
    PoolThreaded(p.View(), p.cpu.pages[..], p.cpu.spans, p.mem.next);
  }

  lemma PoolThreaded(v: Pool, pg: seq<Page>, m: map<nat, Span>, mem: map<nat, nat>)
    requires PoolCore(v, pg, m, mem)
    ensures Threaded(Prevs(pg), Nexts(pg), v.front, v.back, v.list)
  {
    hide Threaded;
  }

  lemma PartsFrom(p: SmallPool)
    requires p.Sized() && p.spanList !in p.cpu.freeSpans && p.cpu.Rep() && FullInv(p.cpu.Abs())
    requires PoolCore(p.View(), p.cpu.pages[..], p.cpu.spans, p.mem.next) && p.spansInUse == |p.spans.Keys|
    ensures p.Parts()
  {
    hide PoolCore, FullInv, CpuPages.Rep, SizeClasses.TooSmall;
  }

  lemma ViewIs(p: SmallPool)
    ensures p.View() == Pool(p.id, p.size, p.span, p.free, p.freeCount, p.spanList.front, p.spanList.back,
                             p.spanList.contents,
                             p.loose, p.spans, p.obj, p.popped)
  {
  }

  lemma SameAbs(c: CpuPages)
    ensures c.Abs().spans == c.spans
  {
  }

  lemma CapacityIs(p: SmallPool)
    requires p.Sized()
    ensures 32 <= Capacity(p.size, p.span) <= 4096 && 1 <= p.span <= 128 && p.size <= p.span * PAGE
  {
    hide SizeClasses.TooSmall;
    CarveMore(p.size, p.span, 0);
  }

  // ---------------------------------------------------------------- carving

  ghost predicate SameHeld(v: Pool, v': Pool) {
    forall o :: IsHeld(v, o) <==> IsHeld(v', o)
  }

  lemma SameHeldRefl(v: Pool)
    ensures SameHeld(v, v)
  {
  }

  lemma SameHeldTrans(v: Pool, v1: Pool, v2: Pool)
    requires SameHeld(v, v1) && SameHeld(v1, v2)
    ensures SameHeld(v, v2)
  {
    forall o ensures IsHeld(v, o) <==> IsHeld(v2, o) { assert IsHeld(v, o) <==> IsHeld(v1, o); }
  }

  lemma HeldWordsRefl(v: Pool, w: map<nat, nat>)
    ensures HeldWords(v, w, w)
  {
  }

  lemma HeldWordsTrans(v: Pool, v1: Pool, w: map<nat, nat>, w1: map<nat, nat>, w2: map<nat, nat>)
    requires HeldWords(v, w, w1) && SameHeld(v, v1) && HeldWords(v1, w1, w2)
    ensures HeldWords(v, w, w2)
  {
    hide IsHeld;
    forall o | IsHeld(v, o) ensures SameWord(w, w2, o) { assert SameWord(w, w1, o) && SameWord(w1, w2, o); }
  }

  /** The same in terms of the objects held in the end. */
  lemma HeldWordsBack(v1: Pool, v2: Pool, w: map<nat, nat>, w1: map<nat, nat>, w2: map<nat, nat>)
    requires HeldWords(v1, w, w1) && SameHeld(v1, v2) && HeldWords(v1, w1, w2)
    ensures HeldWords(v2, w, w2)
  {
    hide IsHeld;
    forall o | IsHeld(v2, o) ensures SameWord(w, w2, o) {
      assert IsHeld(v1, o);
      assert SameWord(w, w1, o) && SameWord(w1, w2, o);
    }
  }

  lemma CarveWords(v: Pool, pg: seq<Page>, m: map<nat, Span>, w: map<nat, nat>, s: nat)
    requires PoolCore(v, pg, m, w) && SpansDisjoint(m) && s in v.spans && v.spans[s].n < Capacity(v.size, v.span)
    ensures HeldWords(v, w, w[Addr(v.size, s, v.spans[s].n) := v.free])
  {
    hide LooseOk, ListsHold, QueueOk, SpansDisjoint, Capacity, ObjsOk, SpansMatch, Addr;
    SizePositive(v);
    CarveFresh(v, m, s);
  }

  lemma AddSpanHeld(v: Pool, s: nat)
    ensures SameHeld(v, AddSpan(v, s))
  {
  }

  lemma ListedWords(v: Pool, w: map<nat, nat>, o: nat, x: nat, s: nat)
    requires IsListed(v, o, s)
    ensures HeldWords(v, w, w[o := x])
  {
  }

  lemma LooseWords(v: Pool, pg: seq<Page>, m: map<nat, Span>, w: map<nat, nat>, x: nat)
    requires PoolCore(v, pg, m, w) && v.free != 0
    ensures HeldWords(v, w, w[v.free := x])
  {
    hide PoolCore;
    PopLooseCore(v, pg, m, w);
  }

  lemma GivenWords(v: Pool, v1: Pool, o: nat, w: map<nat, nat>, x: nat)
    requires forall a :: IsHeld(v1, a) <==> IsHeld(v, a) && a != o
    ensures HeldWords(v1, w, w[o := x])
  {
    hide IsHeld;
  }

  ghost predicate OnlyPage(pg: seq<Page>, pg': seq<Page>, s: nat) {
    |pg'| == |pg| && forall i :: 0 <= i < |pg| && i != s ==> pg'[i] == pg[i]
  }

  lemma AddrIs(size: nat, s: nat, k: nat)
    ensures Addr(size, s, k) == s * PAGE + k * size
  {
  }

  /** The loop's condition on byte offsets is the condition that an object more fits. */
  lemma CarveMore(size: nat, span: nat, k: nat)
    requires size >= 1
    ensures k * size <= span * PAGE - size <==> k < Capacity(size, span)
    ensures (k + 1) * size == k * size + size
  {
    var b := span * PAGE;
    assert (k + 1) * size == k * size + size;
    assert b / size * size <= b < (b / size + 1) * size;
    if k < b / size { MulMonotone(k + 1, b / size, size); } else { MulMonotone(b / size + 1, k + 1, size); }
  }

  lemma CarvePlan(v: Pool, pg: seq<Page>, m: map<nat, Span>, mem: map<nat, nat>, s: nat)
    requires PoolCore(v, pg, m, mem) && s in v.spans && v.spans[s].n < Capacity(v.size, v.span) <= 4096
    ensures s < |pg| && pg[s].nrSmallAlloc < 4096
  {
    hide ObjsOk, SpansMatch, LooseOk, QueueOk, Chain, NoDup;
    assert ListOk(v, pg, mem, s);
  }

  lemma CarvedPlan(v: Pool, pg: seq<Page>, m: map<nat, Span>, mem: map<nat, nat>, pg': seq<Page>, s: nat)
    requires PoolCore(v, pg, m, mem) && SpansDisjoint(m) && s in v.spans && v.spans[s].n < Capacity(v.size, v.span)
    requires s < |pg| && pg[s].nrSmallAlloc < 4096
    requires pg' == pg[s := pg[s].(freelist := pg[s].freelist, nrSmallAlloc := pg[s].nrSmallAlloc + 1)]
    ensures PoolCore(CarveOne(v, s), pg', m, mem[Addr(v.size, s, v.spans[s].n) := v.free]) && OnlyPage(pg, pg', s)
    ensures CarveOne(v, s).spans.Keys == v.spans.Keys
    ensures CarveOne(v, s) == v.(free := Addr(v.size, s, v.spans[s].n), freeCount := v.freeCount + 1,
                                 loose := CarveOne(v, s).loose,
                                 spans := CarveOne(v, s).spans, obj := CarveOne(v, s).obj)
  {
    hide PoolCore, SpansDisjoint, Addr, Threaded;
    PoolThreaded(v, pg, m, mem);
    SpanWritten(pg, s, pg[s].freelist, pg[s].nrSmallAlloc + 1);
    CarveOneCore(v, pg, m, mem, pg', s);
  }

  lemma CarveGentle(v: Pool, v1: Pool, pg: seq<Page>, m: map<nat, Span>, w: map<nat, nat>, pg1: seq<Page>,
                    w1: map<nat, nat>,
                    pg2: seq<Page>, w2: map<nat, nat>, s: nat)
    requires s in v1.spans && SameHeld(v, v1) && v.obj.Keys <= v1.obj.Keys
    requires PoolCore(v1, pg1, m, w1) && SpansDisjoint(m) && v1.spans[s].n < Capacity(v1.size, v1.span)
    requires Gentle(v1.id, v1.obj.Keys, pg, m, w, pg1, m, w1)
    requires OnlyPage(pg1, pg2, s) && w2 == w1[Addr(v1.size, s, v1.spans[s].n) := v1.free]
    ensures var v2 := CarveOne(v1, s);
            SameHeld(v, v2) && v.obj.Keys <= v2.obj.Keys && Gentle(v1.id, v2.obj.Keys, pg, m, w, pg2, m, w2)
            && v2.spans == v1.spans[s := SpanUse(v1.spans[s].n + 1, v1.spans[s].list)]
               && v2.freeCount == v1.freeCount + 1 && v2.popped == v1.popped
  {
    hide PoolKept, OthersKept, LargesKept, Gentle, Addr, LooseOk, ListsHold, QueueOk, SpansDisjoint, Capacity, ObjsOk;
    var v2 := CarveOne(v1, s);
    SizePositive(v1);
    CarveFresh(v1, m, s);
    GentleWider(v1.id, v1.obj.Keys, v2.obj.Keys, pg, m, w, pg1, m, w1);
    assert OwnedBy(m, s, v1.id);
    GentleOwn(v1.id, v2.obj.Keys, pg1, m, w1, pg2, w2);
    GentleTrans(v1.id, v2.obj.Keys, pg, m, w, pg1, m, w1, pg2, m, w2);
    forall o ensures IsHeld(v, o) <==> IsHeld(v2, o) { assert IsHeld(v, o) <==> IsHeld(v1, o); }
  }

  // ---------------------------------------------------------------- adopting a span

  ghost predicate Labelled(pg: seq<Page>, pg': seq<Page>, s: nat, n: nat, id: nat) {
    && |pg'| == |pg| && s < |pg| && 1 <= n <= 128
    && (forall j :: 0 <= j < |pg| && s < j < s + n ==> pg'[j] == pg[j].(offsetInSpan := j - s, pool := id))
    && (forall j :: 0 <= j < |pg| && !(s <= j < s + n) ==> pg'[j] == pg[j])
    && pg'[s] == pg[s].(offsetInSpan := 0, pool := id, nrSmallAlloc := 0, freelist := 0)
  }

  lemma LabelledLinks(pg: seq<Page>, pg': seq<Page>, s: nat, n: nat, id: nat)
    requires Labelled(pg, pg', s, n, id)
    ensures Prevs(pg') == Prevs(pg) && Nexts(pg') == Nexts(pg)
  {
    forall j | 0 <= j < |pg| ensures pg'[j].prev == pg[j].prev && pg'[j].next == pg[j].next {
      if s < j < s + n { }
    }
  }

  lemma AdoptPlan(h: Heap, pg: seq<Page>, m: map<nat, Span>, s: nat, n: nat, id: nat)
    requires FullInv(h) && h.spans == m && (h.nr > 0 ==> Tagged(pg, m, h.nr)) && s in m && m[s] == Span(n, Large)
    ensures h.nr > 0 && s != 0 && s + n < |pg| && |pg| == h.nr + 1
    ensures FullInv(SetKind(h, s, Small(id)))
    ensures SetKind(h, s, Small(id)) == Heap(h.nr, m[s := Span(n, Small(id))], h.lists, h.nrFree, h.arr)
    ensures Core(SetKind(h, s, Small(id)))
  {
    hide FullInv, Core, TagsAt;
    Unpack(h);
    NotReserved(h, s);
    CoreSpan(h, s);
    AdoptFull(h, s, id);
    Unpack(SetKind(h, s, Small(id)));
  }

  lemma AdoptTags(h: Heap, pg: seq<Page>, pg': seq<Page>, s: nat, n: nat, id: nat)
    requires FullInv(h) && Tagged(pg, h.spans, h.nr) && s in h.spans && h.spans[s] == Span(n, Large) && id != 0
    requires Labelled(pg, pg', s, n, id)
    ensures Tagged(pg', h.spans[s := Span(n, Small(id))], h.nr)
  {
    hide Core, CountOk, NoAdjacent, Settled, ArrayOk, TagsAt;
    Unpack(h);
    CoreSpan(h, s);
    forall x | x in h.spans && x != s ensures TagsAt(pg', x, h.spans[x]) {
      CoreSpan(h, x);
      TagsElsewhere(pg, pg', x, h.spans[x]);
    }
    LabelledTags(pg, pg', s, n, id);
  }

  lemma LabelledTags(pg: seq<Page>, pg': seq<Page>, s: nat, n: nat, id: nat)
    requires TagsAt(pg, s, Span(n, Large)) && Labelled(pg, pg', s, n, id) && id != 0
    ensures TagsAt(pg', s, Span(n, Small(id)))
  {
  }

  lemma TagsElsewhere(pg: seq<Page>, pg': seq<Page>, x: nat, sp: Span)
    requires TagsAt(pg, x, sp) && |pg'| == |pg| && forall i :: x <= i < x + sp.len && i < |pg| ==> pg'[i] == pg[i]
    ensures TagsAt(pg', x, sp)
  {
  }

  lemma KeysGrow(m: map<nat, SpanUse>, s: nat, u: SpanUse)
    requires s !in m
    ensures |m[s := u].Keys| == |m.Keys| + 1
  {
    assert m[s := u].Keys == m.Keys + {s};
  }

  lemma KeysShrink(m: map<nat, SpanUse>, s: nat)
    requires s in m
    ensures |(m - {s}).Keys| == |m.Keys| - 1
  {
    assert m.Keys == (m - {s}).Keys + {s};
  }

  lemma AdoptCore(v: Pool, pg: seq<Page>, m: map<nat, Span>, mem: map<nat, nat>, pg': seq<Page>, s: nat)
    requires PoolCore(v, pg, m, mem) && v.popped == 0 && s !in v.spans && s != 0 && SpansDisjoint(m) && v.size >= WORD
    requires s in m && m[s] == Span(v.span, Large) && Labelled(pg, pg', s, v.span, v.id)
    ensures PoolCore(AddSpan(v, s), pg', m[s := Span(v.span, Small(v.id))], mem)
    ensures AddSpan(v, s) == v.(spans := v.spans[s := SpanUse(0, [])])
  {
    hide ObjsOk, LooseOk, ListsHold, QueueOk, Threaded;
    LabelledLinks(pg, pg', s, v.span, v.id);
    PoolThreaded(v, pg, m, mem);
    AdoptMatch(v, m, s);
    AdoptHeads(v, pg, pg', m, s);
    hide SpansMatch, Labelled;
    AddSpanCore(v, pg, m, mem, pg', m[s := Span(v.span, Small(v.id))], s);
  }

  lemma AdoptMatch(v: Pool, m: map<nat, Span>, s: nat)
    requires SpansMatch(v, m) && s !in v.spans
    ensures SpansMatch(AddSpan(v, s), m[s := Span(v.span, Small(v.id))])
  {
  }

  lemma AdoptHeads(v: Pool, pg: seq<Page>, pg': seq<Page>, m: map<nat, Span>, s: nat)
    requires SpansMatch(v, m) && SpansDisjoint(m) && s in m && m[s].len == v.span && Labelled(pg, pg', s, v.span, v.id)
    ensures HeadsKept(v, pg, pg', s)
  {
    forall t | t in v.spans && t != s && t < |pg| ensures pg'[t] == pg[t] { assert t in m && m[t].len == v.span; }
  }

  lemma AdoptKept(id: nat, pg: seq<Page>, m: map<nat, Span>, pg': seq<Page>, s: nat, n: nat)
    requires SpansDisjoint(m) && s in m && m[s] == Span(n, Large) && Labelled(pg, pg', s, n, id)
    ensures var m' := m[s := Span(n, Small(id))];
            OthersKept(id, pg, m, pg', m')
            && (forall x: nat :: IsLarge(m', x) <==> IsLarge(m, x) && x != s)
            && (forall x: nat :: IsLarge(m, x) && x != s ==> SpanStays(m, m', x))
  {
    var m' := m[s := Span(n, Small(id))];
    forall j: nat | j != id ensures PoolKept(j, pg, m, pg', m') {
      forall x: nat | OwnedBy(m, x, j) && x < |pg| ensures pg'[x] == pg[x] { assert x != s; }
    }
  }

  // ---------------------------------------------------------------- a new span

  lemma NrIs(c: CpuPages)
    ensures c.Abs().nr == c.nrPages
  {
  }

  lemma PoolStays(v: Pool, pg: seq<Page>, m: map<nat, Span>, w: map<nat, nat>, pg1: seq<Page>, m1: map<nat, Span>)
    requires PoolCore(v, pg, m, w) && forall j: nat :: PoolKept(j, pg, m, pg1, m1)
    ensures PoolCore(v, pg1, m1, w)
  {
    hide PoolCore, PoolKept;
    KeptCore(v, pg, m, w, pg1, m1, w);
  }

  lemma AddSpanIs(v: Pool, s: nat)
    ensures AddSpan(v, s) == v.(spans := v.spans[s := SpanUse(0, [])])
  {
  }

  lemma AllGentle(id: nat, keys: set<nat>, pg: seq<Page>, m: map<nat, Span>, w: map<nat, nat>, pg1: seq<Page>,
                  m1: map<nat, Span>)
    requires (forall j: nat :: PoolKept(j, pg, m, pg1, m1)) && LargesKept(m, m1)
    ensures Gentle(id, keys, pg, m, w, pg1, m1, w)
  {
    hide PoolKept, LargesKept;
  }

  lemma NewLargeIs(m: map<nat, Span>, m': map<nat, Span>, r: nat, n: nat)
    requires NewLarge(m, m', r, n)
    ensures r in m' && m'[r] == Span(n, Large) && m'[r].kind.Large?
  {
  }

  lemma LargeNotOwn(v: Pool, m: map<nat, Span>, pg: seq<Page>, w: map<nat, nat>, r: nat)
    requires PoolCore(v, pg, m, w) && r in m && m[r].kind.Large?
    ensures r !in v.spans
  {
    hide ObjsOk, LooseOk, ListsHold, QueueOk;
  }

  lemma NewSpanGentle(v: Pool, v2: Pool, v3: Pool, r: nat, pg: seq<Page>, m: map<nat, Span>, w: map<nat, nat>,
                      pg1: seq<Page>, m1: map<nat, Span>, pg2: seq<Page>, m2: map<nat, Span>,
                      pg3: seq<Page>, w3: map<nat, nat>)
    requires (forall j: nat :: PoolKept(j, pg, m, pg1, m1)) && OthersKept(v.id, pg1, m1, pg2, m2)
    requires Gentle(v.id, v3.obj.Keys, pg2, m2, w, pg3, m2, w3)
    requires exists n :: NewLarge(m, m1, r, n)
    requires forall s: nat :: IsLarge(m2, s) <==> IsLarge(m1, s) && s != r
    requires forall s: nat :: IsLarge(m1, s) && s != r ==> SpanStays(m1, m2, s)
    requires v2 == AddSpan(v, r) && SameHeld(v2, v3) && v2.obj.Keys <= v3.obj.Keys
    ensures SameHeld(v, v3) && v.obj.Keys <= v3.obj.Keys
    ensures Gentle(v.id, v3.obj.Keys, pg, m, w, pg3, m2, w3)
  {
    hide PoolKept;
    forall j: nat | j != v.id ensures PoolKept(j, pg, m, pg2, m2) { KeptTrans(j, pg, m, pg1, m1, pg2, m2); }
    assert LargesKept(m, m2) by {
      forall s: nat ensures (IsLarge(m, s) <==> IsLarge(m2, s)) && (IsLarge(m, s) ==> SpanStays(m, m2, s)) {
        assert IsLarge(m1, s) <==> IsLarge(m, s) || s == r;
        assert IsLarge(m2, s) <==> IsLarge(m1, s) && s != r;
      }
    }
    assert Gentle(v.id, v3.obj.Keys, pg, m, w, pg2, m2, w);
    GentleTrans(v.id, v3.obj.Keys, pg, m, w, pg2, m2, w, pg3, m2, w3);
    forall o ensures IsHeld(v, o) <==> IsHeld(v3, o) { assert IsHeld(v2, o) <==> IsHeld(v3, o); }
  }

  // ---------------------------------------------------------------- refilling

  lemma RefillPlan(v: Pool, pg: seq<Page>, m: map<nat, Span>, mem: map<nat, nat>, s: nat)
    requires PoolCore(v, pg, m, mem) && s in v.spans && v.spans[s].list != [] && Capacity(v.size, v.span) <= 4096
    ensures s < |pg| && pg[s].freelist != 0 && pg[s].freelist in mem && pg[s].nrSmallAlloc < 4096
    ensures v.spans[s].list[0] == pg[s].freelist && IsListed(v, pg[s].freelist, s) && pg[s].freelist in v.obj
  {
    hide SpansMatch, LooseOk, QueueOk, Chain, NoDup, ObjsOk, ListOk, Capacity;
    SpanNotNull(v, s);
    assert ListOk(v, pg, mem, s);
    ListHead(v, pg, mem, s);
  }

  lemma RefilledPlan(v: Pool, pg: seq<Page>, m: map<nat, Span>, mem: map<nat, nat>, pg': seq<Page>, s: nat)
    requires PoolCore(v, pg, m, mem) && s in v.spans && v.popped == s && v.spans[s].list != []
    requires s < |pg| && pg[s].freelist != 0 && pg[s].freelist in mem && pg[s].nrSmallAlloc < 4096
    requires v.spans[s].list[0] == pg[s].freelist && IsListed(v, pg[s].freelist, s)
    requires pg' == pg[s := pg[s].(freelist := mem[pg[s].freelist], nrSmallAlloc := pg[s].nrSmallAlloc + 1)]
    ensures var v', w' := FromList(v, s), mem[pg[s].freelist := v.free];
            PoolCore(v', pg', m, w') && SameHeld(v, v') && v'.obj.Keys == v.obj.Keys && v'.spans.Keys == v.spans.Keys
            && Gentle(v.id, v.obj.Keys, pg, m, mem, pg', m, w')
            && v' == v.(free := pg[s].freelist, freeCount := v.freeCount + 1, loose := v'.loose, spans := v'.spans,
                        obj := v'.obj)
            && v'.spans == v.spans[s := SpanUse(v.spans[s].n, v.spans[s].list[1..])]
  {
    hide ObjsOk, SpansMatch, LooseOk, QueueOk, ListsHold, Threaded, Gentle;
    PoolThreaded(v, pg, m, mem);
    SpanWritten(pg, s, mem[pg[s].freelist], pg[s].nrSmallAlloc + 1);
    FromListCore(v, pg, m, mem, pg', s);
    OwnPage(v, pg, m, mem, s);
    GentleOwn(v.id, v.obj.Keys, pg, m, mem, pg', mem[pg[s].freelist := v.free]);
  }

  lemma OwnPage(v: Pool, pg: seq<Page>, m: map<nat, Span>, mem: map<nat, nat>, s: nat)
    requires PoolCore(v, pg, m, mem) && s in v.spans
    ensures OwnedBy(m, s, v.id)
  {
    hide ObjsOk, LooseOk, QueueOk, ListsHold;
  }

  /** The spans on the span list are the pool's. */
  lemma QueueOwned(v: Pool, pg: seq<Page>, m: map<nat, Span>, mem: map<nat, nat>)
    requires PoolCore(v, pg, m, mem)
    ensures forall x :: x in v.list ==> x in v.spans && OwnedBy(m, x, v.id) && !IsFree(m, x) && v.spans[x].list != []
    ensures v.front == 0 <==> v.list == []
    ensures v.list != [] ==> v.front == v.list[0]
    ensures |Prevs(pg)| == |pg|
  {
    hide ObjsOk, LooseOk, ListsHold, NoDup;
    if v.list != [] { assert ThreadAt(Prevs(pg), Nexts(pg), v.list, 0); }
    forall x | x in v.list ensures OwnedBy(m, x, v.id) { assert x in v.spans; }
  }

  lemma PoppedPlan(v: Pool, pg: seq<Page>, m: map<nat, Span>, mem: map<nat, nat>, pg1: seq<Page>, front: nat, back: nat)
    requires PoolCore(v, pg, m, mem) && v.list != [] && RelinkedWithin(pg, pg1, v.list)
    ensures HeadsKept(v, pg, pg1, 0) && v.front == v.list[0] && v.list[0] in v.spans && v.spans[v.list[0]].list != []
    ensures v.list[0] < |pg| && (pg1[v.list[0]].freelist == 0 <==> v.spans[v.list[0]].list == [])
    ensures Gentle(v.id, v.obj.Keys, pg, m, mem, pg1, m, mem)
  {
    hide ObjsOk, LooseOk, QueueOk, ListsHold, SpansMatch, Gentle;
    QueueOwned(v, pg, m, mem);
    RelinkedHeads(v, pg, pg1);
    QueueHead(v, pg, m, mem);
    forall i | 0 <= i < |pg| && pg1[i] != pg[i] ensures OwnedBy(m, i, v.id) { assert i in v.list; }
    GentleOwn(v.id, v.obj.Keys, pg, m, mem, pg1, mem);
  }

  lemma QueueHead(v: Pool, pg: seq<Page>, m: map<nat, Span>, mem: map<nat, nat>)
    requires PoolCore(v, pg, m, mem) && v.list != [] && v.list[0] in v.spans
    ensures v.list[0] < |pg| && (pg[v.list[0]].freelist == 0 <==> v.spans[v.list[0]].list == [])
  {
    hide ObjsOk, LooseOk, QueueOk, SpansMatch, ListOk;
    assert ListOk(v, pg, mem, v.list[0]);
    ListHead(v, pg, mem, v.list[0]);
  }

  lemma RelinkedHeads(v: Pool, pg: seq<Page>, pg1: seq<Page>)
    requires RelinkedWithin(pg, pg1, v.list)
    ensures HeadsKept(v, pg, pg1, 0) && forall i :: 0 <= i < |pg| ==>
              pg1[i].freelist == pg[i].freelist && pg1[i].nrSmallAlloc == pg[i].nrSmallAlloc
  {
    forall i | 0 <= i < |pg| ensures pg1[i].freelist == pg[i].freelist && pg1[i].nrSmallAlloc == pg[i].nrSmallAlloc {
      assert Unlinked(pg1[i]) == Unlinked(pg[i]);
    }
  }

  lemma LinkedIs(p: SmallPool)
    requires p.spanList.Linked(p.cpu.pages)
    ensures Threaded(Prevs(p.cpu.pages[..]), Nexts(p.cpu.pages[..]), p.spanList.front, p.spanList.back,
                     p.spanList.contents)
  {
    hide Threaded;
  }

  lemma SameHeldObj(v: Pool, v': Pool)
    requires v'.obj == v.obj
    ensures SameHeld(v, v')
  {
  }

  lemma SpanHead(p: SmallPool, s: nat)
    requires p.Parts() && s in p.spans
    ensures s < p.cpu.pages.Length && (p.cpu.pages[s].freelist == 0 <==> p.spans[s].list == [])
  {
    hide PoolCore, CpuPages.Rep, FullInv;
    PoolHead(p.View(), p.cpu.pages[..], p.cpu.spans, p.mem.next, s);
  }

  lemma PoolHead(v: Pool, pg: seq<Page>, m: map<nat, Span>, mem: map<nat, nat>, s: nat)
    requires PoolCore(v, pg, m, mem) && s in v.spans
    ensures s < |pg| && (pg[s].freelist == 0 <==> v.spans[s].list == [])
            && pg[s].nrSmallAlloc == v.spans[s].n - |v.spans[s].list|
  {
    hide ObjsOk, LooseOk, QueueOk, SpansMatch, ListOk;
    assert ListOk(v, pg, mem, s);
    ListHead(v, pg, mem, s);
  }

  lemma EmptiedCarved(v: Pool, v': Pool, s: nat)
    requires v.size >= 1 && AllCarved(v) && v'.size == v.size && v'.span == v.span
    requires s in v'.spans && v'.spans.Keys == v.spans.Keys && v'.spans[s].n == v.spans[s].n && v'.spans[s].list == []
    requires forall t :: t in v'.spans && t != s ==> v'.spans[t] == v.spans[t]
    ensures AllCarved(v')
  {
    forall t | t in v'.spans ensures v'.spans[t].n == Capacity(v'.size, v'.span) && |v'.spans[t].list| < v'.spans[t].n {
      assert t in v.spans.Keys;
    }
  }

  lemma AddedCarved(v: Pool, v': Pool)
    requires v.size >= 1 && AllCarved(v) && v'.size == v.size && v'.span == v.span && Capacity(v.size, v.span) >= 1
    requires forall t :: t in v'.spans ==>
               (t in v.spans && v'.spans[t] == v.spans[t]) || v'.spans[t] == SpanUse(Capacity(v.size, v.span), [])
    ensures AllCarved(v')
  {
    hide Capacity;
  }

  /** No object is left to hand out. */
  ghost predicate Exhausted(v: Pool) {
    forall o :: o in v.obj ==> IsHeld(v, o)
  }

  lemma NothingLeft(v: Pool, pg: seq<Page>, m: map<nat, Span>, mem: map<nat, nat>)
    requires PoolCore(v, pg, m, mem) && v.popped == 0 && v.list == []
    ensures v.free == 0 ==> Exhausted(v)
  {
    hide SpansMatch, Threaded, NoDup;
    if v.free == 0 {
      ChainEmpty(mem, v.free, v.loose);
      forall o | o in v.obj ensures IsHeld(v, o) {
        assert !IsLoose(v, o);
        assert HomeOk(v, o);
        var s := v.obj[o].span;
        assert ListOk(v, pg, mem, s);
        assert v.spans[s].list == [];
        assert o !in v.spans[s].list;
      }
    }
  }

  lemma NotEmpty(v: Pool, pg: seq<Page>, m: map<nat, Span>, mem: map<nat, nat>)
    requires PoolCore(v, pg, m, mem)
    ensures v.freeCount > 0 <==> v.free != 0
  {
    hide SpansMatch, ListsHold, QueueOk, ObjsOk;
    ChainEmpty(mem, v.free, v.loose);
  }

  lemma FrontIsEmpty(p: SmallPool)
    requires p.Parts()
    ensures p.spanList.front == 0 <==> p.spanList.contents == []
  {
    hide PoolCore, CpuPages.Rep, FullInv, Threaded;
    QueueOwned(p.View(), p.cpu.pages[..], p.cpu.spans, p.mem.next);
  }

  lemma ValidOf(p: SmallPool)
    requires p.Valid()
    ensures p.Parts() && AllCarved(p.View()) && p.popped == 0
  {
    hide PoolCore, CpuPages.Rep, FullInv, AllCarved;
  }

  lemma ValidFrom(p: SmallPool)
    requires p.Parts() && AllCarved(p.View()) && p.popped == 0
    ensures p.Valid()
  {
    hide PoolCore, CpuPages.Rep, FullInv, AllCarved;
  }

  /** What a listed span holds is less than a whole span. */
  lemma ListShort(v: Pool, s: nat)
    requires v.size > 0 && AllCarved(v) && s in v.spans
    ensures |v.spans[s].list| < Capacity(v.size, v.span)
  {
    hide Capacity;
  }

  lemma SizedIs(p: SmallPool)
    requires p.Parts()
    ensures p.minFree == p.maxFree / 2 && p.maxFree >= 100
    ensures p.minFree < (p.minFree + p.maxFree) / 2 <= p.maxFree - p.maxFree / 4 < p.maxFree
  {
    hide PoolCore, CpuPages.Rep, FullInv;
  }

  // ---------------------------------------------------------------- trimming

  ghost predicate AllCarvedBut(v: Pool, s: nat) {
    v.size > 0 && forall t :: t in v.spans ==>
      v.spans[t].n == Capacity(v.size, v.span) && (t != s ==> |v.spans[t].list| < v.spans[t].n)
  }

  lemma StillCarved(v: Pool, pg: seq<Page>, m: map<nat, Span>, mem: map<nat, nat>, s: nat)
    requires PoolCore(v, pg, m, mem) && AllCarvedBut(v, s) && s in v.spans && s < |pg| && pg[s].nrSmallAlloc != 0
    ensures AllCarved(v)
  {
    hide PoolCore, Capacity;
    PoolHead(v, pg, m, mem, s);
  }

  /** The span of an object is found through the page it lies in: that page names its place in the
      span, whatever was there before the pool took the span over. */
  lemma SpanOfObject(v: Pool, pg: seq<Page>, m: map<nat, Span>, nr: nat, o: nat)
    requires SpansMatch(v, m) && ObjsOk(v) && Tagged(pg, m, nr) && o in v.obj
    ensures o / PAGE < |pg| && o / PAGE - pg[o / PAGE].offsetInSpan == v.obj[o].span && v.obj[o].span in v.spans
    ensures pg[o / PAGE].pool == v.id
  {
    var s := v.obj[o].span;
    assert HomeOk(v, o);
    HomesApart(v, o);
    assert TagsAt(pg, s, m[s]);
  }

  /** The head of the pool's list belongs to span s, and what the page structure of s says. */
  ghost predicate Trimmable(v: Pool, pg: seq<Page>, m: map<nat, Span>, mem: map<nat, nat>, s: nat) {
    && v.free in mem && v.free in v.obj && IsLoose(v, v.free) && v.freeCount > 0 && v.loose != []
    && v.obj[v.free].span == s && s in v.spans && 0 < s < |pg| && !IsFree(m, s)
    && (pg[s].freelist == 0 <==> v.spans[s].list == []) && 1 <= pg[s].nrSmallAlloc
    && (v.spans[s].list == [] ==> s !in v.list) && |v.spans[s].list| < v.spans[s].n
    && (forall x :: x in v.list ==> !IsFree(m, x))
  }

  lemma TrimmableIs(v: Pool, pg: seq<Page>, m: map<nat, Span>, mem: map<nat, nat>, s: nat)
    requires Trimmable(v, pg, m, mem, s)
    ensures v.free in mem && v.free in v.obj && v.freeCount > 0 && v.loose != [] && s in v.spans
            && v.obj[v.free].span == s
    ensures 0 < s < |pg| && !IsFree(m, s) && (pg[s].freelist == 0 <==> v.spans[s].list == []) && 1 <= pg[s].nrSmallAlloc
    ensures v.spans[s].list == [] ==> s !in v.list
    ensures forall x :: x in v.list ==> !IsFree(m, x)
  {
  }

  ghost function HomeOf(v: Pool): nat {
    if v.free in v.obj then v.obj[v.free].span else 0
  }

  lemma LoosePlan(v: Pool, pg: seq<Page>, m: map<nat, Span>, mem: map<nat, nat>, nr: nat)
    requires PoolCore(v, pg, m, mem) && AllCarved(v) && v.free != 0 && (nr > 0 ==> Tagged(pg, m, nr))
             && (nr == 0 ==> forall s: nat :: s !in m)
    requires Capacity(v.size, v.span) <= 4096
    ensures v.free / PAGE < |pg| && HomeOf(v) == v.free / PAGE - pg[v.free / PAGE].offsetInSpan
    ensures Trimmable(v, pg, m, mem, HomeOf(v))
  {
    hide Tagged, LooseOk, ListsHold, QueueOk, Chain, Capacity, NoDup;
    PopLooseCore(v, pg, m, mem);
    assert HomeOk(v, v.free);
    var s := v.obj[v.free].span;
    if nr > 0 { SpanOfObject(v, pg, m, nr, v.free); }
    hide ObjsOk;
    PoolHead(v, pg, m, mem, s);
    QueueOwned(v, pg, m, mem);
    SpanNotNull(v, s);
    assert OwnedBy(m, s, v.id);
  }

  /** The pages once the span is queued. */
  ghost predicate Queued(v: Pool, pg: seq<Page>, m: map<nat, Span>, pg1: seq<Page>, s: nat, front: nat, back: nat) {
    && s in v.spans && s < |pg| == |pg1| && HeadsKept(v, pg, pg1, s)
    && pg1[s].freelist == pg[s].freelist && pg1[s].nrSmallAlloc == pg[s].nrSmallAlloc
    && (forall i :: 0 <= i < |pg| && pg1[i] != pg[i] ==> OwnedBy(m, i, v.id))
    && Threaded(Prevs(pg1), Nexts(pg1), front, back, if v.spans[s].list == [] then [s] + v.list else v.list)
  }

  lemma PushedPlan(v: Pool, pg: seq<Page>, m: map<nat, Span>, mem: map<nat, nat>, pg1: seq<Page>, s: nat, front: nat,
                   back: nat)
    requires PoolCore(v, pg, m, mem) && s in v.spans && s < |pg|
    requires pg1 == pg || RelinkedWithin(pg, pg1, [s] + v.list)
    requires Threaded(Prevs(pg1), Nexts(pg1), front, back, if v.spans[s].list == [] then [s] + v.list else v.list)
    ensures Queued(v, pg, m, pg1, s, front, back)
    ensures |pg1| == |pg| && pg1[s].freelist == pg[s].freelist && pg1[s].nrSmallAlloc == pg[s].nrSmallAlloc
  {
    hide PoolCore, Threaded;
    QueueOwned(v, pg, m, mem);
    OwnPage(v, pg, m, mem, s);
    if pg1 != pg {
      forall i | 0 <= i < |pg| ensures pg1[i].freelist == pg[i].freelist && pg1[i].nrSmallAlloc == pg[i].nrSmallAlloc {
        assert Unlinked(pg1[i]) == Unlinked(pg[i]);
      }
      forall i | 0 <= i < |pg| && pg1[i] != pg[i] ensures OwnedBy(m, i, v.id) { assert i == s || i in v.list; }
    }
  }

  lemma MovedCore(v: Pool, pg: seq<Page>, m: map<nat, Span>, w: map<nat, nat>, pg1: seq<Page>, pg2: seq<Page>, s: nat,
                  front: nat, back: nat)
    requires PoolCore(v, pg, m, w) && v.popped == 0 && v.free != 0 && Trimmable(v, pg, m, w, s)
             && Queued(v, pg, m, pg1, s, front, back)
    requires pg2 == pg1[s := pg1[s].(freelist := v.free, nrSmallAlloc := pg1[s].nrSmallAlloc - 1)]
    ensures PoolCore(ToList(v, w, front, back), pg2, m, w[v.free := pg[s].freelist])
    ensures Gentle(v.id, v.obj.Keys, pg, m, w, pg2, m, w[v.free := pg[s].freelist])
  {
    hide PoolCore, Threaded, Gentle;
    SpanWritten(pg1, s, v.free, pg1[s].nrSmallAlloc - 1);
    ToListCore(v, pg, m, w, pg2, front, back);
    OwnPage(v, pg, m, w, s);
    GentleOwn(v.id, v.obj.Keys, pg, m, w, pg2, w[v.free := pg[s].freelist]);
  }

  lemma MovedPlan(v: Pool, pg: seq<Page>, m: map<nat, Span>, w: map<nat, nat>, pg1: seq<Page>, pg2: seq<Page>, s: nat,
                  front: nat, back: nat)
    requires PoolCore(v, pg, m, w) && AllCarved(v) && v.popped == 0 && v.free != 0 && Trimmable(v, pg, m, w, s)
             && Queued(v, pg, m, pg1, s, front, back)
    requires v.free in w && v.free in v.obj && v.obj[v.free].span == s && s in v.spans && v.freeCount > 0
             && v.loose != []
    requires s < |pg1| && s < |pg| && pg1[s].nrSmallAlloc >= 1
    requires pg2 == pg1[s := pg1[s].(freelist := v.free, nrSmallAlloc := pg1[s].nrSmallAlloc - 1)]
    ensures var v', w' := ToList(v, w, front, back), w[v.free := pg[s].freelist];
            PoolCore(v', pg2, m, w') && SameHeld(v, v')
            && v'.obj.Keys == v.obj.Keys
            && v'.spans.Keys == v.spans.Keys && AllCarvedBut(v', s) && s in v'.list
               && v'.list == (if v.spans[s].list == [] then [s] + v.list else v.list)
            && v' == v.(free := w[v.free], freeCount := v.freeCount - 1, loose := v'.loose, spans := v'.spans,
                        obj := v'.obj,
                        front := front, back := back, list := v'.list)
            && Gentle(v.id, v.obj.Keys, pg, m, w, pg2, m, w')
  {
    hide Queued, Gentle, Capacity, PoolCore;
    MovedCore(v, pg, m, w, pg1, pg2, s, front, back);
    if v.spans[s].list != [] { CoreInQueue(v, pg, m, w, s); }
  }

  lemma CoreInQueue(v: Pool, pg: seq<Page>, m: map<nat, Span>, w: map<nat, nat>, s: nat)
    requires PoolCore(v, pg, m, w) && v.popped == 0 && s in v.spans && v.spans[s].list != []
    ensures s in v.list
  {
    hide QueueOk, ObjsOk, LooseOk, SpansMatch, ListsHold;
    InQueue(v, pg, s);
  }

  lemma InQueue(v: Pool, pg: seq<Page>, s: nat)
    requires QueueOk(v, pg) && v.popped == 0 && ObjsOk(v) && s in v.spans && v.spans[s].list != []
    ensures s in v.list
  {
    hide Threaded;
    SpanNotNull(v, s);
  }

  lemma OwnedIs(m: map<nat, Span>, s: nat, id: nat)
    requires OwnedBy(m, s, id)
    ensures s in m && m[s].kind == Small(id) && m[s].kind.Small?
  {
  }

  lemma ThreadedKept(p: seq<nat>, n: seq<nat>, p': seq<nat>, n': seq<nat>, front: nat, back: nat, c: seq<nat>)
    requires Threaded(p, n, front, back, c) && |p'| == |n'| == |p|
    requires forall x :: x in c && x < |p| ==> p'[x] == p[x] && n'[x] == n[x]
    ensures Threaded(p', n', front, back, c)
  {
    hide NoDup;
    forall k | 0 <= k < |c| ensures ThreadAt(p', n', c, k) {
      assert ThreadAt(p, n, c, k);
      assert c[k] in c;
    }
  }

  lemma ReturnedMatch(v: Pool, m: map<nat, Span>, m': map<nat, Span>, s: nat, front: nat, back: nat)
    requires SpansMatch(v, m) && s in v.spans
    requires forall x: nat, id: nat :: OwnedBy(m', x, id) <==> OwnedBy(m, x, id) && x != s
    requires forall x: nat, id: nat :: OwnedBy(m, x, id) && x != s ==> SpanStays(m, m', x)
    ensures SpansMatch(DropSpan(v, s, front, back), m')
  {
    hide Without;
    var v' := DropSpan(v, s, front, back);
    forall x ensures x in v'.spans <==> x in m' && m'[x].kind == Small(v.id) {
      assert OwnedBy(m', x, v.id) <==> OwnedBy(m, x, v.id) && x != s;
    }
    forall x | x in v'.spans ensures x in m' && m'[x].len == v.span { assert OwnedBy(m, x, v.id); }
  }

  lemma ReturnedHeads(v: Pool, pg: seq<Page>, m: map<nat, Span>, w: map<nat, nat>, pg1: seq<Page>, pg2: seq<Page>,
                      m2: map<nat, Span>, s: nat, front: nat, back: nat)
    requires PoolCore(v, pg, m, w) && RelinkedWithin(pg, pg1, v.list) && PoolFrame(pg1, pg2, m, m2)
    requires forall x: nat, id: nat :: OwnedBy(m2, x, id) <==> OwnedBy(m, x, id) && x != s
    requires Threaded(Prevs(pg1), Nexts(pg1), front, back, Without(v.list, s)) && s in v.list
    ensures HeadsKept(v, pg, pg2, s) && Threaded(Prevs(pg2), Nexts(pg2), front, back, Without(v.list, s))
  {
    hide ObjsOk, SpansMatch, LooseOk, ListsHold, Threaded;
    QueueOwned(v, pg, m, w);
    RelinkedHeads(v, pg, pg1);
    QueueNoDup(v, pg, m, w);
    WithoutMembers(v.list, s);
    forall x | x in Without(v.list, s) && x < |pg| ensures pg2[x].prev == pg1[x].prev && pg2[x].next == pg1[x].next {
      assert OwnedBy(m, x, v.id);
      assert OwnedBy(m2, x, v.id);
      assert !IsFree(m, x) && !IsFree(m2, x);
    }
    ThreadedKept(Prevs(pg1), Nexts(pg1), Prevs(pg2), Nexts(pg2), front, back, Without(v.list, s));
    forall t | 0 <= t < |pg| ensures pg2[t].freelist == pg[t].freelist && pg2[t].nrSmallAlloc == pg[t].nrSmallAlloc {
      assert SmallFieldsAt(pg1[t], pg2[t]);
    }
  }

  lemma QueueNoDup(v: Pool, pg: seq<Page>, m: map<nat, Span>, w: map<nat, nat>)
    requires PoolCore(v, pg, m, w)
    ensures NoDup(v.list)
  {
    hide ObjsOk, SpansMatch, LooseOk, ListsHold, NoDup;
  }

  lemma ReturnedPlan(v: Pool, pg: seq<Page>, m: map<nat, Span>, w: map<nat, nat>, pg1: seq<Page>, pg2: seq<Page>,
                     m2: map<nat, Span>, s: nat, front: nat, back: nat)
    requires PoolCore(v, pg, m, w) && v.popped == 0 && s in v.spans && s in v.list && s < |pg|
             && pg[s].nrSmallAlloc == 0 && AllCarvedBut(v, s)
    requires RelinkedWithin(pg, pg1, v.list) && PoolFrame(pg1, pg2, m, m2) && v.id != 0
    requires Threaded(Prevs(pg1), Nexts(pg1), front, back, Without(v.list, s))
    requires forall id: nat :: !OwnedBy(m, s, id) ==> PoolKept(id, pg1, m, pg2, m2)
    requires forall x: nat, id: nat :: OwnedBy(m2, x, id) <==> OwnedBy(m, x, id) && x != s
    requires forall x: nat, id: nat :: OwnedBy(m, x, id) && x != s ==> SpanStays(m, m2, x)
    requires forall x: nat :: IsLarge(m2, x) <==> IsLarge(m, x) && x != s
    requires forall x: nat :: IsLarge(m, x) && x != s ==> SpanStays(m, m2, x)
    ensures var v' := DropSpan(v, s, front, back);
            PoolCore(v', pg2, m2, w) && AllCarved(v') && SameHeld(v, v') && v'.obj.Keys <= v.obj.Keys
            && v'.spans == v.spans - {s} && v'.list == Without(v.list, s)
            && (forall o :: o in v.obj && o !in v'.obj ==> IsListed(v, o, s))
            && v' == v.(spans := v'.spans, obj := v'.obj, front := front, back := back, list := v'.list)
    ensures Gentle(v.id, v.obj.Keys, pg, m, w, pg2, m2, w)
  {
    hide PoolCore, PoolFrame, RelinkedWithin, Threaded, Gentle, Without, Capacity, PoolKept, SpanStays;
    ReturnedCore(v, pg, m, w, pg1, pg2, m2, s, front, back);
    ReturnedGentle(v, pg, m, w, pg1, pg2, m2, s);
  }

  lemma ReturnedCore(v: Pool, pg: seq<Page>, m: map<nat, Span>, w: map<nat, nat>, pg1: seq<Page>, pg2: seq<Page>,
                     m2: map<nat, Span>, s: nat, front: nat, back: nat)
    requires PoolCore(v, pg, m, w) && v.popped == 0 && s in v.spans && s in v.list && s < |pg|
             && pg[s].nrSmallAlloc == 0
    requires RelinkedWithin(pg, pg1, v.list) && PoolFrame(pg1, pg2, m, m2)
    requires Threaded(Prevs(pg1), Nexts(pg1), front, back, Without(v.list, s))
    requires forall x: nat, id: nat :: OwnedBy(m2, x, id) <==> OwnedBy(m, x, id) && x != s
    requires forall x: nat, id: nat :: OwnedBy(m, x, id) && x != s ==> SpanStays(m, m2, x)
    ensures PoolCore(DropSpan(v, s, front, back), pg2, m2, w) && SameHeld(v, DropSpan(v, s, front, back))
    ensures forall o :: o in v.obj && v.obj[o].span == s ==> IsListed(v, o, s)
  {
    hide ObjsOk, SpansMatch, LooseOk, ListOk, QueueOk, PoolFrame, RelinkedWithin, Threaded, HeadsKept, Without,
         SpanStays, DropSpan, IsHeld;
    ReturnedHeads(v, pg, m, w, pg1, pg2, m2, s, front, back);
    ReturnedMatch(v, m, m2, s, front, back);
    DropSpanCore(v, pg, m, w, pg2, m2, s, front, back);
    NoneMissing(v, pg, w, s);
  }

  lemma ReturnedGentle(v: Pool, pg: seq<Page>, m: map<nat, Span>, w: map<nat, nat>, pg1: seq<Page>, pg2: seq<Page>,
                       m2: map<nat, Span>, s: nat)
    requires PoolCore(v, pg, m, w) && s in v.spans && RelinkedWithin(pg, pg1, v.list)
    requires forall id: nat :: !OwnedBy(m, s, id) ==> PoolKept(id, pg1, m, pg2, m2)
    requires forall x: nat :: IsLarge(m2, x) <==> IsLarge(m, x) && x != s
    requires forall x: nat :: IsLarge(m, x) && x != s ==> SpanStays(m, m2, x)
    ensures Gentle(v.id, v.obj.Keys, pg, m, w, pg2, m2, w)
  {
    hide PoolCore, PoolKept;
    QueueOwned(v, pg, m, w);
    OwnPage(v, pg, m, w, s);
    assert !IsLarge(m, s);
    forall i | 0 <= i < |pg| && pg1[i] != pg[i] ensures OwnedBy(m, i, v.id) { assert i in v.list; }
    GentleOwn(v.id, v.obj.Keys, pg, m, w, pg1, w);
    forall j: nat | j != v.id ensures PoolKept(j, pg1, m, pg2, m2) { assert !OwnedBy(m, s, j); }
    assert Gentle(v.id, v.obj.Keys, pg1, m, w, pg2, m2, w);
    GentleTrans(v.id, v.obj.Keys, pg, m, w, pg1, m, w, pg2, m2, w);
  }

  // ---------------------------------------------------------------- taking and giving an object

  lemma PopPlan(v: Pool, pg: seq<Page>, m: map<nat, Span>, mem: map<nat, nat>)
    requires PoolCore(v, pg, m, mem) && v.free != 0
    ensures v.free in mem && v.free in v.obj && v.freeCount > 0 && v.loose != []
    ensures var v' := PopLoose(v, mem);
            PoolCore(v', pg, m, mem)
            && v' == v.(free := mem[v.free], freeCount := v.freeCount - 1, loose := v'.loose, obj := v'.obj)
            && v'.obj.Keys == v.obj.Keys && (AllCarved(v) ==> AllCarved(v'))
            && !IsHeld(v, v.free) && forall o :: IsHeld(v', o) <==> IsHeld(v, o) || o == v.free
  {
    hide PoolCore;
    PopLooseCore(v, pg, m, mem);
  }

  lemma TakenHeld(v: Pool, v1: Pool, v2: Pool)
    requires SameHeld(v, v1) && v1.free != 0 && !IsHeld(v1, v1.free) && forall o :: IsHeld(v2, o) <==>
               IsHeld(v1, o) || o == v1.free
    ensures !IsHeld(v, v1.free) && forall o :: IsHeld(v2, o) <==> IsHeld(v, o) || o == v1.free
  {
    hide IsHeld;
  }

  lemma PushPlanLoose(v: Pool, pg: seq<Page>, m: map<nat, Span>, mem: map<nat, nat>, o: nat)
    requires PoolCore(v, pg, m, mem) && IsHeld(v, o)
    ensures o in v.obj
    ensures var v', mem' := PushLoose(v, o), mem[o := v.free];
            PoolCore(v', pg, m, mem')
            && v' == v.(free := o, freeCount := v.freeCount + 1, loose := v'.loose, obj := v'.obj)
            && v'.obj.Keys == v.obj.Keys && (AllCarved(v) ==> AllCarved(v'))
            && (forall x :: IsHeld(v', x) <==> IsHeld(v, x) && x != o)
            && Gentle(v.id, v.obj.Keys, pg, m, mem, pg, m, mem')
  {
    hide PoolCore, Gentle;
    PushLooseCore(v, pg, m, mem, o);
    GentleOwn(v.id, v.obj.Keys, pg, m, mem, pg, mem[o := v.free]);
  }

  lemma GivenHeld(v: Pool, v1: Pool, v2: Pool, o: nat)
    requires SameHeld(v1, v2) && forall x :: IsHeld(v1, x) <==> IsHeld(v, x) && x != o
    ensures forall x :: IsHeld(v2, x) <==> IsHeld(v, x) && x != o
  {
    hide IsHeld;
  }

  lemma TrimPlan(p: SmallPool)
    requires p.Valid() && p.free != 0
    ensures p.free / PAGE < p.cpu.pages.Length
    ensures p.free / PAGE >= p.cpu.pages[p.free / PAGE].offsetInSpan
    ensures Trimmable(p.View(), p.cpu.pages[..], p.cpu.spans, p.mem.next,
                      p.free / PAGE - p.cpu.pages[p.free / PAGE].offsetInSpan)
  {
    hide *;
    ValidOf(p);
    PartsOf(p);
    RepParts(p.cpu);
    NrIs(p.cpu);
    ViewIs(p);
    CapacityIs(p);
    PageIs();
    if p.cpu.nrPages == 0 { NoSpans(p.cpu.Abs()); }
    LoosePlan(p.View(), p.cpu.pages[..], p.cpu.spans, p.mem.next, p.cpu.nrPages);
  }

  lemma PageIs()
    ensures PAGE == 4096
  {
  }
}
