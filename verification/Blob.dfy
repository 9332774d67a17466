/** byte_blob: a window into a block together with a guard that keeps the block alive. */
module Blobs {
  import ChainModel
  import opened Guards

  /** size bytes at base. */
  datatype Window = Window(base: nat, size: nat)

  ghost predicate Inside(w: Window, e: Window) {
    e.base <= w.base && w.base + w.size <= e.base + e.size
  }

  ghost predicate Disjoint(v: Window, w: Window) {
    v.size == 0 || w.size == 0 || v.base + v.size <= w.base || w.base + w.size <= v.base
  }

  /** The bytes of a window, if it has any, lie in the block, if it has one. */
  ghost predicate InBlock(w: Window, b: nat, ext: map<nat, Window>) {
    w.size > 0 && b != 0 ==> b in ext && Inside(w, ext[b])
  }

  lemma PartInBlock(w: Window, v: Window, b: nat, ext: map<nat, Window>)
    requires InBlock(w, b, ext) && (v.size > 0 ==> w.size > 0 && Inside(v, w))
    ensures InBlock(v, b, ext)
  {
  }

  lemma PartIs(w: Window, offset: nat, size: nat)
    requires offset + size <= w.size
    ensures Inside(Window(w.base + offset, size), w)
  {
  }

  lemma BlockGiven(w: Window, b: nat, ext: map<nat, Window>, b0: nat, w0: Window)
    requires b != b0 && InBlock(w, b, ext)
    ensures InBlock(w, b, ext[b0 := w0])
  {
  }

  lemma Whole(w: Window, b: nat, ext: map<nat, Window>)
    ensures InBlock(w, 0, ext) && (w.size == 0 ==> InBlock(w, b, ext)) && InBlock(w, b, ext[b := w])
  {
  }

  lemma CutDisjoint(w: Window, offset: nat)
    ensures Window(0, 0).size == 0
    ensures Disjoint(w, Window(0, 0)) && Disjoint(Window(0, 0), w)
    ensures offset <= w.size ==> Disjoint(Window(w.base, offset), Window(w.base + offset, w.size - offset))
  {
  }

  /** The blobs there are and the blocks they keep alive, as a value. */
  datatype Holdings = Holdings(windows: map<nat, Window>, guards: map<nat, Ref>, owners: map<nat, Impl>,
                               given: multiset<nat>, released: multiset<nat>)

  /** Some blob keeps the block alive. */
  ghost predicate Held(s: Holdings, b: nat) {
    b != 0 && exists g: nat :: BlockOf(s.guards, s.owners, g) == b
  }

  /** Every block given out has been freed, or is held, once. */
  ghost predicate Balanced(s: Holdings) {
    forall b: nat :: s.given[b] == s.released[b] + if Held(s, b) then 1 else 0
  }

  /** The blobs at the addresses in gone have been destroyed, and no other has changed; a block has been
      freed, and once, just when it has lost its last blob. */
  ghost predicate GaveUp(s: Holdings, s': Holdings, gone: set<nat>) {
    && (forall a: nat :: a in s'.windows <==> a in s.windows && a !in gone)
    && (forall a: nat :: a in s'.windows ==> s'.windows[a] == s.windows[a])
    && (forall a: nat :: BlockOf(s'.guards, s'.owners, a) == if a in gone then 0 else BlockOf(s.guards, s.owners, a))
    && s'.given == s.given
    && forall b: nat :: s'.released[b] == s.released[b] + if Held(s, b) && !Held(s', b) then 1 else 0
  }

  ghost function Among(q: seq<nat>): set<nat> {
    set a | a in q
  }

  lemma GaveUpNone(s: Holdings)
    ensures GaveUp(s, s, {})
  {
    hide BlockOf;
  }

  /** One blob more. */
  lemma GaveUpMore(s: Holdings, s1: Holdings, s2: Holdings, q: seq<nat>, i: nat)
    requires i < |q| && GaveUp(s, s1, Among(q[..i])) && Balanced(s) && Balanced(s2) && s2.given == s1.given
    requires s2.windows == s1.windows - {q[i]} && BlockOf(s2.guards, s2.owners, q[i]) == 0
    requires forall h: nat :: h != q[i] ==> BlockOf(s2.guards, s2.owners, h) == BlockOf(s1.guards, s1.owners, h)
    ensures GaveUp(s, s2, Among(q[..i + 1]))
  {
    hide BlockOf;
    assert q[..i + 1] == q[..i] + [q[i]];
    forall b: nat
      ensures Held(s2, b) ==> Held(s, b)
    {
      if Held(s2, b) {
        var g: nat :| BlockOf(s2.guards, s2.owners, g) == b;
        assert BlockOf(s.guards, s.owners, g) == b;
      }
    }
  }

  /** All blobs there are, each with its guard, under its address. extent is where the blocks lie. */
  class BlobHeap {
    const heap: GuardHeap
    var windows: map<nat, Window>
    ghost var extent: map<nat, Window>

    constructor ()
      ensures Valid() && fresh(heap) && windows == map[] && extent == map[]
    {
      heap := new GuardHeap();
      windows := map[];
      extent := map[];
    }

    /** A blob that has been moved from keeps its window, but no block. */
    ghost predicate Dangling(a: nat)
      reads this, heap
    {
      a in windows && windows[a].size > 0 && heap.Block(a) == 0
    }

    ghost predicate Alive(a: nat)
      reads this, heap
    {
      a in windows ==> InBlock(windows[a], heap.Block(a), extent)
    }

    /** Every blob that has bytes, and does not dangle, keeps alive the block they lie in. */
    ghost predicate Valid()
      reads this, heap
    {
      heap.Valid() && windows.Keys == heap.guards.Keys && forall a :: a in windows ==> Alive(a)
    }

    /** A blob over a whole block just allocated. */
    method Make(a: nat, block: nat, base: nat, size: nat)
      requires Valid() && a !in windows && block != 0 && !Owned(heap.guards, heap.owners, block)
      modifies this, heap
      ensures Valid() && windows == old(windows)[a := Window(base, size)] && heap.Block(a) == block
      ensures heap.released == old(heap.released) && heap.given == old(heap.given) + multiset{block}
      ensures forall h :: h != a ==> heap.Block(h) == old(heap.Block(h))
    {
      hide Owned, Sound, Conserved, BlockOf, InBlock, Inside, Disjoint;
      ghost var b0 := block;
      BlocksAreOwned(heap, block);
      Whole(Window(base, size), b0, extent);
      forall x | x in windows ensures InBlock(windows[x], heap.Block(x), extent[b0 := Window(base, size)]) {
        assert Alive(x);
        BlockGiven(windows[x], heap.Block(x), extent, b0, Window(base, size));
      }
      heap.MakeSimple(a, block);
      windows := windows[a := Window(base, size)];
      extent := extent[b0 := Window(base, size)];
    }

    /** A blob of no bytes. */
    method MakeEmpty(r: nat)
      requires Valid() && r !in windows
      modifies this, heap
      ensures Valid() && windows == old(windows)[r := Window(0, 0)] && heap.Block(r) == 0
      ensures heap.released == old(heap.released) && heap.given == old(heap.given) && extent == old(extent)
      ensures forall h :: h != r ==> heap.Block(h) == old(heap.Block(h))
    {
      hide Owned, Sound, Conserved, BlockOf, InBlock, Inside;
      assert forall x :: x in windows ==> old(Alive(x));
      Whole(Window(0, 0), 0, extent);
      heap.MakeSimple(r, 0);
      windows := windows[r := Window(0, 0)];
      assert forall x :: x in windows && x != r ==> heap.Block(x) == old(heap.Block(x)) && old(Alive(x));
    }

    /** split in front of the window: r takes over the bytes and the guard. */
    method MoveWhole(a: nat, r: nat)
      requires Valid() && a in windows && r !in windows
      modifies this, heap
      ensures Valid() && windows == old(windows)[r := old(windows[a])][a := Window(0, 0)] && extent == old(extent)
      ensures heap.released == old(heap.released) && heap.given == old(heap.given)
      ensures heap.Block(r) == old(heap.Block(a)) && heap.Block(a) == 0
      ensures forall h :: h != a && h != r ==> heap.Block(h) == old(heap.Block(h))
    {
      hide Owned, Sound, Conserved, BlockOf, InBlock, Inside;
      assert forall x :: x in windows ==> old(Alive(x));
      assert Alive(a);
      Whole(Window(0, 0), 0, extent);
      heap.Move(a, r);
      windows := windows[r := windows[a]][a := Window(0, 0)];
      assert forall x :: x in windows && x != r && x != a ==> heap.Block(x) == old(heap.Block(x)) && old(Alive(x));
    }

    /** clone, and the copy constructor: i is the address for a counted owner, should one be needed. */
    method Clone(a: nat, r: nat, i: nat)
      requires Valid() && a in windows && r !in windows && i !in heap.owners
      modifies this, heap
      ensures Valid() && windows == old(windows)[r := old(windows[a])] && heap.Block(r) == old(heap.Block(a))
      ensures heap.released == old(heap.released) && heap.given == old(heap.given) && extent == old(extent)
      ensures forall h :: h != r ==> heap.Block(h) == old(heap.Block(h))
    {
      hide Owned, Sound, Conserved, BlockOf, InBlock, Inside, Disjoint;
      assert forall x :: x in windows ==> old(Alive(x));
      heap.Share(a, r, i);
      windows := windows[r := windows[a]];
      assert forall x :: x in windows && x != r ==> heap.Block(x) == old(heap.Block(x)) && old(Alive(x));
    }

    /** share: r becomes a blob of a part of a's bytes. */
    method Share(a: nat, r: nat, i: nat, offset: nat, length: nat)
      requires Valid() && a in windows && r !in windows && i !in heap.owners
      modifies this, heap
      ensures Valid() && heap.released == old(heap.released) && heap.given == old(heap.given) && extent == old(extent)
      ensures windows == old(windows)[r := if offset >= old(windows[a].size) || length == 0 then Window(0, 0)
                                           else Window(old(windows[a].base) + offset,
                                                       ChainModel.Min(length, old(windows[a].size) - offset))]
      ensures heap.Block(r) == if offset >= old(windows[a].size) || length == 0 then 0 else old(heap.Block(a))
      ensures forall h :: h != r ==> heap.Block(h) == old(heap.Block(h))
    {
      hide Owned, Sound, Conserved, BlockOf, InBlock, Inside, Disjoint;
      assert forall x :: x in windows ==> old(Alive(x));
      assert Alive(a);
      if offset >= windows[a].size || length == 0 {
        MakeEmpty(r);
      } else {
        var part := Window(windows[a].base + offset, ChainModel.Min(length, windows[a].size - offset));
        PartIs(windows[a], offset, part.size);
        PartInBlock(windows[a], part, heap.Block(a), extent);
        heap.Share(a, r, i);
        windows := windows[r := part];
      }
      assert forall x :: x in windows && x != r ==> heap.Block(x) == old(heap.Block(x)) && old(Alive(x));
    }

    /** split inside the window. */
    method Cut(a: nat, r: nat, i: nat, offset: nat)
      requires Valid() && a in windows && r !in windows && i !in heap.owners && 0 < offset < windows[a].size
      modifies this, heap
      ensures Valid() && heap.released == old(heap.released) && heap.given == old(heap.given) && extent == old(extent)
      ensures var w := old(windows[a]);
              windows == old(windows)[r := Window(w.base + offset, w.size - offset)][a := Window(w.base, offset)]
      ensures heap.Block(r) == heap.Block(a) == old(heap.Block(a))
      ensures forall x :: x != r ==> heap.Block(x) == old(heap.Block(x))
    {
      hide Owned, Sound, Conserved, BlockOf, InBlock, Inside, Disjoint;
      assert forall x :: x in windows ==> old(Alive(x));
      var w := windows[a];
      assert Alive(a);
      PartIs(w, 0, offset);
      PartIs(w, offset, w.size - offset);
      PartInBlock(w, Window(w.base, offset), heap.Block(a), extent);
      PartInBlock(w, Window(w.base + offset, w.size - offset), heap.Block(a), extent);
      heap.Share(a, r, i);
      windows := windows[r := Window(w.base + offset, w.size - offset)][a := Window(w.base, offset)];
      assert forall x :: x in windows && x != r && x != a ==> heap.Block(x) == old(heap.Block(x)) && old(Alive(x));
    }

    /** split: a keeps the first offset bytes, r gets the rest; all of them when offset is 0. */
    method Split(a: nat, r: nat, i: nat, offset: nat)
      requires Valid() && a in windows && r !in windows && i !in heap.owners
      modifies this, heap
      ensures Valid() && windows.Keys == old(windows.Keys) + {r} && heap.released == old(heap.released)
              && heap.given == old(heap.given)
      ensures extent == old(extent)
      ensures var w := old(windows[a]);
              if offset >= w.size then windows[a] == w && windows[r] == Window(0, 0)
              else if offset == 0 then windows[r] == w && windows[a] == Window(0, 0)
              && heap.Block(r) == old(heap.Block(a)) && heap.Block(a) == 0
              else windows[a] == Window(w.base, offset) && windows[r] == Window(w.base + offset, w.size - offset)
                   && heap.Block(r) == heap.Block(a) == old(heap.Block(a))
      ensures Disjoint(windows[a], windows[r]) && windows[a].size + windows[r].size == old(windows[a].size)
      ensures forall x :: x in old(windows) && x != a ==>
                windows[x] == old(windows)[x] && heap.Block(x) == old(heap.Block(x))
    {
      hide *;
      var w := windows[a];
      CutDisjoint(w, offset);
      if offset >= w.size {
        MakeEmpty(r);
      } else if offset == 0 {
        MoveWhole(a, r);
      } else {
        Cut(a, r, i, offset);
      }
    }

    /** ~byte_blob. */
    method Drop(a: nat)
      requires Valid() && a in windows
      modifies this, heap
      ensures Valid() && windows == old(windows) - {a} && heap.given == old(heap.given) && extent == old(extent)
      ensures heap.owners.Keys <= old(heap.owners.Keys)
      ensures forall h :: h != a ==> heap.Block(h) == old(heap.Block(h))
      ensures heap.Block(a) == 0
      ensures heap.released == if OnlyGuard(old(heap.guards), old(heap.owners), a)
                               then old(heap.released) + multiset{old(heap.Block(a))} else old(heap.released)
    {
      hide Owned, Sound, Conserved, BlockOf, OnlyGuard, InBlock, Inside;
      assert forall x :: x in windows ==> old(Alive(x));
      heap.Destroy(a);
      label L:
      windows := windows - {a};
      assert forall h :: heap.Block(h) == old@L(heap.Block(h));
      assert forall x :: x in windows ==> heap.Block(x) == old(heap.Block(x)) && old(Alive(x));
    }

    ghost function Now(): Holdings
      reads this, heap
    {
      Holdings(windows, heap.guards, heap.owners, heap.given, heap.released)
    }

    /** The blobs at the addresses in q are destroyed. */
    method DropAll(q: seq<nat>)
      requires Valid() && forall i :: 0 <= i < |q| ==> q[i] in windows
      requires forall i, j :: 0 <= i < j < |q| ==> q[i] != q[j]
      modifies this, heap
      ensures Valid() && extent == old(extent) && GaveUp(old(Now()), Now(), Among(q))
    {
      hide Owned, Sound, Conserved, BlockOf, OnlyGuard, InBlock, Inside, BlobHeap.Valid, GaveUp;
      ghost var was := Now();
      GaveUpNone(was);
      assert Among(q[..0]) == {};
      assert Balanced(was) by { Accounts(this); }
      var i := 0;
      while i < |q|
        invariant 0 <= i <= |q| && Valid() && extent == old(extent) && Balanced(was)
        invariant GaveUp(was, Now(), Among(q[..i]))
        invariant forall j :: i <= j < |q| ==> q[j] in windows
      {
        ghost var s1 := Now();
        label L:
        Drop(q[i]);
        Accounts(this);
        forall h: nat | h != q[i]
          ensures BlockOf(heap.guards, heap.owners, h) == BlockOf(s1.guards, s1.owners, h)
        {
          assert heap.Block(h) == old@L(heap.Block(h));
        }
        GaveUpMore(was, s1, Now(), q, i);
        i := i + 1;
      }
      assert q[..i] == q;
    }

    /** Copy assignment: what dst had is given up, then it becomes a copy of src; i as in Share. */
    method Assign(dst: nat, src: nat, i: nat)
      requires Valid() && dst in windows && src in windows && i !in heap.owners
      modifies this, heap
      ensures Valid() && windows.Keys == old(windows.Keys) && heap.given == old(heap.given) && extent == old(extent)
      ensures windows[dst] == old(windows[src]) && heap.Block(dst) == old(heap.Block(src))
      ensures forall x :: x in windows && x != dst ==> windows[x] == old(windows)[x]
      ensures forall x :: x != dst ==> heap.Block(x) == old(heap.Block(x))
      ensures heap.released == if dst != src && OnlyGuard(old(heap.guards), old(heap.owners), dst)
                               then old(heap.released) + multiset{old(heap.Block(dst))} else old(heap.released)
    {
      hide Owned, Sound, Conserved, BlockOf, OnlyGuard, InBlock, Inside;
      if dst == src {
        return;
      }
      Drop(dst);
      Clone(src, dst, i);
    }

    /** The move constructor, member by member: only the guard changes hands, so that a keeps its window
        and, unless that is empty, dangles. */
    method Move(a: nat, r: nat)
      requires Valid() && a in windows && r !in windows
      modifies this, heap
      ensures Valid() && windows == old(windows)[r := old(windows[a])] && extent == old(extent)
      ensures heap.released == old(heap.released) && heap.given == old(heap.given)
      ensures heap.Block(r) == old(heap.Block(a)) && heap.Block(a) == 0 && (Dangling(a) <==> old(windows[a]).size > 0)
      ensures forall h :: h != a && h != r ==> heap.Block(h) == old(heap.Block(h))
    {
      hide Owned, Sound, Conserved, BlockOf, InBlock, Inside, Disjoint;
      assert forall x :: x in windows ==> old(Alive(x));
      assert Alive(a);
      Whole(windows[a], 0, extent);
      heap.Move(a, r);
      windows := windows[r := windows[a]];
      assert forall x :: x in windows && x != r && x != a ==> heap.Block(x) == old(heap.Block(x)) && old(Alive(x));
    }

    /** Move assignment, member by member. */
    method MoveAssign(dst: nat, src: nat)
      requires Valid() && dst in windows && src in windows
      modifies this, heap
      ensures Valid() && windows == old(windows)[dst := old(windows[src])] && extent == old(extent)
              && heap.given == old(heap.given)
      ensures heap.Block(dst) == old(heap.Block(src)) && (dst != src ==> heap.Block(src) == 0)
      ensures forall h :: h != dst && h != src ==> heap.Block(h) == old(heap.Block(h))
      ensures heap.released == if dst != src && OnlyGuard(old(heap.guards), old(heap.owners), dst)
                               then old(heap.released) + multiset{old(heap.Block(dst))} else old(heap.released)
    {
      hide Owned, Sound, Conserved, BlockOf, OnlyGuard, InBlock, Inside;
      assert forall x :: x in windows ==> old(Alive(x));
      assert Alive(src);
      Whole(windows[src], 0, extent);
      heap.Assign(dst, src);
      windows := windows[dst := windows[src]];
      assert forall x :: x in windows && x != dst && x != src ==> heap.Block(x) == old(heap.Block(x)) && old(Alive(x));
    }
  }

  lemma Accounts(h: BlobHeap)
    requires h.Valid()
    ensures Balanced(h.Now())
  {
    hide Sound, Owned, BlockOf;
    forall b: nat
      ensures Owned(h.heap.guards, h.heap.owners, b) <==> Held(h.Now(), b)
    {
      if b != 0 { OwnedIsHeld(h.heap.guards, h.heap.owners, b); } else { NullNotOwned(h.heap.guards, h.heap.owners); }
    }
  }

  lemma NullNotOwned(gs: map<nat, Ref>, os: map<nat, Impl>)
    requires Sound(gs, os)
    ensures !Owned(gs, os, 0)
  {
  }

  /** In every state the operations reach: the bytes of a blob are in a block that has been given out and
      not been freed, unless the blob dangles. */
  lemma BytesAlive(h: BlobHeap, a: nat)
    requires h.Valid() && a in h.windows && h.windows[a].size > 0 && !h.Dangling(a)
    ensures var b := h.heap.Block(a);
            b != 0 && b in h.extent && Inside(h.windows[a], h.extent[b]) && h.heap.given[b] == h.heap.released[b] + 1
  {
    hide Sound, Owned, BlockOf;
    assert h.Alive(a);
    OwnedIsHeld(h.heap.guards, h.heap.owners, h.heap.Block(a));
    assert BlockOf(h.heap.guards, h.heap.owners, a) == h.heap.Block(a);
  }
}
