/** The buffer with the blobs its fragments hold: fragments that leave it give up their blobs, so that
    every fragment's bytes lie in a block that is alive, and a block is freed with the last of its blobs. */
module OwnedChains {
  import opened ChainModel
  import opened Chain
  import opened Blobs
  import opened Guards

  class OwnedBuffer {
    const buf: Buffer
    const heap: BlobHeap
    /** Where the blob of each fragment is. */
    var blobs: map<Fragment, nat>

    constructor (buf: Buffer, heap: BlobHeap, blobs: map<Fragment, nat>)
      requires buf.Valid() && heap.Valid() && blobs.Keys == FragmentSet(buf.fragments) && Apart(blobs)
      requires forall f :: f in blobs ==> Owns(heap.Now(), f, blobs[f])
      ensures Valid() && this.buf == buf && this.heap == heap && this.blobs == blobs
    {
      hide *;
      this.buf := buf;
      this.heap := heap;
      this.blobs := blobs;
      new;
      ValidFrom(this);
    }

    /** Every fragment of the buffer, and no other, has a blob, its own: its window. */
    ghost predicate Valid()
      reads this, buf, buf.fragments, heap, heap.heap
    {
      && buf.Valid() && heap.Valid()
      && blobs.Keys == FragmentSet(buf.fragments) && Apart(blobs)
      && forall f :: f in buf.fragments ==> Owns(heap.Now(), f, blobs[f])
    }

    /** skip_bytes: the fragments passed and freed give up their blobs. */
    method SkipBytes(sz: nat, free: bool)
      requires Valid()
      modifies this`blobs, buf, buf.fragments, heap, heap.heap
      ensures Valid() && blobs == Staying(old(blobs), buf.fragments)
      ensures |old(buf.Content())| == old(buf.size) && buf.Content() == old(buf.Content())[Min(sz, old(buf.size))..]
      ensures !free ==> buf.fragments == old(buf.fragments)
      ensures GaveUp(old(heap.Now()), heap.Now(), Gone(old(blobs), buf.fragments))
    {
      hide Buffer.Content, Buffer.Valid, BlobHeap.Valid, FragmentSet, Apart, Holds, Gone, Staying, GaveUp, BlockOf,
           Distinct;
      var was := buf.fragments;
      FragmentsApart(buf);
      Members(was);
      buf.SkipBytes(sz, free);
      forall f | f in was
        ensures Owns(heap.Now(), f, blobs[f])
      {
        assert old(Owns(heap.Now(), f, blobs[f]));
      }
      StillIn(was, buf.fragments);
      Reap(was);
    }

    /** ignore_bytes_at_end, likewise. */
    method IgnoreBytesAtEnd(sz: nat, free: bool)
      requires Valid()
      modifies this`blobs, buf, buf.fragments, heap, heap.heap
      ensures Valid() && blobs == Staying(old(blobs), buf.fragments)
      ensures GaveUp(old(heap.Now()), heap.Now(), Gone(old(blobs), buf.fragments))
      ensures |old(buf.Content())| == old(buf.size)
              && buf.Content() == old(buf.Content())[..old(buf.size) - Min(sz, old(buf.size))]
      ensures !free ==> buf.fragments == old(buf.fragments)
    {
      hide Buffer.Content, Buffer.Valid, BlobHeap.Valid, FragmentSet, Apart, Holds, Gone, Staying, GaveUp, BlockOf,
           Distinct;
      var was := buf.fragments;
      FragmentsApart(buf);
      Members(was);
      buf.IgnoreBytesAtEnd(sz, free);
      forall f | f in was
        ensures Owns(heap.Now(), f, blobs[f])
      {
        assert old(Owns(heap.Now(), f, blobs[f]));
      }
      StillIn(was, buf.fragments);
      Reap(was);
    }

    /** coalesce: the fragments copied give up their blobs. a is where the blob of the spare fragment is,
        which the buffer takes over when it takes the fragment. */
    method Coalesce(offset: nat, length: nat, spare: Fragment, a: nat) returns (n: nat)
      requires Valid() && buf.CanCoalesce(offset, length, spare)
      requires Owns(heap.Now(), spare, a) && forall f :: f in blobs ==> blobs[f] != a
      modifies this`blobs, buf, buf.fragments, spare, buf.mem, heap, heap.heap
      ensures Valid() && buf.Content() == old(buf.Content()) && buf.size == old(buf.size)
      ensures offset < buf.size && length > 0 ==>
                n == if Contiguous(old(ViewsOf(buf.fragments)), offset, Min(length, buf.size - offset)) then buf.size
                else Min(length, buf.size - offset)
      ensures blobs == Staying(old(blobs)[spare := a], buf.fragments)
      ensures GaveUp(old(heap.Now()), heap.Now(),
                     Gone(if spare in buf.fragments then old(blobs)[spare := a] else old(blobs), buf.fragments))
    {
      hide Buffer.Content, Buffer.Valid, BlobHeap.Valid, FragmentSet, Apart, Holds, Gone, Staying, GaveUp, BlockOf,
           Distinct, Wraps, Tailroom, AllApart, FragOk, Contiguous;
      var was := buf.fragments;
      FragmentsApart(buf);
      Members(was);
      n := buf.Coalesce(offset, length, spare);
      forall f | f in was
        ensures Owns(heap.Now(), f, blobs[f])
      {
        assert old(Owns(heap.Now(), f, blobs[f]));
      }
      Settle(was, spare, a);
    }

    /** The spare fragment's blob is the buffer's if the fragment is; what has left is deleted. */
    method Settle(was: seq<Fragment>, spare: Fragment, a: nat)
      requires buf.Valid() && heap.Valid() && Distinct(was) && blobs.Keys == FragmentSet(was) && Apart(blobs)
      requires (forall f :: f in was ==> Owns(heap.Now(), f, blobs[f])) && spare !in was
      requires Owns(heap.Now(), spare, a) && forall f :: f in blobs ==> blobs[f] != a
      requires forall f :: f in buf.fragments ==> f in was || f == spare
      modifies this`blobs, heap, heap.heap
      ensures Valid() && blobs == Staying(old(blobs)[spare := a], buf.fragments)
      ensures GaveUp(old(heap.Now()), heap.Now(),
                     Gone(if spare in buf.fragments then old(blobs)[spare := a] else old(blobs), buf.fragments))
    {
      hide Buffer.Valid, BlobHeap.Valid, FragmentSet, Apart, Owns, Gone, Staying, GaveUp, Distinct;
      Members(was);
      if spare in buf.fragments {
        WithSpare(blobs, was, spare, a);
        blobs := blobs[spare := a];
        Reap(was + [spare]);
      } else {
        WithoutSpare(blobs, buf.fragments, spare, a);
        Reap(was);
      }
    }

    /** ~buffer: every block of which it had the last share is freed. */
    method Dispose()
      requires Valid()
      modifies this`blobs, buf, heap, heap.heap
      ensures Valid() && buf.fragments == [] && blobs == map[]
      ensures GaveUp(old(heap.Now()), heap.Now(), Gone(old(blobs), buf.fragments))
    {
      var was := buf.fragments;
      buf.fragments, buf.size := [], 0;
      Reap(was);
    }

    /** The fragments of was that have left the buffer are deleted. */
    method Reap(was: seq<Fragment>)
      requires buf.Valid() && heap.Valid() && Distinct(was) && blobs.Keys == FragmentSet(was) && Apart(blobs)
      requires (forall f :: f in was ==> Owns(heap.Now(), f, blobs[f])) && forall f :: f in buf.fragments ==> f in was
      modifies this`blobs, heap, heap.heap
      ensures Valid() && blobs == Staying(old(blobs), buf.fragments)
      ensures GaveUp(old(heap.Now()), heap.Now(), Gone(old(blobs), buf.fragments))
    {
      hide Buffer.Valid, BlobHeap.Valid, Distinct, FragmentSet, Apart, Owns, Leaving, Gone, Staying, GaveUp;
      ghost var bs, now, s := blobs, buf.fragments, heap.Now();
      var q: seq<nat> := [];
      ghost var l: seq<Fragment> := [];
      var i := 0;
      LeavingNone(bs, was, now);
      while i < |was|
        invariant 0 <= i <= |was| && Leaving(bs, was, now, i, l, q)
        modifies {}
      {
        InSet(was, i);
        LeavingMore(bs, was, now, i, l, q);
        if was[i] !in buf.fragments {
          q := q + [blobs[was[i]]];
          l := l + [was[i]];
        }
        i := i + 1;
      }
      LeavingAll(heap.Now(), bs, was, now, l, q);
      heap.DropAll(q);
      blobs := Staying(blobs, buf.fragments);
      forall f | f in blobs
        ensures Owns(heap.Now(), f, blobs[f])
      {
        Stays(bs, was, now, f);
        OwnsKept(s, heap.Now(), f, bs[f], Gone(bs, now));
      }
      StayingApart(bs, was, now);
      ValidFrom(this);
    }
  }

  ghost function FragmentSet(fs: seq<Fragment>): set<Fragment> {
    set f | f in fs
  }

  ghost predicate Apart(blobs: map<Fragment, nat>) {
    forall f, g :: f in blobs && g in blobs && f != g ==> blobs[f] != blobs[g]
  }

  /** A blob at a with a share of block b, 0 for none, is the one a fragment with this window has. */
  ghost predicate Holds(ws: map<nat, Window>, base: nat, cap: nat, a: nat, b: nat) {
    a in ws && if cap > 0 then ws[a] == Window(base, cap) && b != 0 else b == 0
  }

  ghost predicate Owns(s: Holdings, f: Fragment, a: nat)
    reads f
  {
    Holds(s.windows, f.base, f.cap, a, BlockOf(s.guards, s.owners, a))
  }

  function Staying(blobs: map<Fragment, nat>, now: seq<Fragment>): map<Fragment, nat> {
    map f | f in blobs && f in now :: blobs[f]
  }

  /** The blobs of the fragments that are not in the buffer any more. */
  ghost function Gone(blobs: map<Fragment, nat>, now: seq<Fragment>): set<nat> {
    set f | f in blobs && f !in now :: blobs[f]
  }

  lemma ValidFrom(o: OwnedBuffer)
    requires o.buf.Valid() && o.heap.Valid() && o.blobs.Keys == FragmentSet(o.buf.fragments) && Apart(o.blobs)
    requires forall f :: f in o.blobs ==> Owns(o.heap.Now(), f, o.blobs[f])
    ensures o.Valid()
  {
    hide Buffer.Valid, BlobHeap.Valid, Apart, Owns;
    assert forall f :: f in o.buf.fragments ==> f in FragmentSet(o.buf.fragments);
  }

  lemma FragmentsApart(b: Buffer)
    requires b.Valid()
    ensures Distinct(b.fragments)
  {
  }

  lemma Members(fs: seq<Fragment>)
    ensures forall f :: f in fs <==> f in FragmentSet(fs)
  {
  }

  lemma InSet(fs: seq<Fragment>, i: nat)
    requires i < |fs|
    ensures fs[i] in FragmentSet(fs)
  {
  }

  /** A part of a list from one end. */
  lemma StillIn(was: seq<Fragment>, now: seq<Fragment>)
    ensures |now| <= |was| && now == was[|was| - |now|..] ==> forall f :: f in now ==> f in was
    ensures |now| <= |was| && now == was[..|now|] ==> forall f :: f in now ==> f in was
  {
  }

  lemma WithSpare(bs: map<Fragment, nat>, was: seq<Fragment>, spare: Fragment, a: nat)
    requires bs.Keys == FragmentSet(was) && Apart(bs) && spare !in was && forall f :: f in bs ==> bs[f] != a
    requires Distinct(was)
    ensures bs[spare := a].Keys == FragmentSet(was + [spare]) && Apart(bs[spare := a]) && Distinct(was + [spare])
  {
  }

  lemma WithoutSpare(bs: map<Fragment, nat>, now: seq<Fragment>, spare: Fragment, a: nat)
    requires spare !in now
    ensures Staying(bs[spare := a], now) == Staying(bs, now)
  {
  }

  /** In every state the operations reach: the window of a fragment lies in a block that has been given
      out and not been freed. */
  lemma FragmentAlive(o: OwnedBuffer, f: Fragment)
    requires o.Valid() && f in o.buf.fragments && f.cap > 0
    ensures var b := o.heap.heap.Block(o.blobs[f]);
            b != 0 && b in o.heap.extent && Inside(Window(f.base, f.cap), o.heap.extent[b])
            && o.heap.heap.given[b] == o.heap.heap.released[b] + 1
  {
    hide Buffer.Valid, BlobHeap.Valid, Inside, BlockOf;
    assert Owns(o.heap.Now(), f, o.blobs[f]);
    BytesAlive(o.heap, o.blobs[f]);
  }

  // ---------------------------------------------------------------- who leaves

  /** l are those of the first i fragments of was that are not in now, and q is where their blobs are. */
  ghost predicate Leaving(bs: map<Fragment, nat>, was: seq<Fragment>, now: seq<Fragment>, i: nat, l: seq<Fragment>,
                          q: seq<nat>)
    requires i <= |was|
  {
    && |l| == |q| && Distinct(l)
    && (forall j :: 0 <= j < |l| ==> l[j] in bs && q[j] == bs[l[j]] && l[j] !in now && l[j] in was[..i])
    && forall k :: 0 <= k < i && was[k] !in now ==> was[k] in l
  }

  lemma LeavingNone(bs: map<Fragment, nat>, was: seq<Fragment>, now: seq<Fragment>)
    ensures Leaving(bs, was, now, 0, [], [])
  {
  }

  lemma LeavingMore(bs: map<Fragment, nat>, was: seq<Fragment>, now: seq<Fragment>, i: nat, l: seq<Fragment>,
                    q: seq<nat>)
    requires i < |was| && Leaving(bs, was, now, i, l, q) && Distinct(was) && was[i] in bs
    ensures was[i] in now ==> Leaving(bs, was, now, i + 1, l, q)
    ensures was[i] !in now ==> Leaving(bs, was, now, i + 1, l + [was[i]], q + [bs[was[i]]])
  {
    assert was[..i + 1] == was[..i] + [was[i]];
    assert was[i] !in was[..i];
  }

  lemma LeavingAll(s: Holdings, bs: map<Fragment, nat>, was: seq<Fragment>, now: seq<Fragment>, l: seq<Fragment>,
                   q: seq<nat>)
    requires Leaving(bs, was, now, |was|, l, q) && bs.Keys == FragmentSet(was) && Apart(bs)
    requires forall f :: f in was ==> Owns(s, f, bs[f])
    ensures forall i :: 0 <= i < |q| ==> q[i] in s.windows
    ensures forall i, j :: 0 <= i < j < |q| ==> q[i] != q[j]
    ensures Among(q) == Gone(bs, now)
  {
    assert was[..|was|] == was;
    forall a: nat | a in Gone(bs, now)
      ensures a in q
    {
      var f :| f in bs && f !in now && bs[f] == a;
      assert f in was;
      var j :| 0 <= j < |l| && l[j] == f;
      assert q[j] == a;
    }
  }

  /** A fragment that stays has its blob, which is none of those that go. */
  lemma Stays(bs: map<Fragment, nat>, was: seq<Fragment>, now: seq<Fragment>, f: Fragment)
    requires bs.Keys == FragmentSet(was) && Apart(bs) && f in Staying(bs, now)
    ensures f in was && f in bs && Staying(bs, now)[f] == bs[f] && bs[f] !in Gone(bs, now)
  {
    assert f in FragmentSet(was);
  }

  lemma StayingApart(bs: map<Fragment, nat>, was: seq<Fragment>, now: seq<Fragment>)
    requires bs.Keys == FragmentSet(was) && Apart(bs) && forall f :: f in now ==> f in was
    ensures Apart(Staying(bs, now)) && Staying(bs, now).Keys == FragmentSet(now)
  {
  }

  lemma OwnsKept(s: Holdings, s': Holdings, f: Fragment, a: nat, gone: set<nat>)
    requires Owns(s, f, a) && GaveUp(s, s', gone) && a !in gone
    ensures Owns(s', f, a)
  {
    hide BlockOf;
  }
}
