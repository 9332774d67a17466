/** Fragments and buffers as the objects they are: a buffer is a list of fragments whose fields its
    methods change, each a window into shared memory. Every method is proved to do to the flat
    content what its name says, for any fragmentation. */
module Chain {
  import opened ChainModel

  class Fragment {
    const mem: array<u8>
    /** The blob. */
    var base: nat
    var cap: nat
    /** The data. */
    var head: nat
    var size: nat

    ghost function View(): Frag
      reads this
    {
      Frag(base, cap, head, size)
    }

    ghost predicate Ok()
      reads this
    {
      FragOk(View(), mem.Length)
    }

    constructor (mem: array<u8>, base: nat, cap: nat)
      requires base + cap <= mem.Length
      ensures this.mem == mem && Ok() && size == 0
      ensures View() == if cap == 0 then Frag(0, 0, 0, 0) else Frag(base, cap, base, 0)
    {
      this.mem := mem;
      this.base, this.cap, this.head, this.size := if cap == 0 then 0 else base, cap, if cap == 0 then 0 else base, 0;
    }

    method Write(r: seq<u8>) returns (n: nat)
      requires Ok()
      modifies this`size, mem
      ensures n == Min(|r|, old(base + cap - (head + size))) && Ok()
      ensures View() == old(View()).(size := old(size) + n)
      ensures mem[..] == Splice(old(mem[..]), old(head + size), r[..n])
    {
      hide Splice;
      n := Min(|r|, base + cap - (head + size));
      var tail := head + size;
      forall i | 0 <= i < n {
        mem[tail + i] := r[i];
      }
      SpliceIs(old(mem[..]), tail, r[..n], mem[..]);
      size := size + n;
    }

    /** Copies to dest, from index from on. */
    method Read(dest: array<u8>, from: nat, offset: nat) returns (n: nat)
      requires Ok() && dest != mem && from <= dest.Length
      modifies dest
      ensures n == if offset >= size then 0 else Min(dest.Length - from, size - offset)
      ensures dest[..] == Splice(old(dest[..]), from,
                                 if offset >= size then [] else Data(mem[..], View())[offset..offset + n])
    {
      hide Splice, Data;
      if offset >= size {
        SpliceNone(dest[..], from);
        return 0;
      }
      n := Min(dest.Length - from, size - offset);
      forall i | 0 <= i < n {
        dest[from + i] := mem[head + offset + i];
      }
      DataSlice(mem[..], View(), offset, n);
      ghost var bytes := Data(mem[..], View())[offset..offset + n];
      SpliceIs(old(dest[..]), from, bytes, dest[..]);
    }

    /** clone: another fragment over the same bytes. */
    method Clone() returns (f: Fragment)
      requires Ok()
      ensures fresh(f) && f.mem == mem && f.View() == View()
    {
      f := new Fragment(mem, base, cap);
      f.head := head;
      f.size := size;
    }

    method SkipBytes(len: nat) returns (n: nat)
      requires Ok()
      modifies this`head, this`size
      ensures n == Min(old(size), len) && View() == SkipFrag(old(View()), len)
      ensures head + size == old(head + size) && size == old(size) - n
    {
      n := Min(size, len);
      head := head + n;
      size := size - n;
      if cap == 0 {
        head, size := 0, 0;
      }
    }

    method IgnoreBytesAtEnd(len: nat) returns (n: nat)
      modifies this`size
      ensures n == Min(len, old(size)) && View() == DropFrag(old(View()), len)
      ensures size == old(size) - n
    {
      n := Min(len, size);
      size := size - n;
    }

    /** The bytes behind the first sz leave as a fragment of their own. At 0 and without headroom the
        whole blob moves over, but not the size: only then, bytes are lost. */
    method Split(sz: nat) returns (r: Fragment?)
      requires Ok()
      modifies this
      ensures sz >= old(size) <==> r == null
      ensures r == null ==> View() == old(View())
      ensures r != null ==> fresh(r) && r.mem == mem && r.Ok() && Ok()
      ensures r != null && (sz > 0 || old(head) > old(base)) ==>
                r.View() == BackOf(old(View()), sz) && View() == FrontOf(old(View()), sz)
      ensures r != null && (sz > 0 || old(head) > old(base)) ==>
                base == old(base) && head == old(head) && size == sz && base + cap == head + size
                && r.base == base + cap && r.base + r.cap == old(base + cap) && r.head == r.base
                && r.size == old(size) - sz
      ensures r != null && sz == 0 && old(head) == old(base) ==>
                r.View() == Frag(old(base), old(cap), old(base), 0) && View() == Frag(0, 0, 0, 0)
      ensures r != null ==> (size + r.size == old(size) <==> sz > 0 || old(head) > old(base))
    {
      if sz >= size {
        return null;
      }
      var headroom := head - base;
      if sz == 0 && headroom == 0 {
        r := new Fragment(mem, base, cap);
        base, cap, head, size := 0, 0, 0, 0;
        return;
      }
      var splitPoint := sz + headroom;
      var back := new Fragment(mem, base + splitPoint, cap - splitPoint);
      cap := splitPoint;
      back.size := size - sz;
      head := base + headroom;
      size := cap - headroom;
      r := back;
    }
  }

  // ---------------------------------------------------------------- lists of fragments

  ghost function ViewsOf(fs: seq<Fragment>): (r: seq<Frag>)
    reads fs
    ensures |r| == |fs| && forall i :: 0 <= i < |fs| ==> r[i] == fs[i].View()
  {
    seq(|fs|, i requires 0 <= i < |fs| reads fs => fs[i].View())
  }

  ghost predicate Distinct(fs: seq<Fragment>) {
    forall i, j :: 0 <= i < j < |fs| ==> fs[i] != fs[j]
  }

  lemma DistinctJoin(a: seq<Fragment>, b: seq<Fragment>)
    requires Distinct(a) && Distinct(b) && forall f :: f in b ==> f !in a
    ensures Distinct(a + b)
  {
    var c := a + b;
    forall i, j | 0 <= i < j < |c| ensures c[i] != c[j] {
      if i < |a| && j >= |a| { assert c[i] in a && c[j] in b; }
    }
  }

  ghost predicate InMemory(fs: seq<Fragment>, mem: array<u8>) {
    forall i :: 0 <= i < |fs| ==> fs[i].mem == mem
  }

  lemma DistinctCut(fs: seq<Fragment>, p: nat, j: nat, mem: array<u8>)
    requires Distinct(fs) && InMemory(fs, mem) && p < j <= |fs|
    ensures var gs := fs[..p + 1] + fs[j..];
            Distinct(gs) && InMemory(gs, mem) && gs[p] == fs[p] && forall k :: 0 <= k < |gs| ==> gs[k] in fs
  {
  }

  lemma ViewsCut(fs: seq<Fragment>, ws: seq<Frag>, p: nat, j: nat, w: Frag)
    requires p < j <= |fs| == |ws| && ViewsOf(fs) == ws[p := w]
    ensures ViewsOf(fs[..p + 1] + fs[j..]) == ws[..p] + [w] + ws[j..]
  {
    var vs, gs := ViewsOf(fs), fs[..p + 1] + fs[j..];
    forall i | 0 <= i < |gs| ensures ViewsOf(gs)[i] == (ws[..p] + [w] + ws[j..])[i] {
      assert gs[i] == if i <= p then fs[i] else fs[i - p - 1 + j];
      assert vs[if i <= p then i else i - p - 1 + j] == gs[i].View();
    }
  }

  lemma DistinctPart(fs: seq<Fragment>, i: nat, j: nat, mem: array<u8>)
    requires Distinct(fs) && InMemory(fs, mem) && i <= j <= |fs|
    ensures Distinct(fs[i..j]) && InMemory(fs[i..j], mem) && fs[0..j] == fs[..j] && fs[i..|fs|] == fs[i..]
  {
  }

  lemma DistinctInsert(fs: seq<Fragment>, k: nat, f: Fragment, mem: array<u8>)
    requires Distinct(fs) && InMemory(fs, mem) && f !in fs && f.mem == mem && k <= |fs|
    ensures var gs := fs[..k] + [f] + fs[k..];
            Distinct(gs) && InMemory(gs, mem) && forall i :: 0 <= i < |gs| ==> gs[i] in fs || gs[i] == f
  {
    var gs := fs[..k] + [f] + fs[k..];
    forall i | 0 <= i < |gs| ensures gs[i] == if i < k then fs[i] else if i == k then f else fs[i - 1] { }
  }

  /** skip_offset. */
  method SkipOffset(fs: seq<Fragment>, offset: nat) returns (k: nat, rem: nat)
    ensures CursorAt(ViewsOf(fs), offset, k, rem)
  {
    k, rem := 0, offset;
    ghost var vs := ViewsOf(fs);
    while k < |fs| && rem >= fs[k].size
      invariant k <= |fs| && offset == Total(vs[..k]) + rem
    {
      TotalAt(vs, k);
      rem := rem - fs[k].size;
      k := k + 1;
    }
  }

  /** skip_offset over reverse iterators; k is the base of the one it stops at. */
  method SkipOffsetBack(fs: seq<Fragment>, offset: nat) returns (k: nat, rem: nat)
    ensures CursorBack(ViewsOf(fs), offset, k, rem)
  {
    k, rem := |fs|, offset;
    ghost var vs := ViewsOf(fs);
    assert vs[k..] == [];
    while k > 0 && rem >= fs[k - 1].size
      invariant k <= |fs| && offset == Total(vs[k..]) + rem
    {
      assert vs[k - 1..][0] == vs[k - 1] && vs[k - 1..][1..] == vs[k..];
      rem := rem - fs[k - 1].size;
      k := k - 1;
    }
  }

  // ---------------------------------------------------------------- buffers

  class Buffer {
    const mem: array<u8>
    var fragments: seq<Fragment>
    var size: nat

    ghost predicate Valid()
      reads this, fragments
    {
      && Distinct(fragments) && InMemory(fragments, mem)
      && FragsOk(ViewsOf(fragments), mem.Length) && Unaliased(ViewsOf(fragments))
      && size == Total(ViewsOf(fragments))
    }

    /** The bytes of the buffer. */
    ghost function Content(): seq<u8>
      reads this, fragments, mem
    {
      Flat(mem[..], ViewsOf(fragments))
    }

    constructor (mem: array<u8>, fragments: seq<Fragment>, size: nat)
      ensures this.mem == mem && this.fragments == fragments && this.size == size
    {
      this.mem := mem;
      this.fragments := fragments;
      this.size := size;
    }

    method SplitAt(k: nat, rem: nat) returns (node: Fragment)
      requires Distinct(fragments) && InMemory(fragments, mem) && k < |fragments|
      requires FragOk(ViewsOf(fragments)[k], mem.Length) && 0 < rem < fragments[k].size
      modifies fragments[k]
      ensures fresh(node) && node.mem == mem && node !in fragments
      ensures node.View() == BackOf(old(ViewsOf(fragments))[k], rem)
      ensures ViewsOf(fragments) == old(ViewsOf(fragments))[k := FrontOf(old(ViewsOf(fragments))[k], rem)]
    {
      hide FragOk, FrontOf, BackOf;
      node := fragments[k].Split(rem);
    }

    /** Cut fragment k in two at rem. */
    method CutFragment(k: nat, rem: nat)
      requires Valid() && k < |fragments| && 0 < rem < fragments[k].size
      modifies this`fragments, fragments
      ensures Valid() && size == old(size) && Content() == old(Content())
              && fresh(set f | f in fragments && f !in old(fragments))
      ensures |fragments| == old(|fragments|) + 1
      ensures Total(ViewsOf(fragments)[..k + 1]) == Total(old(ViewsOf(fragments))[..k]) + rem
      ensures EndRoom(ViewsOf(fragments)) == old(EndRoom(ViewsOf(fragments)))
              && FrontEdge(ViewsOf(fragments)) == old(FrontEdge(ViewsOf(fragments)))
    {
      hide Flat, Total, FragsOk, Unaliased, FrontOf, BackOf, Distinct, InMemory, EndRoom, FrontEdge;
      ghost var vs := ViewsOf(fragments);
      OkAt(vs, mem.Length, k);
      SplitFlat(mem[..], vs, k, rem);
      SplitTotal(vs, k, rem);
      CutEnds(vs, mem.Length, k, rem);
      var node := SplitAt(k, rem);
      DistinctInsert(fragments, k + 1, node, mem);
      fragments := fragments[..k + 1] + [node] + fragments[k + 1..];
      assert ViewsOf(fragments) == vs[..k] + [FrontOf(vs[k], rem), BackOf(vs[k], rem)] + vs[k + 1..];
    }

    /** The first k fragments leave as a buffer of their own. */
    method TakeFront(k: nat, sz: nat) returns (r: Buffer)
      requires Valid() && k <= |fragments| && sz == Total(ViewsOf(fragments)[..k])
      modifies this
      ensures Valid() && fresh(r) && r.mem == mem && r.Valid() && r.Content() + Content() == old(Content())
      ensures r.size == sz && r.size + size == old(size)
      ensures AllApart(ViewsOf(r.fragments), ViewsOf(fragments))
      ensures fragments == old(fragments)[k..] && r.fragments == old(fragments)[..k]
      ensures ViewsOf(r.fragments) == old(ViewsOf(fragments))[..k] && ViewsOf(fragments) == old(ViewsOf(fragments))[k..]
    {
      hide Flat, Total, FragsOk, Unaliased, AllApart;
      ghost var ws := ViewsOf(fragments);
      CutChain(mem[..], ws, k);
      EmptyChain(mem[..], mem.Length);
      assert ws[..0] == [];
      PrefixTotal(ws, 0);
      var i := 0;
      while i < k
        invariant 0 <= i <= k && size == Total(ws) - Total(ws[..i])
        modifies this`size
      {
        TotalAt(ws, i);
        PrefixTotal(ws, i + 1);
        size := size - fragments[i].size;
        i := i + 1;
      }
      r := new Buffer(mem, fragments[..k], sz);
      fragments := fragments[k..];
      assert ViewsOf(r.fragments) == ws[..k] && ViewsOf(fragments) == ws[k..];
    }

    /** All of them leave. */
    method TakeAll() returns (r: Buffer)
      requires Valid()
      modifies this
      ensures Valid() && fresh(r) && r.mem == mem && r.Valid() && r.Content() == old(Content())
      ensures r.size == old(size) && size == 0 && fragments == [] && r.fragments == old(fragments)
      ensures Content() == [] && AllApart(ViewsOf(r.fragments), ViewsOf(fragments))
    {
      hide Flat, Total, FragsOk, Unaliased, AllApart;
      var oldSize := size;
      size := 0;
      r := new Buffer(mem, fragments, oldSize);
      fragments := [];
      EmptyChain(mem[..], mem.Length);
      ApartNone(ViewsOf(r.fragments));
      assert ViewsOf(fragments) == [];
    }

    /** split: the first sz bytes, or all there are, leave as a buffer of their own; null when
        there is nothing to split or nothing asked for. */
    method Split(sz: nat) returns (r: Buffer?)
      requires Valid()
      modifies this, fragments
      ensures Valid() && mem[..] == old(mem[..])
      ensures r == null <==> old(fragments) == [] || sz == 0
      ensures r == null ==> Content() == old(Content()) && fragments == old(fragments)
      ensures r != null ==> fresh(r) && r.mem == mem && r.Valid() && r.Content() + Content() == old(Content())
      ensures r != null ==> r.size == Min(sz, old(size)) && size == old(size) - r.size
      ensures r != null ==> AllApart(ViewsOf(r.fragments), ViewsOf(fragments))
      ensures r != null ==> r.fragments != [] && FrontEdge(ViewsOf(r.fragments)) == old(FrontEdge(ViewsOf(fragments)))
      ensures r != null && fragments != [] ==> EndRoom(ViewsOf(fragments)) == old(EndRoom(ViewsOf(fragments)))
      ensures r != null && fragments == [] ==> EndRoom(ViewsOf(r.fragments)) == old(EndRoom(ViewsOf(fragments)))
    {
      hide Flat, Total, FragsOk, Unaliased, AllApart, EndRoom, FrontEdge, Distinct, InMemory;
      if fragments == [] || sz == 0 {
        return null;
      }
      ghost var vs := ViewsOf(fragments);
      if size < sz {
        r := TakeAll();
        return;
      }
      var k, rem := SkipOffset(fragments, sz);
      CursorInside(vs, sz, k, rem);
      assert vs[..|vs|] == vs;
      if rem > 0 {
        CutFragment(k, rem);
        k := k + 1;
      }
      ghost var ws := ViewsOf(fragments);
      assert k == |ws| ==> ws[..k] == ws;
      PartEnds(ws, k);
      r := TakeFront(k, sz);
    }

    /** push_back and push_front of a buffer, whose fragments move over. */
    method PushBack(p: Buffer)
      requires Valid() && p.Valid() && p != this && p.mem == mem && AllApart(ViewsOf(fragments), ViewsOf(p.fragments))
      requires forall f :: f in p.fragments ==> f !in fragments
      modifies this, p
      ensures Valid() && Content() == old(Content()) + old(p.Content()) && size == old(size) + old(p.size)
              && p.fragments == [] && fragments == old(fragments) + old(p.fragments)
    {
      hide Flat, Total, FragsOk, Unaliased, AllApart;
      ghost var vs, ws := ViewsOf(fragments), ViewsOf(p.fragments);
      JoinChain(mem[..], vs, ws);
      size := size + p.size;
      fragments := fragments + p.fragments;
      p.fragments := [];
      DistinctJoin(old(fragments), old(p.fragments));
      EmptyChain(mem[..], mem.Length);
      assert ViewsOf(fragments) == vs + ws;
    }

    method PushFront(p: Buffer)
      requires Valid() && p.Valid() && p != this && p.mem == mem && AllApart(ViewsOf(p.fragments), ViewsOf(fragments))
      requires forall f :: f in p.fragments ==> f !in fragments
      modifies this, p
      ensures Valid() && Content() == old(p.Content()) + old(Content()) && size == old(size) + old(p.size)
              && p.fragments == [] && fragments == old(p.fragments) + old(fragments)
    {
      hide Flat, Total, FragsOk, Unaliased, AllApart;
      ghost var vs, ws := ViewsOf(fragments), ViewsOf(p.fragments);
      JoinChain(mem[..], ws, vs);
      size := size + p.size;
      fragments := p.fragments + fragments;
      p.fragments := [];
      DistinctJoin(old(p.fragments), old(fragments));
      EmptyChain(mem[..], mem.Length);
      assert ViewsOf(fragments) == ws + vs;
    }

    /** clone: another buffer with the same content, over the same bytes; this one stays as it is. */
    method Clone() returns (r: Buffer)
      requires Valid()
      ensures fresh(r) && fresh(r.fragments) && r.mem == mem && r.Valid() && r.Content() == Content() && r.size == size
      ensures ViewsOf(r.fragments) == ViewsOf(fragments)
    {
      hide Flat, Total, FragsOk, Unaliased, FragOk;
      var fs: seq<Fragment> := [];
      var i := 0;
      while i < |fragments|
        invariant 0 <= i == |fs| <= |fragments| && fresh(fs) && Distinct(fs) && InMemory(fs, mem)
        invariant forall j :: 0 <= j < i ==> fs[j].View() == fragments[j].View()
      {
        OkAt(ViewsOf(fragments), mem.Length, i);
        var f := fragments[i].Clone();
        fs := fs + [f];
        i := i + 1;
      }
      r := new Buffer(mem, fs, size);
      assert ViewsOf(r.fragments) == ViewsOf(fragments);
    }

    /** One fragment's part of a read: c is the content, of which n bytes have been read from at on. */
    method ReadPart(k: nat, off: nat, dest: array<u8>, n: nat, ghost c: seq<u8>, ghost at: nat,
                    ghost was: seq<u8>) returns (ret: nat)
      requires Valid() && dest != mem && k < |fragments| && n < dest.Length && at + n <= |c| && |was| == dest.Length
      requires off < fragments[k].size || off == 0
      requires Rest(mem[..], ViewsOf(fragments), k, off) == c[at + n..] && dest[..] == Splice(was, 0, c[at..at + n])
      modifies dest
      ensures n + ret <= dest.Length && at + n + ret <= |c| && dest[..] == Splice(was, 0, c[at..at + n + ret])
      ensures n + ret < dest.Length ==> Rest(mem[..], ViewsOf(fragments), k + 1, 0) == c[at + n + ret..]
    {
      hide Flat, Total, Unaliased, Splice, Data, Rest, FragsOk;
      ghost var vs := ViewsOf(fragments);
      OkAt(vs, mem.Length, k);
      SpliceNone(dest[..], n);
      ret := fragments[k].Read(dest, n, off);
      RestStep(mem[..], vs, k, off, ret, c, at + n);
      SpliceMore(was, c, at, n, ret);
    }

    /** The reading loop, from fragment k and offset off in it: c is the content from at on. */
    method ReadFrom(k0: nat, off0: nat, dest: array<u8>, ghost c: seq<u8>, ghost at: nat) returns (n: nat)
      requires Valid() && dest != mem && k0 < |fragments| && off0 < fragments[k0].size && 0 < dest.Length
      requires at <= |c| && Rest(mem[..], ViewsOf(fragments), k0, off0) == c[at..]
      modifies dest
      ensures n == Min(dest.Length, |c| - at) && dest[..] == Splice(old(dest[..]), 0, c[at..at + n])
    {
      hide Flat, Total, FragsOk, Unaliased, Splice, Data, Distinct, InMemory;
      ghost var vs, was := ViewsOf(fragments), dest[..];
      var k: nat, off: nat := k0, off0;
      assert c[at..at + 0] == [];
      SpliceNone(was, 0);
      n := 0;
      while k < |fragments|
        invariant k <= |fragments| && n < dest.Length && at + n <= |c|
        invariant k < |vs| ==> off < vs[k].size || off == 0
        invariant Rest(mem[..], vs, k, off) == c[at + n..]
        invariant dest[..] == Splice(was, 0, c[at..at + n])
      {
        var ret := ReadPart(k, off, dest, n, c, at, was);
        n := n + ret;
        if n == dest.Length {
          return;
        }
        off := 0;
        k := k + 1;
      }
      assert c[at + n..] == [];
    }

    /** read: the bytes from offset on, as many as there are and fit. */
    method Read(dest: array<u8>, offset: nat) returns (n: nat)
      requires Valid() && dest != mem
      modifies dest
      ensures n == if offset >= size then 0 else Min(dest.Length, size - offset)
      ensures offset + n <= |Content()| || n == 0
      ensures dest[..n] == if n == 0 then [] else Content()[offset..offset + n]
      ensures dest[n..] == old(dest[..])[n..]
    {
      hide Flat, Total, FragsOk, Unaliased, Splice, Data, Distinct, InMemory, Rest;
      ghost var vs, was, c := ViewsOf(fragments), dest[..], Content();
      FlatLength(mem[..], vs);
      EmptyChain(mem[..], mem.Length);
      if fragments == [] || dest.Length == 0 || offset >= size {
        return 0;
      }
      var k: nat, off: nat := SkipOffset(fragments, offset);
      CursorInside(vs, offset, k, off);
      RestStart(mem[..], vs, offset, k, off);
      n := ReadFrom(k, off, dest, c, offset);
      SpliceParts(was, c[offset..offset + n]);
    }

    /** write: into the tailroom of the last fragment. */
    method Write(r: seq<u8>) returns (n: nat)
      requires Valid()
      modifies this`size, fragments`size, mem
      ensures fragments == old(fragments)
      ensures n == if fragments == [] then 0 else Min(|r|, Tailroom(old(ViewsOf(fragments))[|fragments| - 1]))
      ensures Valid() && Content() == old(Content()) + r[..n] && size == old(size) + n
    {
      hide Flat, Total, FragsOk, Unaliased, Splice;
      ghost var vs := ViewsOf(fragments);
      if fragments == [] || r == [] {
        if fragments != [] { OkAt(vs, mem.Length, |vs| - 1); }
        return 0;
      }
      var last := |fragments| - 1;
      OkAt(vs, mem.Length, last);
      n := fragments[last].Write(r);
      size := size + n;
      ghost var g := vs[last].(size := vs[last].size + n);
      assert ViewsOf(fragments) == vs[last := g];
      GrowOk(vs, mem.Length, last, n);
      WriteFlat(old(mem[..]), vs, last, r[..n]);
      WriteLast(old(mem[..]), vs, r[..n]);
      TotalReplace(vs, last, g);
    }

    method SkipAt(k: nat, n: nat)
      requires Distinct(fragments) && InMemory(fragments, mem) && k < |fragments|
      requires FragOk(ViewsOf(fragments)[k], mem.Length)
      modifies {fragments[k]}`head, {fragments[k]}`size
      ensures ViewsOf(fragments) == old(ViewsOf(fragments))[k := SkipFrag(old(ViewsOf(fragments))[k], n)]
      ensures forall f :: f in fragments ==> f.head + f.size == old(f.head + f.size)
    {
      hide FragOk, SkipFrag;
      var skipped := fragments[k].SkipBytes(n);
    }

    method DropAt(k: nat, n: nat)
      requires Distinct(fragments) && InMemory(fragments, mem) && k < |fragments|
      requires FragOk(ViewsOf(fragments)[k], mem.Length)
      modifies {fragments[k]}`size
      ensures ViewsOf(fragments) == old(ViewsOf(fragments))[k := DropFrag(old(ViewsOf(fragments))[k], n)]
    {
      hide FragOk, DropFrag;
      var dropped := fragments[k].IgnoreBytesAtEnd(n);
    }

    /** for_each over [lo, hi): every fragment gives up all its bytes, from the front or from the end. */
    method EmptyAll(lo: nat, hi: nat, front: bool)
      requires Distinct(fragments) && InMemory(fragments, mem) && FragsOk(ViewsOf(fragments), mem.Length)
               && lo <= hi <= |fragments|
      modifies fragments`head, fragments`size
      ensures Emptied(old(ViewsOf(fragments)), ViewsOf(fragments), lo, hi, front)
      ensures if front then forall f :: f in fragments ==> f.head + f.size == old(f.head + f.size)
              else forall f :: f in fragments ==> f.head == old(f.head)
    {
      hide Flat, Total, SkipFrag, DropFrag, FragsOk, Emptied, Distinct, InMemory;
      ghost var vs := ViewsOf(fragments);
      EmptiedNone(vs, lo, front);
      var i := lo;
      while i < hi
        invariant lo <= i <= hi && Emptied(vs, ViewsOf(fragments), lo, i, front)
        invariant if front then forall f :: f in fragments ==> f.head + f.size == old(f.head + f.size)
                  else forall f :: f in fragments ==> f.head == old(f.head)
        modifies fragments`head, fragments`size
      {
        EmptiedMore(vs, ViewsOf(fragments), lo, i, front);
        OkAt(vs, mem.Length, i);
        if front {
          SkipAt(i, fragments[i].size);
        } else {
          DropAt(i, fragments[i].size);
        }
        i := i + 1;
      }
    }

    /** The fragments before k go: freed, or kept empty. */
    method LeaveFront(k: nat, free: bool)
      requires Distinct(fragments) && InMemory(fragments, mem) && k <= |fragments|
      requires FragsOk(ViewsOf(fragments), mem.Length) && Unaliased(ViewsOf(fragments))
      requires FragsOk(ViewsOf(fragments)[k..], mem.Length) && Unaliased(ViewsOf(fragments)[k..])
      requires size == Total(ViewsOf(fragments)[k..])
      modifies this`fragments, fragments`head, fragments`size
      ensures Valid() && Content() == Flat(mem[..], old(ViewsOf(fragments))[k..])
      ensures if free then fragments == old(fragments)[k..] && ViewsOf(fragments) == old(ViewsOf(fragments))[k..]
              else fragments == old(fragments)
      ensures forall f :: f in old(fragments) ==> f.head + f.size == old(f.head + f.size)
    {
      hide Flat, Total, FragsOk, Unaliased, Emptied, Distinct, InMemory;
      ghost var vs := ViewsOf(fragments);
      DistinctPart(fragments, k, |fragments|, mem);
      if free {
        fragments := fragments[k..];
        assert ViewsOf(fragments) == vs[k..];
      } else {
        EmptyAll(0, k, true);
        EmptyFront(mem[..], vs, ViewsOf(fragments), k);
      }
    }

    /** The fragments from k on go. */
    method LeaveBack(k: nat, free: bool)
      requires Distinct(fragments) && InMemory(fragments, mem) && k <= |fragments|
      requires FragsOk(ViewsOf(fragments), mem.Length) && Unaliased(ViewsOf(fragments))
      requires FragsOk(ViewsOf(fragments)[..k], mem.Length) && Unaliased(ViewsOf(fragments)[..k])
      requires size == Total(ViewsOf(fragments)[..k])
      modifies this`fragments, fragments`head, fragments`size
      ensures Valid() && Content() == Flat(mem[..], old(ViewsOf(fragments))[..k])
      ensures if free then fragments == old(fragments)[..k] && ViewsOf(fragments) == old(ViewsOf(fragments))[..k]
              else fragments == old(fragments)
      ensures forall f :: f in old(fragments) ==> f.head == old(f.head)
    {
      hide Flat, Total, FragsOk, Unaliased, Emptied, Distinct, InMemory;
      ghost var vs := ViewsOf(fragments);
      DistinctPart(fragments, 0, k, mem);
      if free {
        fragments := fragments[..k];
        assert ViewsOf(fragments) == vs[..k];
      } else {
        EmptyAll(k, |fragments|, false);
        EmptyBack(mem[..], vs, ViewsOf(fragments), k);
      }
    }

    /** The fragment the offset falls into gives up its bytes before it; those before are still there. */
    method SkipFrom(sz: nat, k: nat, rem: nat)
      requires Valid() && CursorAt(ViewsOf(fragments), sz, k, rem)
      modifies this`size, fragments`head, fragments`size
      ensures Distinct(fragments) && InMemory(fragments, mem) && k <= |fragments|
      ensures FragsOk(ViewsOf(fragments), mem.Length) && Unaliased(ViewsOf(fragments))
      ensures FragsOk(ViewsOf(fragments)[k..], mem.Length) && Unaliased(ViewsOf(fragments)[k..])
      ensures size == Total(ViewsOf(fragments)[k..]) == old(size) - Min(sz, old(size))
      ensures |old(Content())| == old(size)
              && Flat(mem[..], ViewsOf(fragments)[k..]) == old(Content())[Min(sz, old(size))..]
      ensures k < |fragments| ==> fragments[k].size > 0
      ensures forall f :: f in fragments ==> f.head + f.size == old(f.head + f.size)
    {
      hide Flat, Total, FragsOk, Unaliased, SkipFrag, Distinct, InMemory, FragOk;
      ghost var vs := ViewsOf(fragments);
      FlatLength(mem[..], vs);
      EmptyChain(mem[..], mem.Length);
      CursorInside(vs, sz, k, rem);
      SkipPlan(mem[..], vs, sz, k, rem);
      if k == |fragments| {
        size := 0;
      } else {
        SkipAt(k, rem);
        size := size - sz;
      }
    }

    /** The same from the end. */
    method DropFrom(sz: nat, k: nat, rem: nat)
      requires Valid() && CursorBack(ViewsOf(fragments), sz, k, rem)
      modifies this`size, fragments`size
      ensures Distinct(fragments) && InMemory(fragments, mem) && k <= |fragments|
      ensures FragsOk(ViewsOf(fragments), mem.Length) && Unaliased(ViewsOf(fragments))
      ensures FragsOk(ViewsOf(fragments)[..k], mem.Length) && Unaliased(ViewsOf(fragments)[..k])
      ensures size == Total(ViewsOf(fragments)[..k]) == old(size) - Min(sz, old(size))
      ensures |old(Content())| == old(size)
              && Flat(mem[..], ViewsOf(fragments)[..k]) == old(Content())[..old(size) - Min(sz, old(size))]
      ensures k > 0 ==> fragments[k - 1].size > 0
    {
      hide Flat, Total, FragsOk, Unaliased, DropFrag, Distinct, InMemory, FragOk;
      ghost var vs := ViewsOf(fragments);
      FlatLength(mem[..], vs);
      EmptyChain(mem[..], mem.Length);
      CursorBackInside(vs, sz, k, rem);
      DropPlan(mem[..], vs, sz, k, rem);
      if k == 0 {
        size := 0;
      } else {
        OkAt(vs, mem.Length, k - 1);
        DropSize(vs[k - 1], rem);
        DropAt(k - 1, rem);
        size := size - sz;
      }
    }

    /** skip_bytes: the first sz bytes go, whether the fragments passed are freed or kept empty. */
    method SkipBytes(sz: nat, free: bool)
      requires Valid()
      modifies this, fragments`head, fragments`size
      ensures Valid() && size == old(size) - Min(sz, old(size))
      ensures |old(Content())| == old(size) && Content() == old(Content())[Min(sz, old(size))..]
      ensures mem[..] == old(mem[..])
      ensures !free ==> fragments == old(fragments)
      ensures free ==> |fragments| <= |old(fragments)| && fragments == old(fragments)[|old(fragments)| - |fragments|..]
      ensures free && fragments != [] ==> fragments[0].size > 0
      ensures forall f :: f in old(fragments) ==> f.head + f.size == old(f.head + f.size)
    {
      hide Flat, Total, FragsOk, Unaliased, SkipFrag, Distinct, InMemory, CursorAt, FragOk;
      ghost var vs := ViewsOf(fragments);
      FlatLength(mem[..], vs);
      EmptyChain(mem[..], mem.Length);
      if fragments == [] {
        return;
      }
      var k: int, rem: nat := SkipOffset(fragments, sz);
      SkipFrom(sz, k, rem);
      if k < |fragments| && fragments[k].size == 0 { k := k + 1; }
      LeaveFront(k, free);
    }

    /** ignore_bytes_at_end: the last sz bytes go. */
    method IgnoreBytesAtEnd(sz: nat, free: bool)
      requires Valid()
      modifies this, fragments`head, fragments`size
      ensures Valid() && size == old(size) - Min(sz, old(size))
      ensures |old(Content())| == old(size) && Content() == old(Content())[..old(size) - Min(sz, old(size))]
      ensures mem[..] == old(mem[..])
      ensures !free ==> fragments == old(fragments)
      ensures free ==> |fragments| <= |old(fragments)| && fragments == old(fragments)[..|fragments|]
      ensures free && fragments != [] ==> fragments[|fragments| - 1].size > 0
      ensures forall f :: f in old(fragments) ==> f.head == old(f.head)
    {
      hide Flat, Total, FragsOk, Unaliased, DropFrag, Distinct, InMemory, CursorBack, FragOk;
      ghost var vs := ViewsOf(fragments);
      FlatLength(mem[..], vs);
      EmptyChain(mem[..], mem.Length);
      if fragments == [] {
        return;
      }
      var k: nat, rem: nat := SkipOffsetBack(fragments, sz);
      DropFrom(sz, k, rem);
      LeaveBack(k, free);
    }

    /** One fragment's bytes to the end of fragment p. */
    method GatherOne(p: nat, it: nat, ghost m0: seq<u8>, ghost ws: seq<Frag>) returns (n: nat)
      requires Distinct(fragments) && InMemory(fragments, mem) && p < it < |fragments| == |ws|
      requires |m0| == mem.Length && FragsOk(ws, |m0|) && Unaliased(ws)
      requires Gathered(m0, ws, mem[..], p, it, fragments[p].View())
               && ViewsOf(fragments) == ws[p := fragments[p].View()]
      requires fragments[p].head + fragments[p].size + ws[it].size <= fragments[p].base + fragments[p].cap
      modifies {fragments[p]}`size, mem
      ensures n == ws[it].size && Gathered(m0, ws, mem[..], p, it + 1, fragments[p].View())
      ensures fragments[p].View() == old(fragments[p].View()).(size := old(fragments[p].size) + n)
      ensures ViewsOf(fragments) == ws[p := fragments[p].View()]
    {
      hide Flat, Total, FragsOk, Unaliased, Splice, Data, Gathered;
      ghost var w, m1 := fragments[p].View(), mem[..];
      GatherStep(m0, ws, m1, p, it, w);
      GrownOk(m0, ws, m1, p, it, w);
      OkAt(ws, mem.Length, it);
      assert ViewsOf(fragments)[it] == ws[it];
      DataIs(mem[..], ws[it]);
      var r := mem[fragments[it].head..fragments[it].head + fragments[it].size];
      n := fragments[p].Write(r);
      assert r[..n] == r;
    }

    /** The gathering loop of coalesce: whole fragments behind p are copied to its end as long as they
        fit in length bytes; left bytes are then still missing. */
    method GatherAll(p: nat, length: nat) returns (left: nat, it: nat)
      requires Valid() && p < |fragments| && fragments[p].size <= length
      requires fragments[p].head + length <= fragments[p].base + fragments[p].cap
      requires length <= fragments[p].size + Total(ViewsOf(fragments)[p + 1..])
      modifies {fragments[p]}`size, mem
      ensures p < it <= |fragments|
              && Gathered(old(mem[..]), old(ViewsOf(fragments)), mem[..], p, it, fragments[p].View())
      ensures ViewsOf(fragments) == old(ViewsOf(fragments))[p := fragments[p].View()]
      ensures fragments[p].View() == old(fragments[p].View()).(size := fragments[p].size)
      ensures left + fragments[p].size == length && left <= Total(old(ViewsOf(fragments))[it..])
      ensures it < |fragments| ==> left < old(ViewsOf(fragments))[it].size
      ensures p + 1 < |fragments| && length - old(fragments[p].size) < old(ViewsOf(fragments))[p + 1].size ==>
                it == p + 1
    {
      hide Flat, Total, FragsOk, Unaliased, Splice, Data, Gathered;
      ghost var m0, ws := mem[..], ViewsOf(fragments);
      GatherStart(m0, ws, p);
      left := length - fragments[p].size;
      it := p + 1;
      while it < |fragments| && left >= fragments[it].size
        invariant p < it <= |fragments| && Gathered(m0, ws, mem[..], p, it, fragments[p].View())
        invariant fragments[p].View() == ws[p].(size := fragments[p].size)
                  && ViewsOf(fragments) == ws[p := fragments[p].View()]
        invariant left + fragments[p].size == length && left <= Total(ws[it..])
        invariant it > p + 1 ==> length - ws[p].size >= ws[p + 1].size
        modifies {fragments[p]}`size, mem
      {
        TailTotal(ws, it);
        assert ViewsOf(fragments)[it] == ws[it];
        var n := GatherOne(p, it, m0, ws);
        left := left - n;
        it := it + 1;
      }
      assert it < |fragments| ==> ViewsOf(fragments)[it] == ws[it];
    }

    /** The same, with the fragments copied freed. */
    method Gather(p: nat, length: nat) returns (left: nat)
      requires Valid() && p < |fragments| && fragments[p].size <= length
      requires fragments[p].head + length <= fragments[p].base + fragments[p].cap
      requires length <= fragments[p].size + Total(ViewsOf(fragments)[p + 1..])
      modifies this`fragments, fragments`size, mem
      ensures Valid() && Content() == old(Content()) && size == old(size)
      ensures p < |fragments| && (forall i :: 0 <= i < |fragments| ==> fragments[i] in old(fragments))
              && fragments[p] == old(fragments[p])
      ensures ViewsOf(fragments)[..p] == old(ViewsOf(fragments))[..p] && fragments[p].size + left == length
      ensures fragments[p].View() == old(fragments[p].View()).(size := fragments[p].size)
      ensures left > 0 ==> p + 1 < |fragments| && left < fragments[p + 1].size
      ensures FitsInNext(old(ViewsOf(fragments)), p, length) ==>
                ViewsOf(fragments) == old(ViewsOf(fragments)) && left == length
    {
      hide *;
      BufferParts(this);
      ghost var m0, ws, was := mem[..], ViewsOf(fragments), fragments;
      ViewIs(fragments[p]);
      var it: nat;
      left, it := GatherAll(p, length);
      ghost var w := fragments[p].View();
      GatheredPlan(m0, ws, mem[..], p, it, w, left, length);
      DistinctCut(was, p, it, mem);
      ViewsCut(was, ws, p, it, w);
      fragments := fragments[..p + 1] + fragments[it..];
      ViewIs(fragments[p]);
      if p + 1 < |fragments| { ViewIs(fragments[p + 1]); }
      BufferFrom(this);
    }

    /** The end of coalesce: the first left bytes of the fragment behind p move to p's end. */
    method TakePart(p: nat, left: nat)
      requires Valid() && p + 1 < |fragments| && left < fragments[p + 1].size
      requires fragments[p].head + fragments[p].size + left <= fragments[p].base + fragments[p].cap
      modifies fragments`head, fragments`size, mem
      ensures Valid() && Content() == old(Content())
      ensures ViewsOf(fragments)[..p] == old(ViewsOf(fragments))[..p]
              && fragments[p].size == old(fragments[p].size) + left
      ensures |fragments| == old(|fragments|) && fragments[p + 1].size == old(fragments[p + 1].size) - left
    {
      hide Flat, Total, FragsOk, Unaliased, Splice, Data, SkipFrag;
      ghost var gs := ViewsOf(fragments);
      OkAt(gs, mem.Length, p);
      OkAt(gs, mem.Length, p + 1);
      ShiftPart(mem[..], gs, p, left);
      DataIs(mem[..], gs[p + 1]);
      SkipSize(gs[p + 1], left);
      ghost var d := mem[fragments[p + 1].head..fragments[p + 1].head + fragments[p + 1].size];
      assert d == Data(mem[..], gs[p + 1]);
      var r := mem[fragments[p + 1].head..fragments[p + 1].head + left];
      assert r == d[..left];
      var n := fragments[p].Write(r);
      assert r[..n] == r;
      var skipped := fragments[p + 1].SkipBytes(left);
      assert ViewsOf(fragments) == gs[p := gs[p].(size := gs[p].size + left)][p + 1 := SkipFrag(gs[p + 1], left)];
    }

    /** The fragment coalesce writes into, at index p: the one it found, if it has the room, or the
        fresh one put in front of it. */
    method Target(k: nat, rem: nat, length: nat, spare: Fragment) returns (p: nat)
      requires Valid() && k < |fragments| && rem < fragments[k].size < rem + length
               && length + rem <= Total(ViewsOf(fragments)[k..])
      requires spare.mem == mem && spare.Ok() && spare.size == 0 && length <= Tailroom(spare.View())
      requires spare !in fragments && AllApart([spare.View()], ViewsOf(fragments))
      requires rem == 0 || !WrapsAt(ViewsOf(fragments), k, rem, length)
      modifies this`fragments
      ensures p == k && Valid() && Content() == old(Content()) && p < |fragments|
              && ViewsOf(fragments)[..p] == old(ViewsOf(fragments))[..p]
      ensures fragments[p].size <= length <= fragments[p].size + Total(ViewsOf(fragments)[p + 1..])
      ensures fragments[p].head + length <= fragments[p].base + fragments[p].cap
      ensures forall i :: 0 <= i < |fragments| ==> fragments[i] in old(fragments) || fragments[i] == spare
      ensures fragments[p] == if old(fragments[k].base + fragments[k].cap - fragments[k].head) < rem + length
                              then spare else old(fragments[k])
      ensures spare in fragments ==> fragments[p] == spare
      ensures rem >= length ==>
                FitsInNext(ViewsOf(fragments), p, length) && ViewsOf(fragments)[p + 1].size == old(fragments[k].size)
    {
      hide Flat, Total, FragsOk, Unaliased, AllApart, Distinct, InMemory;
      ghost var vs := ViewsOf(fragments);
      OkAt(vs, mem.Length, k);
      TailTotal(vs, k);
      p := k;
      var tailroom := fragments[k].base + fragments[k].cap - (fragments[k].head + fragments[k].size);
      if fragments[k].size - rem + tailroom < length {
        InsertEmpty(mem[..], vs, k, spare.View());
        DistinctInsert(fragments, k, spare, mem);
        fragments := fragments[..k] + [spare] + fragments[k..];
        assert ViewsOf(fragments) == vs[..k] + [spare.View()] + vs[k..];
        assert ViewsOf(fragments)[k + 1..] == vs[k..];
      }
    }

    /** Bring length bytes together in fragment p. */
    method Absorb(p: nat, length: nat) returns (n: nat)
      requires Valid() && p < |fragments| && fragments[p].size <= length
      requires fragments[p].head + length <= fragments[p].base + fragments[p].cap
      requires length <= fragments[p].size + Total(ViewsOf(fragments)[p + 1..])
      modifies this`fragments, fragments`head, fragments`size, mem
      ensures Valid() && Content() == old(Content()) && size == old(size)
      ensures p < |fragments| && ViewsOf(fragments)[..p] == old(ViewsOf(fragments))[..p]
              && fragments[p].size == length == n
      ensures fragments[p] == old(fragments[p]) && forall f :: f in fragments ==> f in old(fragments)
      ensures FitsInNext(old(ViewsOf(fragments)), p, length) && old(fragments[p].size) == 0 && length > 0 ==>
                p + 1 < |fragments| && fragments[p + 1].size == old(ViewsOf(fragments))[p + 1].size - length
    {
      hide Flat, Total, FragsOk, Unaliased;
      var left := Gather(p, length);
      if left > 0 {
        TakePart(p, left);
      }
      n := fragments[p].size;
    }

    /** The case in which coalesce does not run off the end, and the spare fragment it asks the allocator
        for: empty, and with tailroom for the bytes asked for. */
    ghost predicate CanCoalesce(offset: nat, length: nat, spare: Fragment)
      reads this, fragments, spare
    {
      && spare.mem == mem && spare.Ok() && spare.size == 0 && spare !in fragments
      && AllApart([spare.View()], ViewsOf(fragments))
      && (offset < size ==> !Wraps(ViewsOf(fragments), offset, Min(length, size - offset))
                            && Min(length, size - offset) <= Tailroom(spare.View()))
    }

    /** coalesce: the content stays what it was; length bytes from the offset on, or as many as there
        are, come to lie in one fragment just when the offset is between two fragments or they did so
        before. spare is for when the first fragment has too little room. CoalesceRunsOff says what happens
        in the case left out. */
    method Coalesce(offset: nat, length: nat, spare: Fragment) returns (n: nat)
      requires Valid() && CanCoalesce(offset, length, spare)
      modifies this`fragments, fragments`head, fragments`size, spare`head, spare`size, mem
      ensures Valid() && Content() == old(Content()) && size == old(size)
      ensures forall f :: f in fragments ==> f in old(fragments) || f == spare
      ensures offset < size && length > 0 ==>
                (Contiguous(ViewsOf(fragments), offset, Min(length, size - offset)) <==>
                 Coalesces(old(ViewsOf(fragments)), offset, Min(length, size - offset)))
      ensures offset < size && length > 0 ==>
                n == if Contiguous(old(ViewsOf(fragments)), offset, Min(length, size - offset)) then size
                else Min(length, size - offset)
      ensures offset >= size || length == 0 ==> n == 0
      ensures offset >= size || length == 0
              || Contiguous(old(ViewsOf(fragments)), offset, Min(length, size - offset)) ==>
                fragments == old(fragments) && mem[..] == old(mem[..])
      ensures spare in fragments <==>
                offset < size && length > 0 && NeedsSpare(old(ViewsOf(fragments)), offset, Min(length, size - offset))
    {
      hide NeedsSpare, Flat, Total, FragsOk, FragOk, Unaliased, AllApart, Contiguous, Coalesces, Wraps, CursorAt,
           Distinct, InMemory, Tailroom, Data;
      ghost var vs := ViewsOf(fragments);
      EmptyChain(mem[..], mem.Length);
      if fragments == [] || length == 0 || offset >= size {
        return 0;
      }
      var len := if length > size - offset then size - offset else length;
      var k: nat, rem: nat := SkipOffset(fragments, offset);
      CursorInside(vs, offset, k, rem);
      CursorSum(vs, offset, k, rem);
      CursorDecides(vs, offset, k, rem, len);
      EndsInside(vs, mem.Length, k);
      if fragments[k].size - rem >= len {
        return size;
      }
      TailFrom(vs, k, rem, offset);
      var p: nat := Target(k, rem, len, spare);
      ghost var vs1 := ViewsOf(fragments);
      n := Absorb(p, len);
      AbsorbedPlan(vs, ViewsOf(fragments), k, rem, offset, len);
    }

    /** range: where in memory the bytes asked for lie, after coalescing them; fewer, just when coalesce
        does not bring them together. */
    method Range(offset: nat, length: nat, spare: Fragment) returns (found: bool, at: nat, n: nat)
      requires Valid() && CanCoalesce(offset, length, spare)
      modifies this`fragments, fragments`head, fragments`size, spare`head, spare`size, mem
      ensures Valid() && Content() == old(Content()) && size == old(size) && (found <==> offset < size)
      ensures found ==> n <= Min(length, size - offset) && at + n <= mem.Length && offset + n <= |Content()|
      ensures found ==> mem[at..at + n] == Content()[offset..offset + n]
      ensures found ==>
                (n == Min(length, size - offset) <==>
                   length == 0 || Coalesces(old(ViewsOf(fragments)), offset, Min(length, size - offset)))
      ensures found && length > 0 ==> n > 0
      ensures found ==>
                forall k: nat, rem: nat :: CursorAt(ViewsOf(fragments), offset, k, rem) && k < |fragments| ==>
                  at == fragments[k].head + rem && n == Min(length, fragments[k].size - rem)
    {
      hide Buffer.Valid, Buffer.Content, Buffer.CanCoalesce, Contiguous, Coalesces, NeedsSpare, CursorAt;
      if offset >= size {
        return false, 0, 0;
      }
      var ignored := Coalesce(offset, length, spare);
      at, n := Locate(offset, length);
      found := true;
    }

    /** Where the bytes from the offset on lie, up to length of them and to the end of their fragment. */
    method Locate(offset: nat, length: nat) returns (at: nat, n: nat)
      requires Valid() && offset < size
      ensures n <= Min(length, size - offset) && at + n <= mem.Length && offset + n <= |Content()|
      ensures mem[at..at + n] == Content()[offset..offset + n]
      ensures n == Min(length, size - offset) <==>
                length == 0 || Contiguous(ViewsOf(fragments), offset, Min(length, size - offset))
      ensures length > 0 ==> n > 0
      ensures forall k: nat, rem: nat :: CursorAt(ViewsOf(fragments), offset, k, rem) && k < |fragments| ==>
                at == fragments[k].head + rem && n == Min(length, fragments[k].size - rem)
    {
      hide Flat, Total, FragsOk, FragOk, Unaliased, Contiguous, Coalesces, Wraps, NeedsSpare, CursorAt, Distinct,
           InMemory, Data;
      ghost var vs := ViewsOf(fragments);
      FlatLength(mem[..], vs);
      var k: nat, rem: nat := SkipOffset(fragments, offset);
      CursorInside(vs, offset, k, rem);
      CursorSum(vs, offset, k, rem);
      OkAt(vs, mem.Length, k);
      at := fragments[k].head + rem;
      n := Min(length, fragments[k].size - rem);
      RangePlan(mem[..], vs, offset, k, rem, length, size);
      CursorDecides(vs, offset, k, rem, Min(length, size - offset));
      forall p: nat, r: nat | CursorAt(vs, offset, p, r) && p < |fragments|
        ensures p == k && r == rem
      {
        CursorUnique(vs, offset, k, rem, p, r);
      }
    }
  }

  lemma ViewIs(f: Fragment)
    ensures f.View() == Frag(f.base, f.cap, f.head, f.size)
  {
  }

  lemma BufferParts(b: Buffer)
    requires b.Valid()
    ensures Distinct(b.fragments) && InMemory(b.fragments, b.mem) && b.size == Total(ViewsOf(b.fragments))
    ensures FragsOk(ViewsOf(b.fragments), b.mem.Length) && Unaliased(ViewsOf(b.fragments))
    ensures b.Content() == Flat(b.mem[..], ViewsOf(b.fragments))
  {
    hide Flat, Total, FragsOk, Unaliased, Distinct, InMemory;
  }

  lemma BufferFrom(b: Buffer)
    requires Distinct(b.fragments) && InMemory(b.fragments, b.mem) && b.size == Total(ViewsOf(b.fragments))
    requires FragsOk(ViewsOf(b.fragments), b.mem.Length) && Unaliased(ViewsOf(b.fragments))
    ensures b.Valid() && b.Content() == Flat(b.mem[..], ViewsOf(b.fragments))
  {
    hide Flat, Total, FragsOk, Unaliased, Distinct, InMemory;
  }
}
