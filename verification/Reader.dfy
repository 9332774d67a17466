/** The reader over a buffer and the string over a chain of fragments: their scans and comparisons
    see the flat content only. */
module Readers {
  import opened ChainModel
  import opened Chain

  /** A byte at which a scan stops: one of the pattern, or one not of it. */
  predicate Stops(b: u8, pattern: seq<u8>, stopIn: bool) {
    (b in pattern) == stopIn
  }

  /** The data of fragment k from off on are the next of the content c, from at on. */
  ghost predicate Aligned(mem: seq<u8>, f: Frag, off: nat, c: seq<u8>, at: nat) {
    && off <= f.size && f.head + f.size <= |mem| && at + (f.size - off) <= |c|
    && forall i :: f.head + off <= i < f.head + f.size ==> mem[i] == c[at + (i - f.head - off)]
  }

  lemma AlignedRest(mem: seq<u8>, fs: seq<Frag>, k: nat, off: nat, c: seq<u8>, at: nat)
    requires FragsOk(fs, |mem|) && k < |fs| && at <= |c| && Rest(mem, fs, k, off) == c[at..] && off <= fs[k].size
    ensures Aligned(mem, fs[k], off, c, at)
    ensures Rest(mem, fs, k + 1, 0) == c[at + (fs[k].size - off)..]
  {
    hide Flat, FragsOk;
    OkAt(fs, |mem|, k);
    DataLength(mem, fs[k]);
    DataIs(mem, fs[k]);
    var d := Data(mem, fs[k]);
    hide Data;
    assert c[at..] == d[off..] + Flat(mem, fs[k + 1..]);
    Overlay(d[off..], Flat(mem, fs[k + 1..]), c, at);
    RestNext(mem, fs, k);
  }

  lemma Overlay(a: seq<u8>, b: seq<u8>, c: seq<u8>, at: nat)
    requires at <= |c| && c[at..] == a + b
    ensures at + |a| <= |c| && c[at + |a|..] == b && forall j :: 0 <= j < |a| ==> c[at + j] == a[j]
  {
    assert |c| == at + |a| + |b|;
    forall j | 0 <= j < |a| ensures c[at + j] == a[j] { assert c[at..][j] == (a + b)[j]; }
    forall j | 0 <= j < |b| ensures c[at + |a| + j] == b[j] { assert c[at..][|a| + j] == (a + b)[|a| + j]; }
  }

  class Reader {
    const buffer: Buffer
    var mark: nat

    constructor (buffer: Buffer, mark: nat)
      ensures this.buffer == buffer && this.mark == mark
    {
      this.buffer := buffer;
      this.mark := mark;
    }

    ghost predicate Valid()
      reads this, buffer, buffer.fragments
    {
      buffer.Valid() && mark <= buffer.size
    }

    /** read_value into an object of dest.Length bytes. */
    method ReadValue(dest: array<u8>) returns (ok: bool)
      requires Valid() && dest != buffer.mem
      modifies dest
      ensures ok <==> mark < buffer.size && dest.Length <= buffer.size - mark
      ensures ok ==> mark + dest.Length <= |buffer.Content()| && dest[..] == buffer.Content()[mark..mark + dest.Length]
      ensures !ok ==> dest[..] == old(dest[..])
    {
      hide Flat, Total, FragsOk, Unaliased;
      FlatLength(buffer.mem[..], ViewsOf(buffer.fragments));
      ok := mark < buffer.size && dest.Length <= buffer.size - mark;
      if ok {
        var n := buffer.Read(dest, mark);
        assert dest[..n] == dest[..];
      }
    }

    method ReadValueAndMark(dest: array<u8>) returns (ok: bool)
      requires Valid() && dest != buffer.mem
      modifies this, dest
      ensures Valid() && (ok <==> old(mark) < buffer.size && dest.Length <= buffer.size - old(mark))
      ensures mark == if ok then old(mark) + dest.Length else old(mark)
      ensures ok ==> mark <= |buffer.Content()| && dest[..] == buffer.Content()[old(mark)..mark]
    {
      ok := ReadValue(dest);
      if ok {
        mark := mark + dest.Length;
      }
    }

    /** read_value_and_skip: everything up to the end of the value leaves the buffer. */
    method ReadValueAndSkip(dest: array<u8>) returns (ok: bool)
      requires Valid() && dest != buffer.mem
      modifies this, buffer, buffer.fragments, dest
      ensures Valid() && (ok <==> old(mark) < old(buffer.size) && dest.Length <= old(buffer.size) - old(mark))
      ensures mark == if ok then 0 else old(mark)
      ensures ok ==> old(mark) + dest.Length <= |old(buffer.Content())|
      ensures ok ==> dest[..] == old(buffer.Content())[old(mark)..old(mark) + dest.Length]
      ensures ok ==> buffer.Content() == old(buffer.Content())[old(mark) + dest.Length..]
      ensures !ok ==> buffer.Content() == old(buffer.Content())
    {
      hide Buffer.Valid, Buffer.Content;
      ok := ReadValue(dest);
      if ok {
        buffer.SkipBytes(mark + dest.Length, true);
        mark := 0;
      }
    }

    method MarkOffset(offset: nat) returns (n: nat)
      requires Valid()
      modifies this
      ensures Valid() && n == Min(offset, buffer.size - old(mark)) && mark == old(mark) + n
    {
      n := Min(offset, buffer.size - mark);
      mark := mark + n;
    }

    method DiscardToMark()
      requires Valid()
      modifies this, buffer, buffer.fragments
      ensures Valid() && mark == 0 && old(mark) <= |old(buffer.Content())|
              && buffer.Content() == old(buffer.Content())[old(mark)..]
    {
      hide Buffer.Valid, Buffer.Content;
      buffer.SkipBytes(mark, true);
      mark := 0;
    }

    /** consume_mark_into_buffer: the marked bytes leave as a buffer; null when nothing is marked. */
    method ConsumeMarkIntoBuffer() returns (r: Buffer?)
      requires Valid()
      modifies this, buffer, buffer.fragments
      ensures Valid() && mark == 0 && (r == null <==> old(mark) == 0 || old(buffer.fragments) == [])
      ensures r == null ==> buffer.Content() == old(buffer.Content())
      ensures r != null ==> r.Valid() && r.size == old(mark) && r.Content() + buffer.Content() == old(buffer.Content())
    {
      hide Buffer.Valid, Buffer.Content, AllApart, FrontEdge, EndRoom;
      r := buffer.Split(mark);
      mark := 0;
    }

    /** consume_mark_into_string. The buffer split off is dereferenced unchecked, so bytes must be
        marked. */
    method ConsumeMarkIntoString() returns (r: FragmentString)
      requires Valid() && mark > 0
      modifies this, buffer, buffer.fragments
      ensures Valid() && mark == 0 && r.Valid() && r.size == old(mark)
      ensures r.Content() + buffer.Content() == old(buffer.Content())
    {
      hide Buffer.Valid, Buffer.Content, FragmentString.Valid, FragmentString.Content, AllApart, FrontEdge, EndRoom;
      NoFragments(buffer);
      var b := buffer.Split(mark);
      mark := 0;
      r := new FragmentString(b.mem, b.fragments, b.size);
      StringOf(b, r);
    }

    /** Scan one fragment from off on; j bytes pass, and the scan stops or the fragment ends. */
    method ScanFragment(f: Fragment, off: nat, pattern: seq<u8>, stopIn: bool, ghost c: seq<u8>,
                        ghost at: nat) returns (j: nat, stopped: bool)
      requires f.mem == buffer.mem && Aligned(f.mem[..], f.View(), off, c, at)
      ensures off + j <= f.size && at + j <= |c| && (stopped <==> off + j < f.size)
      ensures forall i :: at <= i < at + j ==> !Stops(c[i], pattern, stopIn)
      ensures stopped ==> at + j < |c| && Stops(c[at + j], pattern, stopIn)
    {
      j, stopped := 0, false;
      while off + j < f.size
        invariant off + j <= f.size && forall i :: at <= i < at + j ==> !Stops(c[i], pattern, stopIn)
      {
        assert buffer.mem[f.head + off + j] == f.mem[..][f.head + off + j] == c[at + j];
        if Stops(buffer.mem[f.head + off + j], pattern, stopIn) {
          return j, true;
        }
        j := j + 1;
      }
    }

    /** The loop shared by the scans, from offset start on: passed bytes do not stop it; it stops at
        the first that does, or at the end of the content. */
    method Scan(start: nat, pattern: seq<u8>, stopIn: bool) returns (ret: nat, stopped: bool)
      requires buffer.Valid() && start <= buffer.size
      ensures |buffer.Content()| == buffer.size && start + ret <= buffer.size
      ensures forall i :: start <= i < start + ret ==> !Stops(buffer.Content()[i], pattern, stopIn)
      ensures stopped <==> start + ret < buffer.size
      ensures stopped ==> Stops(buffer.Content()[start + ret], pattern, stopIn)
    {
      hide Flat, Total, FragsOk, Unaliased, Aligned, Rest, Stops;
      ghost var vs, c, m := ViewsOf(buffer.fragments), buffer.Content(), buffer.mem[..];
      FlatLength(m, vs);
      var k: nat, off: nat := SkipOffset(buffer.fragments, start);
      CursorInside(vs, start, k, off);
      RestBegins(m, vs, start, k, off);
      ret, stopped := 0, false;
      while k < |buffer.fragments|
        invariant k <= |buffer.fragments| && start + ret <= |c|
        invariant k < |vs| ==> off <= vs[k].size
        invariant Rest(m, vs, k, off) == c[start + ret..]
        invariant forall i :: start <= i < start + ret ==> !Stops(c[i], pattern, stopIn)
      {
        AlignedRest(m, vs, k, off, c, start + ret);
        var j, s := ScanFragment(buffer.fragments[k], off, pattern, stopIn, c, start + ret);
        ret := ret + j;
        if s {
          return ret, true;
        }
        off := 0;
        k := k + 1;
      }
      RestEnds(m, vs, k, off);
    }

    /** memchr over the data of a fragment from off on. */
    method MemChr(f: Fragment, off: nat, target: u8, ghost c: seq<u8>, ghost at: nat) returns (found: bool, j: nat)
      requires f.mem == buffer.mem && Aligned(f.mem[..], f.View(), off, c, at)
      ensures off + j <= f.size && at + j <= |c| && (found <==> off + j < f.size)
      ensures forall i :: at <= i < at + j ==> c[i] != target
      ensures found ==> at + j < |c| && c[at + j] == target
    {
      found, j := false, 0;
      while off + j < f.size
        invariant off + j <= f.size && forall i :: at <= i < at + j ==> c[i] != target
      {
        assert buffer.mem[f.head + off + j] == f.mem[..][f.head + off + j] == c[at + j];
        if buffer.mem[f.head + off + j] == target {
          return true, j;
        }
        j := j + 1;
      }
    }

    /** find_byte: how far behind offset the first byte equal to target lies, if there is one. */
    method FindByte(target: u8, offset: nat) returns (found: bool, at: nat)
      requires buffer.Valid()
      ensures |buffer.Content()| == buffer.size
      ensures found ==> offset + at < buffer.size && buffer.Content()[offset + at] == target
      ensures found ==> forall i :: offset <= i < offset + at ==> buffer.Content()[i] != target
      ensures !found ==> forall i :: offset <= i < buffer.size ==> buffer.Content()[i] != target
    {
      hide Flat, Total, FragsOk, Unaliased, Aligned, Rest;
      ghost var vs, c, m := ViewsOf(buffer.fragments), buffer.Content(), buffer.mem[..];
      FlatLength(m, vs);
      if offset >= buffer.size {
        return false, 0;
      }
      var k: nat, off: nat := SkipOffset(buffer.fragments, offset);
      RestBegins(m, vs, offset, k, off);
      found, at := false, 0;
      while k < |buffer.fragments|
        invariant k <= |buffer.fragments| && offset + at <= |c|
        invariant k < |vs| ==> off <= vs[k].size
        invariant Rest(m, vs, k, off) == c[offset + at..]
        invariant forall i :: offset <= i < offset + at ==> c[i] != target
      {
        AlignedRest(m, vs, k, off, c, offset + at);
        var here, j := MemChr(buffer.fragments[k], off, target, c, offset + at);
        at := at + j;
        if here {
          return true, at;
        }
        off := 0;
        k := k + 1;
      }
      RestEnds(m, vs, k, off);
    }

    /** skip_any_of_and_mark: the mark moves over the longest run of pattern bytes. */
    method SkipAnyOfAndMark(pattern: seq<u8>) returns (ret: nat)
      requires Valid()
      modifies this
      ensures Valid() && |buffer.Content()| == buffer.size && mark == old(mark) + ret
      ensures forall i :: old(mark) <= i < mark ==> buffer.Content()[i] in pattern
      ensures mark < buffer.size ==> buffer.Content()[mark] !in pattern
    {
      hide Flat, Total, FragsOk, Unaliased;
      FlatLength(buffer.mem[..], ViewsOf(buffer.fragments));
      if pattern == [] {
        return 0;
      }
      var stopped;
      ret, stopped := Scan(mark, pattern, false);
      mark := mark + ret;
    }

    /** skip_any_not_of_and_mark: the mark moves to the first pattern byte, or the end. The number
        returned is the distance it has moved, except when the pattern is empty and bytes were
        marked already: then it is the size of the buffer. */
    method SkipAnyNotOfAndMark(pattern: seq<u8>) returns (ret: nat)
      requires Valid()
      modifies this
      ensures Valid() && |buffer.Content()| == buffer.size && old(mark) <= mark
      ensures forall i :: old(mark) <= i < mark ==> buffer.Content()[i] !in pattern
      ensures mark < buffer.size ==> buffer.Content()[mark] in pattern
      ensures mark == old(mark) + ret <==> pattern != [] || old(mark) == 0
      ensures pattern == [] ==> ret == buffer.size
    {
      hide Flat, Total, FragsOk, Unaliased;
      FlatLength(buffer.mem[..], ViewsOf(buffer.fragments));
      if pattern == [] {
        mark := buffer.size;
        return buffer.size;
      }
      var stopped;
      ret, stopped := Scan(mark, pattern, true);
      mark := mark + ret;
    }
  }

  lemma RestBegins(mem: seq<u8>, fs: seq<Frag>, offset: nat, k: nat, off: nat)
    requires FragsOk(fs, |mem|) && CursorAt(fs, offset, k, off) && offset <= Total(fs)
    ensures offset <= |Flat(mem, fs)| && Rest(mem, fs, k, off) == Flat(mem, fs)[offset..]
    ensures k < |fs| ==> off <= fs[k].size
  {
    hide Flat;
    FlatLength(mem, fs);
    if k < |fs| { RestStart(mem, fs, offset, k, off); } else { CursorInside(fs, offset, k, off); }
  }

  lemma RestEnds(mem: seq<u8>, fs: seq<Frag>, k: nat, off: nat)
    requires k == |fs|
    ensures Rest(mem, fs, k, off) == []
  {
  }

  // ---------------------------------------------------------------- strings

  /** Lexicographic order: negative, zero or positive. */
  function Order(c: seq<u8>, s: seq<u8>): int
    decreases |c|
  {
    if s == [] then |c|
    else if c == [] then -|s|
    else if c[0] != s[0] then c[0] as int - s[0] as int
    else Order(c[1..], s[1..])
  }

  function Sign(x: int): int {
    if x < 0 then -1 else if x == 0 then 0 else 1
  }

  /** Conversion to i32. */
  function ToI32(x: int): int {
    (x + 0x8000_0000) % 0x1_0000_0000 - 0x8000_0000
  }

  lemma {:induction false} OrderPrefix(c: seq<u8>, s: seq<u8>, n: nat)
    requires n <= |c| && n <= |s| && c[..n] == s[..n]
    ensures Order(c, s) == Order(c[n..], s[n..])
    decreases n
  {
    if n == 0 {
      assert c[0..] == c && s[0..] == s;
    } else {
      assert c[0] == c[..n][0] == s[..n][0] == s[0];
      assert c[1..][..n - 1] == c[..n][1..] && s[1..][..n - 1] == s[..n][1..];
      OrderPrefix(c[1..], s[1..], n - 1);
      assert c[1..][n - 1..] == c[n..] && s[1..][n - 1..] == s[n..];
    }
  }

  /** What compare returns: a difference of lengths cut to 32 bits, or, where a byte decides, a number of
      the sign of the difference of bytes that stands here. */
  function Compared(c: seq<u8>, s: seq<u8>): int
    decreases |c|
  {
    if s == [] || c == [] then ToI32(|c| - |s|)
    else if c[0] != s[0] then c[0] as int - s[0] as int
    else Compared(c[1..], s[1..])
  }

  lemma {:induction false} ComparedPrefix(c: seq<u8>, s: seq<u8>, n: nat)
    requires n <= |c| && n <= |s| && c[..n] == s[..n]
    ensures Compared(c, s) == Compared(c[n..], s[n..])
    decreases n
  {
    if n == 0 {
      assert c[0..] == c && s[0..] == s;
    } else {
      assert c[0] == c[..n][0] == s[..n][0] == s[0];
      assert c[1..][..n - 1] == c[..n][1..] && s[1..][..n - 1] == s[..n][1..];
      ComparedPrefix(c[1..], s[1..], n - 1);
      assert c[1..][n - 1..] == c[n..] && s[1..][n - 1..] == s[n..];
    }
  }

  /** The first byte that differs decides; where one text begins with the other, the difference of the
      lengths as a 32-bit number does. */
  lemma CompareSays(c: seq<u8>, s: seq<u8>, d: nat)
    ensures d < |c| && d < |s| && c[..d] == s[..d] && c[d] != s[d] ==> Compared(c, s) == c[d] as int - s[d] as int
    ensures c <= s || s <= c ==> (Compared(c, s) - (|c| - |s|)) % 0x1_0000_0000 == 0
                                 && -0x8000_0000 <= Compared(c, s) < 0x8000_0000
  {
    hide Compared;
    if d < |c| && d < |s| && c[..d] == s[..d] && c[d] != s[d] { ComparedDiffers(c, s, d); }
    if c <= s || s <= c {
      var n := Min(|c|, |s|);
      assert c[..n] == s[..n];
      ComparedPrefix(c, s, n);
      ComparedEnds(c[n..], s[n..]);
    }
  }

  /** compare has the sign of the lexicographic order whenever both sizes are below 2^31. */
  lemma {:induction false} CompareIsOrder(c: seq<u8>, s: seq<u8>)
    requires |c| < 0x8000_0000 && |s| < 0x8000_0000
    ensures Sign(Compared(c, s)) == Sign(Order(c, s))
    decreases |c|
  {
    if s != [] && c != [] && c[0] == s[0] { CompareIsOrder(c[1..], s[1..]); }
  }

  /** The cut to 32 bits keeps the sign of the difference d of two lengths. */
  predicate CutKeeps(d: int) {
    d == 0 || (d > 0 && 0 < d % 0x1_0000_0000 < 0x8000_0000) || (d < 0 && d % 0x1_0000_0000 >= 0x8000_0000)
  }

  lemma CutSign(d: int)
    ensures Sign(ToI32(d)) == Sign(d) <==> CutKeeps(d)
  {
    var r := d % 0x1_0000_0000;
    assert (d + 0x8000_0000) % 0x1_0000_0000 == if r < 0x8000_0000 then r + 0x8000_0000 else r - 0x8000_0000;
  }

  /** For texts of all sizes, compare has the sign of the order exactly when a byte decides, or the cut
      keeps the sign of the difference of the lengths. */
  lemma CompareCut(c: seq<u8>, s: seq<u8>)
    ensures Sign(Compared(c, s)) == Sign(Order(c, s)) <==> (c <= s || s <= c ==> CutKeeps(|c| - |s|))
  {
    hide ToI32, CutKeeps;
    if c <= s || s <= c {
      var n := Min(|c|, |s|);
      assert c[..n] == s[..n];
      OrderPrefix(c, s, n);
      ComparedPrefix(c, s, n);
      CutSign(|c| - |s|);
    } else {
      ByteDecides(c, s);
    }
  }

  lemma {:induction false} ByteDecides(c: seq<u8>, s: seq<u8>)
    requires !(c <= s) && !(s <= c)
    ensures Compared(c, s) == Order(c, s)
    decreases |c|
  {
    if c[0] == s[0] {
      assert c == [c[0]] + c[1..] && s == [s[0]] + s[1..];
      ByteDecides(c[1..], s[1..]);
    }
  }

  lemma NoFragments(b: Buffer)
    requires b.Valid()
    ensures b.fragments == [] ==> b.size == 0
  {
  }

  lemma StringOf(b: Buffer, r: FragmentString)
    requires b.Valid() && r.mem == b.mem && r.fragments == b.fragments && r.size == b.size
    ensures r.Valid() && r.Content() == b.Content()
  {
    hide Flat, Total, FragsOk, Unaliased, InMemory;
  }

  class FragmentString {
    const mem: array<u8>
    const fragments: seq<Fragment>
    const size: nat

    constructor (mem: array<u8>, fragments: seq<Fragment>, size: nat)
      ensures this.mem == mem && this.fragments == fragments && this.size == size
    {
      this.mem := mem;
      this.fragments := fragments;
      this.size := size;
    }

    ghost predicate Valid()
      reads fragments
    {
      InMemory(fragments, mem) && FragsOk(ViewsOf(fragments), mem.Length) && size == Total(ViewsOf(fragments))
    }

    ghost function Content(): seq<u8>
      reads fragments, mem
    {
      Flat(mem[..], ViewsOf(fragments))
    }

    /** memcmp of n bytes: 0, or a number with the sign of the difference of the first bytes that differ. */
    method MemCmp(at: nat, s: seq<u8>, from: nat, n: nat) returns (r: int, ghost d: nat)
      requires at + n <= mem.Length && from + n <= |s|
      ensures d <= n && mem[at..at + d] == s[from..from + d]
      ensures if d < n then r != 0 && Sign(r) == Sign(mem[at + d] as int - s[from + d] as int) else r == 0
    {
      var j := 0;
      while j < n
        invariant 0 <= j <= n && mem[at..at + j] == s[from..from + j]
      {
        if mem[at + j] != s[from + j] {
          return mem[at + j] as int - s[from + j] as int, j;
        }
        assert mem[at..at + j + 1] == mem[at..at + j] + [mem[at + j]];
        assert s[from..from + j + 1] == s[from..from + j] + [s[from + j]];
        j := j + 1;
      }
      return 0, n;
    }

    /** Compare the data of one fragment with the string from offset on. */
    method CompareHere(f: Fragment, s: seq<u8>, offset: nat, ghost c: seq<u8>) returns (ret: int, cap: nat,
                       ghost d: nat)
      requires f.mem == mem && Aligned(mem[..], f.View(), 0, c, offset) && offset <= |s| && offset <= |c|
               && c[..offset] == s[..offset]
      ensures cap == Min(f.size, |s| - offset) && d <= cap && offset + cap <= |c| && offset + cap <= |s|
      ensures c[..offset + d] == s[..offset + d]
      ensures if d < cap then c[offset + d] != s[offset + d]
                              && Sign(ret) == Sign(c[offset + d] as int - s[offset + d] as int)
              else ret == 0
    {
      hide Aligned;
      ghost var m := mem[..];
      cap := Min(f.size, |s| - offset);
      AlignedIs(m, f.View(), c, offset, cap);
      ret, d := MemCmp(f.head, s, offset, cap);
      Shorter(m[f.head..f.head + cap], c[offset..offset + cap], d);
      if d < cap {
        assert m[f.head..f.head + cap][d] == mem[f.head + d];
        assert c[offset..offset + cap][d] == c[offset + d];
      }
      assert m[f.head..f.head + cap][..d] == mem[f.head..f.head + d];
      assert c[offset..offset + cap][..d] == c[offset..offset + d];
      PrefixMore(c, s, offset, d, mem[f.head..f.head + d]);
    }

    /** compare with a flat string. */
    method Compare(s: seq<u8>) returns (r: int)
      requires Valid()
      ensures Sign(r) == Sign(Compared(Content(), s))
      ensures Content() <= s || s <= Content() ==> r == Compared(Content(), s)
    {
      hide Flat, Total, FragsOk, Aligned, Rest, Compared, ToI32;
      ghost var vs, c, m := ViewsOf(fragments), Content(), mem[..];
      FlatLength(m, vs);
      ComparedEnds(c, s);
      if s == [] {
        return ToI32(size);
      }
      var offset: nat := 0;
      var k: nat := 0;
      FirstRest(m, vs);
      while k < |fragments|
        invariant 0 <= k <= |fragments| && offset < |s| && offset <= |c| && c[..offset] == s[..offset]
        invariant Rest(m, vs, k, 0) == c[offset..]
      {
        AlignedRest(m, vs, k, 0, c, offset);
        if fragments[k].size == 0 {
          k := k + 1;
          continue;
        }
        var ret, cap;
        ghost var d;
        ret, cap, d := CompareHere(fragments[k], s, offset, c);
        if ret != 0 {
          ComparedDiffers(c, s, offset + d);
          return ret;
        }
        offset := offset + cap;
        if offset == |s| {
          ComparedPrefix(c, s, offset);
          ComparedEnds(c[offset..], s[offset..]);
          return ToI32(size - offset);
        }
        k := k + 1;
      }
      RestEnds(m, vs, k, 0);
      ComparedPrefix(c, s, offset);
      ComparedEnds(c[offset..], s[offset..]);
      return ToI32(size - |s|);
    }

    /** copy_to_string: the first sz bytes, or all. */
    method CopyToString(sz: nat) returns (ret: seq<u8>)
      requires Valid()
      ensures |Content()| == size && ret == Content()[..Min(sz, size)]
    {
      hide Flat, Total, FragsOk, Aligned, Rest;
      ghost var vs, c, m := ViewsOf(fragments), Content(), mem[..];
      FlatLength(m, vs);
      FirstRest(m, vs);
      ret := [];
      var left: nat, k: nat := sz, 0;
      while k < |fragments|
        invariant 0 <= k <= |fragments| && |ret| + left == sz && |ret| <= |c| && ret == c[..|ret|]
        invariant Rest(m, vs, k, 0) == c[|ret|..]
      {
        if left == 0 {
          break;
        }
        AlignedRest(m, vs, k, 0, c, |ret|);
        var cap := Min(fragments[k].size, left);
        AlignedIs(m, vs[k], c, |ret|, cap);
        ghost var n := |ret|;
        ret := ret + mem[fragments[k].head..fragments[k].head + cap];
        assert mem[fragments[k].head..fragments[k].head + cap] == c[n..n + cap];
        assert c[..n] + c[n..n + cap] == c[..n + cap];
        left := left - cap;
        if left == 0 {
          break;
        }
        k := k + 1;
      }
      if left > 0 { RestEnds(m, vs, k, 0); }
    }
  }

  lemma FirstRest(mem: seq<u8>, fs: seq<Frag>)
    requires FragsOk(fs, |mem|)
    ensures Rest(mem, fs, 0, 0) == Flat(mem, fs)[0..]
  {
    if fs != [] { OkAt(fs, |mem|, 0); }
  }

  lemma AlignedIs(mem: seq<u8>, f: Frag, c: seq<u8>, at: nat, n: nat)
    requires Aligned(mem, f, 0, c, at) && n <= f.size
    ensures f.head + f.size <= |mem| && at + f.size <= |c|
    ensures mem[f.head..f.head + n] == c[at..at + n]
  {
  }

  lemma Shorter(a: seq<u8>, b: seq<u8>, d: nat)
    requires a == b && d <= |a|
    ensures a[..d] == b[..d] && forall i :: 0 <= i < |a| ==> a[i] == b[i]
  {
  }

  lemma PrefixMore(c: seq<u8>, s: seq<u8>, offset: nat, d: nat, x: seq<u8>)
    requires offset + d <= |c| && offset + d <= |s| && c[..offset] == s[..offset]
             && x == c[offset..offset + d] == s[offset..offset + d]
    ensures c[..offset + d] == s[..offset + d]
  {
    assert c[..offset + d] == c[..offset] + x && s[..offset + d] == s[..offset] + x;
  }

  lemma ComparedDiffers(c: seq<u8>, s: seq<u8>, n: nat)
    requires n < |c| && n < |s| && c[..n] == s[..n] && c[n] != s[n]
    ensures Compared(c, s) == c[n] as int - s[n] as int
  {
    ComparedPrefix(c, s, n);
  }

  lemma ComparedEnds(c: seq<u8>, s: seq<u8>)
    ensures s == [] || c == [] ==> Compared(c, s) == ToI32(|c| - |s|)
  {
  }
}
