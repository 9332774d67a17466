/** A chain of fragments as a value: windows into one byte memory, read as one flat sequence. */
module ChainModel {

  type u8 = n: nat | n < 0x100

  /** The blob is the window [base, base + cap) of memory; the data are the size bytes at head. An empty
      blob is at 0. */
  datatype Frag = Frag(base: nat, cap: nat, head: nat, size: nat)

  ghost predicate FragOk(f: Frag, n: nat) {
    f.base <= f.head && f.head + f.size <= f.base + f.cap <= n && (f.cap == 0 ==> f.head == 0)
  }

  ghost predicate FragsOk(fs: seq<Frag>, n: nat) {
    forall i :: 0 <= i < |fs| ==> FragOk(fs[i], n)
  }

  /** No byte of memory is in two windows. */
  ghost predicate WindowsApart(f: Frag, g: Frag) {
    f.base + f.cap <= g.base || g.base + g.cap <= f.base || f.cap == 0 || g.cap == 0
  }

  ghost predicate Unaliased(fs: seq<Frag>) {
    forall i, j :: 0 <= i < j < |fs| ==> WindowsApart(fs[i], fs[j])
  }

  ghost predicate AllApart(fs: seq<Frag>, gs: seq<Frag>) {
    forall i, j :: 0 <= i < |fs| && 0 <= j < |gs| ==> WindowsApart(fs[i], gs[j])
  }

  function Data(mem: seq<u8>, f: Frag): seq<u8> {
    if f.head + f.size <= |mem| then mem[f.head..f.head + f.size] else []
  }

  /** What the chain holds, whatever its fragmentation. */
  ghost function Flat(mem: seq<u8>, fs: seq<Frag>): seq<u8>
    decreases |fs|
  {
    if fs == [] then [] else Data(mem, fs[0]) + Flat(mem, fs[1..])
  }

  ghost function Total(fs: seq<Frag>): nat
    decreases |fs|
  {
    if fs == [] then 0 else fs[0].size + Total(fs[1..])
  }

  // ---------------------------------------------------------------- flat content

  lemma {:induction false} FlatAppend(mem: seq<u8>, a: seq<Frag>, b: seq<Frag>)
    ensures Flat(mem, a + b) == Flat(mem, a) + Flat(mem, b)
    decreases |a|
  {
    if a == [] {
      assert a + b == b;
    } else {
      assert (a + b)[0] == a[0] && (a + b)[1..] == a[1..] + b;
      FlatAppend(mem, a[1..], b);
      assert Data(mem, a[0]) + (Flat(mem, a[1..]) + Flat(mem, b))
          == (Data(mem, a[0]) + Flat(mem, a[1..])) + Flat(mem, b);
    }
  }

  lemma FlatOne(mem: seq<u8>, f: Frag)
    ensures Flat(mem, [f]) == Data(mem, f)
  {
    assert [f][1..] == [];
    assert Data(mem, f) + [] == Data(mem, f);
  }

  /** Around one fragment. */
  lemma FlatAt(mem: seq<u8>, fs: seq<Frag>, k: nat)
    requires k < |fs|
    ensures Flat(mem, fs) == Flat(mem, fs[..k]) + Data(mem, fs[k]) + Flat(mem, fs[k + 1..])
  {
    hide Flat, Data;
    assert fs == fs[..k] + ([fs[k]] + fs[k + 1..]);
    FlatAppend(mem, fs[..k], [fs[k]] + fs[k + 1..]);
    FlatAppend(mem, [fs[k]], fs[k + 1..]);
    FlatOne(mem, fs[k]);
    assert Flat(mem, fs[..k]) + (Data(mem, fs[k]) + Flat(mem, fs[k + 1..]))
        == Flat(mem, fs[..k]) + Data(mem, fs[k]) + Flat(mem, fs[k + 1..]);
  }

  lemma {:induction false} FlatLength(mem: seq<u8>, fs: seq<Frag>)
    requires FragsOk(fs, |mem|)
    ensures |Flat(mem, fs)| == Total(fs)
    decreases |fs|
  {
    if fs != [] {
      assert FragOk(fs[0], |mem|);
      assert forall i :: 0 <= i < |fs[1..]| ==> fs[1..][i] == fs[i + 1];
      FlatLength(mem, fs[1..]);
    }
  }

  lemma {:induction false} TotalAppend(a: seq<Frag>, b: seq<Frag>)
    ensures Total(a + b) == Total(a) + Total(b)
    decreases |a|
  {
    if a == [] {
      assert a + b == b;
    } else {
      assert (a + b)[0] == a[0] && (a + b)[1..] == a[1..] + b;
      TotalAppend(a[1..], b);
    }
  }

  lemma TotalAt(fs: seq<Frag>, k: nat)
    requires k < |fs|
    ensures Total(fs[..k + 1]) == Total(fs[..k]) + fs[k].size
    ensures Total(fs) == Total(fs[..k]) + fs[k].size + Total(fs[k + 1..])
  {
    assert fs[..k + 1] == fs[..k] + [fs[k]];
    TotalAppend(fs[..k], [fs[k]]);
    assert fs == fs[..k + 1] + fs[k + 1..];
    TotalAppend(fs[..k + 1], fs[k + 1..]);
    assert [fs[k]][1..] == [];
  }

  /** Memory changed only outside the fragments' windows. */
  ghost predicate Untouched(mem: seq<u8>, mem': seq<u8>, f: Frag) {
    |mem'| == |mem| && forall i :: f.base <= i < f.base + f.cap && i < |mem| ==> mem'[i] == mem[i]
  }

  lemma DataFrame(mem: seq<u8>, mem': seq<u8>, f: Frag)
    requires FragOk(f, |mem|) && Untouched(mem, mem', f)
    ensures Data(mem', f) == Data(mem, f)
  {
  }

  lemma {:induction false} FlatFrame(mem: seq<u8>, mem': seq<u8>, fs: seq<Frag>)
    requires FragsOk(fs, |mem|) && forall i :: 0 <= i < |fs| ==> Untouched(mem, mem', fs[i])
    ensures Flat(mem', fs) == Flat(mem, fs)
    decreases |fs|
  {
    if fs != [] {
      DataFrame(mem, mem', fs[0]);
      assert forall i :: 0 <= i < |fs[1..]| ==> fs[1..][i] == fs[i + 1];
      FlatFrame(mem, mem', fs[1..]);
    }
  }

  // ---------------------------------------------------------------- the cursor

  /** skip_offset stops at fragment k with rem bytes to go in it, having passed off - rem bytes. */
  ghost predicate CursorAt(fs: seq<Frag>, off: nat, k: nat, rem: nat) {
    && k <= |fs| && off == Total(fs[..k]) + rem && (k < |fs| ==> rem < fs[k].size)
  }

  /** The cursor of an offset inside the chain is inside a fragment; otherwise it is the end. */
  lemma CursorInside(fs: seq<Frag>, off: nat, k: nat, rem: nat)
    requires CursorAt(fs, off, k, rem)
    ensures k < |fs| <==> off < Total(fs)
  {
    if k < |fs| { TotalAt(fs, k); } else { assert fs[..k] == fs; }
  }

  /** What lies behind the cursor is what lies behind the offset. */
  lemma CursorFlat(mem: seq<u8>, fs: seq<Frag>, off: nat, k: nat, rem: nat)
    requires FragsOk(fs, |mem|) && CursorAt(fs, off, k, rem)
    ensures k < |fs| ==> off <= |Flat(mem, fs)| && Flat(mem, fs)[..off] == Flat(mem, fs[..k]) + Data(mem, fs[k])[..rem]
    ensures k < |fs| ==>
              off <= |Flat(mem, fs)| && Flat(mem, fs)[off..] == Data(mem, fs[k])[rem..] + Flat(mem, fs[k + 1..])
  {
    hide Flat, Data, FragsOk;
    if k < |fs| {
      FlatAt(mem, fs, k);
      SubOk(fs, |mem|, 0, k);
      FlatLength(mem, fs[..k]);
      OkAt(fs, |mem|, k);
      DataLength(mem, fs[k]);
      CutIn(Flat(mem, fs[..k]), Data(mem, fs[k]), Flat(mem, fs[k + 1..]), rem);
    }
  }

  lemma CutIn(a: seq<u8>, b: seq<u8>, c: seq<u8>, r: nat)
    requires r <= |b|
    ensures (a + b + c)[..|a| + r] == a + b[..r]
    ensures (a + b + c)[|a| + r..] == b[r..] + c
  {
  }

  lemma SubOk(fs: seq<Frag>, n: nat, i: nat, j: nat)
    requires FragsOk(fs, n) && i <= j <= |fs|
    ensures FragsOk(fs[i..j], n)
    ensures i == 0 ==> FragsOk(fs[..j], n)
    ensures j == |fs| ==> FragsOk(fs[i..], n)
  {
  }

  lemma SubApart(fs: seq<Frag>, i: nat, j: nat)
    requires Unaliased(fs) && i <= j <= |fs|
    ensures Unaliased(fs[i..j])
  {
  }

  // ---------------------------------------------------------------- changes to one fragment

  ghost predicate Within(g: Frag, f: Frag) {
    g.cap == 0 || (f.base <= g.base && g.base + g.cap <= f.base + f.cap)
  }

  /** Replacing a fragment by one in the same window keeps the windows apart. */
  lemma ReplaceOk(fs: seq<Frag>, n: nat, k: nat, g: Frag)
    requires FragsOk(fs, n) && Unaliased(fs) && k < |fs| && FragOk(g, n) && Within(g, fs[k])
    ensures FragsOk(fs[k := g], n) && Unaliased(fs[k := g])
  {
    var gs := fs[k := g];
    forall i, j | 0 <= i < j < |gs| ensures WindowsApart(gs[i], gs[j]) { assert WindowsApart(fs[i], fs[j]); }
  }

  /** Bytes written to memory. */
  function Splice(mem: seq<u8>, at: nat, r: seq<u8>): (mem': seq<u8>)
    requires at + |r| <= |mem|
    ensures |mem'| == |mem|
  {
    mem[..at] + r + mem[at + |r|..]
  }

  lemma SpliceAt(mem: seq<u8>, at: nat, r: seq<u8>)
    requires at + |r| <= |mem|
    ensures forall i :: 0 <= i < |mem| ==> Splice(mem, at, r)[i] == if at <= i < at + |r| then r[i - at] else mem[i]
  {
  }

  lemma SpliceIs(mem: seq<u8>, at: nat, r: seq<u8>, mem': seq<u8>)
    requires at + |r| <= |mem| == |mem'| && forall i :: 0 <= i < |mem| ==>
               mem'[i] == if at <= i < at + |r| then r[i - at] else mem[i]
    ensures mem' == Splice(mem, at, r)
  {
    SpliceAt(mem, at, r);
    hide Splice;
  }

  lemma SpliceNone(mem: seq<u8>, at: nat)
    requires at <= |mem|
    ensures Splice(mem, at, []) == mem
  {
  }

  /** Bytes written behind the data of a fragment are the fragment's only. */
  lemma WriteFrag(mem: seq<u8>, f: Frag, r: seq<u8>)
    requires FragOk(f, |mem|) && f.head + f.size + |r| <= f.base + f.cap
    ensures Data(Splice(mem, f.head + f.size, r), f.(size := f.size + |r|)) == Data(mem, f) + r
    ensures forall g :: FragOk(g, |mem|) && WindowsApart(f, g) ==> Untouched(mem, Splice(mem, f.head + f.size, r), g)
  {
    SpliceAt(mem, f.head + f.size, r);
    hide Splice;
  }

  ghost predicate OthersUntouched(mem: seq<u8>, mem': seq<u8>, fs: seq<Frag>, k: nat) {
    forall j :: 0 <= j < |fs| && j != k ==> Untouched(mem, mem', fs[j])
  }

  lemma FramesAround(mem: seq<u8>, mem': seq<u8>, fs: seq<Frag>, k: nat)
    requires FragsOk(fs, |mem|) && k < |fs| && OthersUntouched(mem, mem', fs, k)
    ensures Flat(mem', fs[..k]) == Flat(mem, fs[..k]) && Flat(mem', fs[k + 1..]) == Flat(mem, fs[k + 1..])
  {
    hide Untouched, Flat;
    SubOk(fs, |mem|, 0, k);
    SubOk(fs, |mem|, k + 1, |fs|);
    FlatFrame(mem, mem', fs[..k]);
    FlatFrame(mem, mem', fs[k + 1..]);
  }

  lemma WriteOthers(mem: seq<u8>, fs: seq<Frag>, k: nat, r: seq<u8>)
    requires FragsOk(fs, |mem|) && Unaliased(fs) && k < |fs|
             && fs[k].head + fs[k].size + |r| <= fs[k].base + fs[k].cap <= |mem|
    ensures OthersUntouched(mem, Splice(mem, fs[k].head + fs[k].size, r), fs, k)
  {
    hide Untouched, Splice;
    assert FragOk(fs[k], |mem|);
    WriteFrag(mem, fs[k], r);
    forall j | 0 <= j < |fs| && j != k ensures WindowsApart(fs[k], fs[j]) {
      if j < k { assert WindowsApart(fs[j], fs[k]); } else { assert WindowsApart(fs[k], fs[j]); }
    }
  }

  lemma GrowOk(fs: seq<Frag>, n: nat, k: nat, more: nat)
    requires FragsOk(fs, n) && Unaliased(fs) && k < |fs| && fs[k].head + fs[k].size + more <= fs[k].base + fs[k].cap
    ensures FragsOk(fs[k := fs[k].(size := fs[k].size + more)], n)
            && Unaliased(fs[k := fs[k].(size := fs[k].size + more)])
  {
    hide Unaliased;
    assert FragOk(fs[k], n);
    ReplaceOk(fs, n, k, fs[k].(size := fs[k].size + more));
  }

  /** A chain in which fragment k has been written to. */
  lemma WriteFlat(mem: seq<u8>, fs: seq<Frag>, k: nat, r: seq<u8>)
    requires FragsOk(fs, |mem|) && Unaliased(fs) && k < |fs|
             && fs[k].head + fs[k].size + |r| <= fs[k].base + fs[k].cap <= |mem|
    ensures var mem', g := Splice(mem, fs[k].head + fs[k].size, r), fs[k].(size := fs[k].size + |r|);
            Flat(mem', fs[k := g]) == Flat(mem, fs[..k]) + (Data(mem, fs[k]) + r) + Flat(mem, fs[k + 1..])
  {
    hide *;
    var f := fs[k];
    var mem', g := Splice(mem, f.head + f.size, r), f.(size := f.size + |r|);
    WriteData(mem, fs, k, r);
    WriteOthers(mem, fs, k, r);
    FramesAround(mem, mem', fs, k);
    FlatAt(mem', fs[k := g], k);
    assert fs[k := g][..k] == fs[..k] && fs[k := g][k + 1..] == fs[k + 1..];
  }

  lemma WriteData(mem: seq<u8>, fs: seq<Frag>, k: nat, r: seq<u8>)
    requires FragsOk(fs, |mem|) && k < |fs| && fs[k].head + fs[k].size + |r| <= fs[k].base + fs[k].cap <= |mem|
    ensures Data(Splice(mem, fs[k].head + fs[k].size, r), fs[k].(size := fs[k].size + |r|)) == Data(mem, fs[k]) + r
  {
    assert FragOk(fs[k], |mem|);
    WriteFrag(mem, fs[k], r);
  }

  // ---------------------------------------------------------------- skipping, dropping and splitting

  function Min(a: nat, b: nat): nat {
    if a <= b then a else b
  }

  /** fragment::skip_bytes; a fragment without a blob is reset. */
  function SkipFrag(f: Frag, len: nat): Frag {
    var n := Min(f.size, len);
    if f.cap == 0 then Frag(0, 0, 0, 0) else f.(head := f.head + n, size := f.size - n)
  }

  function DropFrag(f: Frag, len: nat): Frag {
    f.(size := f.size - Min(len, f.size))
  }

  /** fragment::split leaves the first sz bytes, and the headroom, where they are ... */
  function FrontOf(f: Frag, sz: nat): Frag {
    if f.base <= f.head then f.(cap := f.head - f.base + sz, size := sz) else f
  }

  /** ... and the rest, with the tailroom, goes to the fragment returned. */
  function BackOf(f: Frag, sz: nat): Frag {
    if sz <= f.size && f.head + sz <= f.base + f.cap then
      Frag(f.head + sz, f.base + f.cap - f.head - sz, f.head + sz, f.size - sz)
    else f
  }

  lemma SkipFragOk(mem: seq<u8>, f: Frag, len: nat)
    requires FragOk(f, |mem|)
    ensures FragOk(SkipFrag(f, len), |mem|) && Within(SkipFrag(f, len), f)
    ensures Data(mem, SkipFrag(f, len)) == Data(mem, f)[Min(f.size, len)..]
  {
  }

  lemma DropFragOk(mem: seq<u8>, f: Frag, len: nat)
    requires FragOk(f, |mem|)
    ensures FragOk(DropFrag(f, len), |mem|) && Within(DropFrag(f, len), f)
    ensures Data(mem, DropFrag(f, len)) == Data(mem, f)[..f.size - Min(f.size, len)]
  {
  }

  lemma SplitFragOk(mem: seq<u8>, f: Frag, sz: nat)
    requires FragOk(f, |mem|) && sz < f.size && (sz > 0 || f.head > f.base)
    ensures FragOk(FrontOf(f, sz), |mem|) && FragOk(BackOf(f, sz), |mem|)
    ensures Within(FrontOf(f, sz), f) && Within(BackOf(f, sz), f) && WindowsApart(FrontOf(f, sz), BackOf(f, sz))
    ensures Data(mem, FrontOf(f, sz)) == Data(mem, f)[..sz] && Data(mem, BackOf(f, sz)) == Data(mem, f)[sz..]
    ensures FrontOf(f, sz).size == sz && BackOf(f, sz).size == f.size - sz
    ensures Data(mem, FrontOf(f, sz)) + Data(mem, BackOf(f, sz)) == Data(mem, f)
  {
    hide Data;
    DataLength(mem, f);
    DataIs(mem, f);
    DataIs(mem, FrontOf(f, sz));
    DataIs(mem, BackOf(f, sz));
    SliceSlice(mem, f.head, f.head + f.size, 0, sz);
    SliceSlice(mem, f.head, f.head + f.size, sz, f.size);
    var d := Data(mem, f);
    assert d[0..sz] == d[..sz] && d[sz..f.size] == d[sz..];
  }

  /** The two windows make up the old one: the front keeps its headroom and ends where its data end, the
      back begins there, without headroom, and keeps the tailroom. */
  lemma SplitWindows(f: Frag, sz: nat, n: nat)
    requires FragOk(f, n) && sz < f.size
    ensures var g := FrontOf(f, sz);
            g.base == f.base && g.head == f.head && g.size == sz && g.base + g.cap == f.head + sz
    ensures var b := BackOf(f, sz);
            b.base == f.head + sz && b.head == b.base && b.size == f.size - sz && b.base + b.cap == f.base + f.cap
  {
  }

  /** The room in front of a chain's data begins at its first blob ... */
  ghost function FrontEdge(fs: seq<Frag>): (nat, nat) {
    if fs == [] then (0, 0) else (fs[0].base, fs[0].head)
  }

  /** ... and that behind them is its last fragment's. */
  ghost function EndRoom(fs: seq<Frag>): nat {
    if fs == [] then 0 else Tailroom(fs[|fs| - 1])
  }

  /** Cutting a fragment of a chain leaves the room at both ends as it was. */
  lemma CutEnds(fs: seq<Frag>, n: nat, k: nat, rem: nat)
    requires k < |fs| && FragsOk(fs, n) && rem < fs[k].size
    ensures var gs := fs[..k] + [FrontOf(fs[k], rem), BackOf(fs[k], rem)] + fs[k + 1..];
            EndRoom(gs) == EndRoom(fs) && FrontEdge(gs) == FrontEdge(fs)
  {
    hide FrontOf, BackOf, FragsOk;
    OkAt(fs, n, k);
    SplitWindows(fs[k], rem, n);
  }

  lemma PartEnds(fs: seq<Frag>, k: nat)
    requires k <= |fs|
    ensures k > 0 ==> FrontEdge(fs[..k]) == FrontEdge(fs)
    ensures k < |fs| ==> EndRoom(fs[k..]) == EndRoom(fs)
  {
    hide Tailroom;
  }

  /** A chain without its first k fragments and the first rem bytes of the next. */
  lemma SkipFlat(mem: seq<u8>, fs: seq<Frag>, off: nat, k: nat, rem: nat)
    requires FragsOk(fs, |mem|) && Unaliased(fs) && CursorAt(fs, off, k, rem) && k < |fs|
    ensures var gs := [SkipFrag(fs[k], rem)] + fs[k + 1..];
            FragsOk(gs, |mem|) && Unaliased(gs) && off <= |Flat(mem, fs)| && Flat(mem, gs) == Flat(mem, fs)[off..]
    ensures SkipFrag(fs[k], rem).size == fs[k].size - rem
  {
    hide Flat, Data, Unaliased, SkipFrag, FragsOk;
    OkAt(fs, |mem|, k);
    SkipFragOk(mem, fs[k], rem);
    SkipSize(fs[k], rem);
    var g := SkipFrag(fs[k], rem);
    ReplaceOk(fs, |mem|, k, g);
    SubOk(fs[k := g], |mem|, k, |fs|);
    SubApart(fs[k := g], k, |fs|);
    assert fs[k := g][k..] == [g] + fs[k + 1..] == fs[k := g][k..|fs|];
    CursorFlat(mem, fs, off, k, rem);
    FlatAppend(mem, [g], fs[k + 1..]);
    FlatOne(mem, g);
  }

  lemma SkipSize(f: Frag, rem: nat)
    requires rem < f.size && f.base <= f.head && f.head + f.size <= f.base + f.cap
    ensures SkipFrag(f, rem).size == f.size - rem && Min(f.size, rem) == rem
  {
  }

  lemma OkAt(fs: seq<Frag>, n: nat, k: nat)
    requires FragsOk(fs, n) && k < |fs|
    ensures FragOk(fs[k], n)
  {
  }

  lemma EndsInside(fs: seq<Frag>, n: nat, k: nat)
    requires FragsOk(fs, n) && k < |fs|
    ensures fs[k].head + fs[k].size <= fs[k].base + fs[k].cap
  {
  }

  /** The cursor from the back: the fragments from k on are passed, rem bytes of the one before. */
  ghost predicate CursorBack(fs: seq<Frag>, off: nat, k: nat, rem: nat) {
    && k <= |fs| && off == Total(fs[k..]) + rem && (k > 0 ==> rem < fs[k - 1].size)
  }

  lemma CursorBackInside(fs: seq<Frag>, off: nat, k: nat, rem: nat)
    requires CursorBack(fs, off, k, rem)
    ensures k > 0 <==> off < Total(fs)
  {
    if k > 0 { TotalAt(fs, k - 1); } else { assert fs[0..] == fs; }
  }

  /** A chain without the fragments from k on and the last rem bytes of the one before. */
  lemma DropFlat(mem: seq<u8>, fs: seq<Frag>, off: nat, k: nat, rem: nat)
    requires FragsOk(fs, |mem|) && Unaliased(fs) && CursorBack(fs, off, k, rem) && k > 0
    ensures var gs := fs[..k - 1] + [DropFrag(fs[k - 1], rem)];
            FragsOk(gs, |mem|) && Unaliased(gs) && off <= |Flat(mem, fs)|
            && Flat(mem, gs) == Flat(mem, fs)[..|Flat(mem, fs)| - off]
    ensures DropFrag(fs[k - 1], rem).size == fs[k - 1].size - rem
  {
    hide Flat, Data, Unaliased, DropFrag, FragsOk;
    OkAt(fs, |mem|, k - 1);
    DropFragOk(mem, fs[k - 1], rem);
    DropSize(fs[k - 1], rem);
    var g := DropFrag(fs[k - 1], rem);
    ReplaceOk(fs, |mem|, k - 1, g);
    SubOk(fs[k - 1 := g], |mem|, 0, k);
    SubApart(fs[k - 1 := g], 0, k);
    assert fs[k - 1 := g][0..k] == fs[..k - 1] + [g];
    FlatAt(mem, fs, k - 1);
    FlatAppend(mem, fs[..k - 1], [g]);
    FlatOne(mem, g);
    SubOk(fs, |mem|, k, |fs|);
    FlatLength(mem, fs[k..]);
    DataLength(mem, fs[k - 1]);
    CutBack(Flat(mem, fs[..k - 1]), Data(mem, fs[k - 1]), Flat(mem, fs[k..]), rem);
  }

  lemma DropSize(f: Frag, rem: nat)
    requires rem < f.size
    ensures DropFrag(f, rem).size == f.size - rem && Min(f.size, rem) == rem
  {
  }

  lemma DataLength(mem: seq<u8>, f: Frag)
    requires FragOk(f, |mem|)
    ensures |Data(mem, f)| == f.size
  {
  }

  lemma CutBack(a: seq<u8>, b: seq<u8>, c: seq<u8>, r: nat)
    requires r <= |b|
    ensures (a + b + c)[..|a + b + c| - (|c| + r)] == a + b[..|b| - r]
  {
  }

  /** Cutting fragment k in two changes neither the content nor the disjointness of the chain. */
  lemma SplitFlat(mem: seq<u8>, fs: seq<Frag>, k: nat, rem: nat)
    requires FragsOk(fs, |mem|) && Unaliased(fs) && k < |fs| && 0 < rem < fs[k].size
    ensures var gs := fs[..k] + [FrontOf(fs[k], rem), BackOf(fs[k], rem)] + fs[k + 1..];
            FragsOk(gs, |mem|) && Unaliased(gs) && Flat(mem, gs) == Flat(mem, fs) && Total(gs) == Total(fs)
  {
    hide Flat, Data, FrontOf, BackOf, Total;
    var f, g, h := fs[k], FrontOf(fs[k], rem), BackOf(fs[k], rem);
    OkAt(fs, |mem|, k);
    SplitFragOk(mem, f, rem);
    SplitApart(fs, k, g, h);
    var gs := fs[..k] + [g, h] + fs[k + 1..];
    assert forall i :: 0 <= i < |gs| ==>
             gs[i] == (if i < k then fs[i] else if i == k then g else if i == k + 1 then h else fs[i - 1]);
    hide Unaliased;
    SplitContent(mem, fs, k, g, h);
  }

  lemma SplitApart(fs: seq<Frag>, k: nat, g: Frag, h: Frag)
    requires Unaliased(fs) && k < |fs| && Within(g, fs[k]) && Within(h, fs[k]) && WindowsApart(g, h)
    ensures Unaliased(fs[..k] + [g, h] + fs[k + 1..])
  {
    var gs := fs[..k] + [g, h] + fs[k + 1..];
    forall i, j | 0 <= i < j < |gs| ensures WindowsApart(gs[i], gs[j]) {
      var i0, j0 := if i <= k then i else i - 1, if j <= k then j else j - 1;
      if i0 != j0 { assert WindowsApart(fs[i0], fs[j0]); }
    }
  }

  lemma SplitContent(mem: seq<u8>, fs: seq<Frag>, k: nat, g: Frag, h: Frag)
    requires k < |fs| && Data(mem, g) + Data(mem, h) == Data(mem, fs[k]) && g.size + h.size == fs[k].size
    ensures Flat(mem, fs[..k] + [g, h] + fs[k + 1..]) == Flat(mem, fs)
    ensures Total(fs[..k] + [g, h] + fs[k + 1..]) == Total(fs)
  {
    hide Data;
    var gh := [g, h];
    assert gh == [g] + [h];
    FlatAppend(mem, [g], [h]);
    FlatOne(mem, g);
    FlatOne(mem, h);
    FlatAppend(mem, fs[..k] + gh, fs[k + 1..]);
    FlatAppend(mem, fs[..k], gh);
    FlatAt(mem, fs, k);
    TotalAt(fs, k);
    TotalAppend(fs[..k] + gh, fs[k + 1..]);
    TotalAppend(fs[..k], gh);
    TotalTwo(g, h);
  }

  lemma TotalTwo(g: Frag, h: Frag)
    ensures Total([g, h]) == g.size + h.size
  {
    assert [g, h][1..] == [h] && [h][1..] == [];
    assert Total([h]) == h.size;
  }

  lemma EmptyChain(mem: seq<u8>, n: nat)
    ensures Flat(mem, []) == [] && Total([]) == 0 && FragsOk([], n) && Unaliased([])
  {
  }

  lemma SplitTotal(fs: seq<Frag>, k: nat, rem: nat)
    requires k < |fs| && rem < fs[k].size && fs[k].base <= fs[k].head
    ensures Total((fs[..k] + [FrontOf(fs[k], rem), BackOf(fs[k], rem)] + fs[k + 1..])[..k + 1]) == Total(fs[..k]) + rem
  {
    var g, h := FrontOf(fs[k], rem), BackOf(fs[k], rem);
    assert (fs[..k] + [g, h] + fs[k + 1..])[..k + 1] == fs[..k] + [g];
    TotalAppend(fs[..k], [g]);
    assert [g][1..] == [];
  }

  /** A chain cut between two fragments. */
  lemma CutChain(mem: seq<u8>, fs: seq<Frag>, k: nat)
    requires FragsOk(fs, |mem|) && Unaliased(fs) && k <= |fs|
    ensures FragsOk(fs[..k], |mem|) && FragsOk(fs[k..], |mem|) && Unaliased(fs[..k]) && Unaliased(fs[k..])
            && AllApart(fs[..k], fs[k..])
    ensures Flat(mem, fs[..k]) + Flat(mem, fs[k..]) == Flat(mem, fs) && Total(fs[..k]) + Total(fs[k..]) == Total(fs)
  {
    hide Flat, Total, Unaliased, FragsOk;
    SubOk(fs, |mem|, 0, k);
    SubOk(fs, |mem|, k, |fs|);
    SubApart(fs, 0, k);
    SubApart(fs, k, |fs|);
    assert fs[..k] == fs[0..k] && fs[k..] == fs[k..|fs|];
    assert fs[..k] + fs[k..] == fs;
    FlatAppend(mem, fs[..k], fs[k..]);
    TotalAppend(fs[..k], fs[k..]);
    CutApart(fs, k);
  }

  lemma CutApart(fs: seq<Frag>, k: nat)
    requires Unaliased(fs) && k <= |fs|
    ensures AllApart(fs[..k], fs[k..])
  {
    var a, b := fs[..k], fs[k..];
    forall i, j | 0 <= i < |a| && 0 <= j < |b| ensures WindowsApart(a[i], b[j]) {
      assert a[i] == fs[i] && b[j] == fs[k + j];
    }
  }

  lemma PrefixTotal(fs: seq<Frag>, k: nat)
    requires k <= |fs|
    ensures Total(fs[..k]) <= Total(fs)
  {
    assert fs[..k] + fs[k..] == fs;
    TotalAppend(fs[..k], fs[k..]);
  }

  lemma ApartNone(fs: seq<Frag>)
    ensures AllApart(fs, []) && AllApart([], fs)
  {
  }

  function Tailroom(f: Frag): nat {
    if f.head + f.size <= f.base + f.cap then f.base + f.cap - (f.head + f.size) else 0
  }

  lemma JoinChain(mem: seq<u8>, a: seq<Frag>, b: seq<Frag>)
    requires FragsOk(a, |mem|) && FragsOk(b, |mem|) && Unaliased(a) && Unaliased(b) && AllApart(a, b)
    ensures FragsOk(a + b, |mem|) && Unaliased(a + b) && Flat(mem, a + b) == Flat(mem, a) + Flat(mem, b)
            && Total(a + b) == Total(a) + Total(b)
  {
    hide Flat, Total;
    FlatAppend(mem, a, b);
    TotalAppend(a, b);
    var c := a + b;
    forall i, j | 0 <= i < j < |c| ensures WindowsApart(c[i], c[j]) {
      if i < |a| && j >= |a| { assert WindowsApart(a[i], b[j - |a|]); }
      else if i >= |a| { assert WindowsApart(b[i - |a|], b[j - |a|]); }
    }
  }

  // ---------------------------------------------------------------- reading

  /** What is still to be read at fragment k, off bytes in. */
  ghost function Rest(mem: seq<u8>, fs: seq<Frag>, k: nat, off: nat): seq<u8> {
    if k < |fs| && off <= |Data(mem, fs[k])| then Data(mem, fs[k])[off..] + Flat(mem, fs[k + 1..]) else []
  }

  lemma RestStart(mem: seq<u8>, fs: seq<Frag>, offset: nat, k: nat, off: nat)
    requires FragsOk(fs, |mem|) && CursorAt(fs, offset, k, off) && k < |fs|
    ensures offset <= |Flat(mem, fs)| && Rest(mem, fs, k, off) == Flat(mem, fs)[offset..]
  {
    CursorFlat(mem, fs, offset, k, off);
    OkAt(fs, |mem|, k);
    DataLength(mem, fs[k]);
  }

  /** After ret bytes of fragment k, which are the next of the content. */
  lemma RestStep(mem: seq<u8>, fs: seq<Frag>, k: nat, off: nat, ret: nat, c: seq<u8>, at: nat)
    requires FragsOk(fs, |mem|) && k < |fs| && at <= |c| && Rest(mem, fs, k, off) == c[at..]
    requires if off >= fs[k].size then ret == 0 && off == 0 else off + ret <= fs[k].size
    ensures at + ret <= |c|
    ensures off < fs[k].size ==> |Data(mem, fs[k])| == fs[k].size && Data(mem, fs[k])[off..off + ret] == c[at..at + ret]
    ensures off >= fs[k].size || off + ret == fs[k].size ==> Rest(mem, fs, k + 1, 0) == c[at + ret..]
  {
    hide Flat, Data;
    OkAt(fs, |mem|, k);
    DataLength(mem, fs[k]);
    var d, t := Data(mem, fs[k]), Flat(mem, fs[k + 1..]);
    assert c[at..] == d[off..] + t;
    PartsOfSum(d[off..], t, c[at..], ret);
    assert c[at..][..ret] == c[at..at + ret] && c[at..][ret..] == c[at + ret..];
    assert off + ret <= |d| ==> d[off..][..ret] == d[off..off + ret];
    RestNext(mem, fs, k);
  }

  lemma PartsOfSum(a: seq<u8>, b: seq<u8>, c: seq<u8>, n: nat)
    requires c == a + b && n <= |a|
    ensures n <= |c| && c[..n] == a[..n] && (n == |a| ==> c[n..] == b)
  {
  }

  lemma RestNext(mem: seq<u8>, fs: seq<Frag>, k: nat)
    requires FragsOk(fs, |mem|) && k < |fs|
    ensures Rest(mem, fs, k + 1, 0) == Flat(mem, fs[k + 1..])
  {
    if k + 1 < |fs| {
      assert fs[k + 1..][0] == fs[k + 1] && fs[k + 1..][1..] == fs[k + 2..];
    }
  }

  lemma SpliceMore(was: seq<u8>, c: seq<u8>, at: nat, n: nat, ret: nat)
    requires at + n + ret <= |c| && n + ret <= |was|
    ensures Splice(Splice(was, 0, c[at..at + n]), n, c[at + n..at + n + ret]) == Splice(was, 0, c[at..at + n + ret])
  {
    SpliceAt(was, 0, c[at..at + n]);
    SpliceAt(Splice(was, 0, c[at..at + n]), n, c[at + n..at + n + ret]);
    SpliceAt(was, 0, c[at..at + n + ret]);
    hide Splice;
    var a, b := Splice(Splice(was, 0, c[at..at + n]), n, c[at + n..at + n + ret]), Splice(was, 0, c[at..at + n + ret]);
    assert forall i :: 0 <= i < |was| ==> a[i] == b[i];
  }

  lemma SpliceParts(was: seq<u8>, r: seq<u8>)
    requires |r| <= |was|
    ensures Splice(was, 0, r)[..|r|] == r && Splice(was, 0, r)[|r|..] == was[|r|..]
  {
  }

  // ---------------------------------------------------------------- writing

  lemma WriteLast(mem: seq<u8>, fs: seq<Frag>, r: seq<u8>)
    requires FragsOk(fs, |mem|) && fs != []
    ensures Flat(mem, fs[..|fs| - 1]) + (Data(mem, fs[|fs| - 1]) + r) + Flat(mem, fs[|fs| - 1 + 1..])
            == Flat(mem, fs) + r
  {
    hide Data, Flat;
    var k := |fs| - 1;
    FlatAt(mem, fs, k);
    assert fs[k + 1..] == [];
    EmptyChain(mem, |mem|);
    AppendAfter(Flat(mem, fs[..k]), Data(mem, fs[k]), r);
  }

  lemma AppendAfter(a: seq<u8>, d: seq<u8>, r: seq<u8>)
    ensures a + (d + r) + [] == (a + d + []) + r
  {
  }

  lemma TotalReplace(fs: seq<Frag>, k: nat, g: Frag)
    requires k < |fs|
    ensures Total(fs[k := g]) == Total(fs) - fs[k].size + g.size
  {
    TotalAt(fs, k);
    TotalAt(fs[k := g], k);
    assert fs[k := g][..k] == fs[..k] && fs[k := g][k + 1..] == fs[k + 1..];
  }

  // ---------------------------------------------------------------- fragments kept empty

  ghost predicate Emptied(vs: seq<Frag>, gs: seq<Frag>, lo: nat, hi: nat, front: bool) {
    && |gs| == |vs|
    && forall i :: 0 <= i < |vs| ==>
         gs[i] == if !(lo <= i < hi) then vs[i]
                  else if front then SkipFrag(vs[i], vs[i].size)
                  else DropFrag(vs[i], vs[i].size)
  }

  lemma EmptiedOk(vs: seq<Frag>, gs: seq<Frag>, n: nat, lo: nat, hi: nat, front: bool)
    requires Emptied(vs, gs, lo, hi, front) && FragsOk(vs, n) && Unaliased(vs)
    ensures FragsOk(gs, n) && Unaliased(gs)
    ensures forall i :: lo <= i < hi && i < |gs| ==> gs[i].size == 0
  {
    forall i | 0 <= i < |gs|
      ensures FragOk(gs[i], n) && Within(gs[i], vs[i]) && (lo <= i < hi ==> gs[i].size == 0)
    {
      assert FragOk(vs[i], n);
    }
    forall i, j | 0 <= i < j < |gs| ensures WindowsApart(gs[i], gs[j]) { assert WindowsApart(vs[i], vs[j]); }
  }

  lemma {:induction false} AllEmpty(mem: seq<u8>, fs: seq<Frag>)
    requires forall i :: 0 <= i < |fs| ==> fs[i].size == 0
    ensures Flat(mem, fs) == [] && Total(fs) == 0
    decreases |fs|
  {
    if fs != [] {
      assert forall i :: 0 <= i < |fs[1..]| ==> fs[1..][i] == fs[i + 1];
      AllEmpty(mem, fs[1..]);
    }
  }

  lemma EmptiedNone(vs: seq<Frag>, lo: nat, front: bool)
    ensures Emptied(vs, vs, lo, lo, front)
  {
  }

  lemma EmptiedMore(vs: seq<Frag>, gs: seq<Frag>, lo: nat, i: nat, front: bool)
    requires Emptied(vs, gs, lo, i, front) && lo <= i < |vs|
    ensures |gs| == |vs| && gs[i] == vs[i]
    ensures Emptied(vs, gs[i := if front then SkipFrag(vs[i], vs[i].size) else DropFrag(vs[i], vs[i].size)], lo, i + 1,
                    front)
  {
    hide SkipFrag, DropFrag;
  }

  lemma EmptyFront(mem: seq<u8>, vs: seq<Frag>, gs: seq<Frag>, k: nat)
    requires Emptied(vs, gs, 0, k, true) && FragsOk(vs, |mem|) && Unaliased(vs) && k <= |vs|
    ensures FragsOk(gs, |mem|) && Unaliased(gs) && Flat(mem, gs) == Flat(mem, vs[k..]) && Total(gs) == Total(vs[k..])
  {
    hide Flat, Total, SkipFrag, DropFrag, FragsOk, Unaliased;
    EmptiedOk(vs, gs, |mem|, 0, k, true);
    assert gs[k..] == vs[k..];
    assert forall i :: 0 <= i < k ==> gs[..k][i] == gs[i];
    AllEmpty(mem, gs[..k]);
    CutChain(mem, gs, k);
  }

  lemma EmptyBack(mem: seq<u8>, vs: seq<Frag>, gs: seq<Frag>, k: nat)
    requires Emptied(vs, gs, k, |vs|, false) && FragsOk(vs, |mem|) && Unaliased(vs) && k <= |vs|
    ensures FragsOk(gs, |mem|) && Unaliased(gs) && Flat(mem, gs) == Flat(mem, vs[..k]) && Total(gs) == Total(vs[..k])
  {
    hide Flat, Total, SkipFrag, DropFrag, FragsOk, Unaliased;
    EmptiedOk(vs, gs, |mem|, k, |vs|, false);
    assert gs[..k] == vs[..k];
    assert forall i :: 0 <= i < |gs[k..]| ==> gs[k..][i] == gs[k + i];
    AllEmpty(mem, gs[k..]);
    CutChain(mem, gs, k);
  }

  /** skip_bytes at its cursor: the chain with fragment k shortened, from k on, is what remains. */
  lemma SkipPlan(mem: seq<u8>, vs: seq<Frag>, sz: nat, k: nat, rem: nat)
    requires FragsOk(vs, |mem|) && Unaliased(vs) && CursorAt(vs, sz, k, rem)
    ensures |Flat(mem, vs)| == Total(vs)
    ensures k == |vs| ==> vs[k..] == [] && sz >= Total(vs) && FragsOk(vs[k..], |mem|) && Unaliased(vs[k..])
    ensures k < |vs| ==> sz < Total(vs) && FragOk(vs[k], |mem|) && SkipFrag(vs[k], rem).size > 0
    ensures k < |vs| ==> var vs1 := vs[k := SkipFrag(vs[k], rem)];
              FragsOk(vs1, |mem|) && Unaliased(vs1) && FragsOk(vs1[k..], |mem|) && Unaliased(vs1[k..])
              && Flat(mem, vs1[k..]) == Flat(mem, vs)[sz..] && Total(vs1[k..]) == Total(vs) - sz
  {
    hide Flat, Total, SkipFrag, FragsOk, Unaliased, CursorAt;
    FlatLength(mem, vs);
    CursorInside(vs, sz, k, rem);
    CursorSum(vs, sz, k, rem);
    EmptyChain(mem, |mem|);
    if k < |vs| {
      var g := SkipFrag(vs[k], rem);
      OkAt(vs, |mem|, k);
      SkipFragOk(mem, vs[k], rem);
      ReplaceOk(vs, |mem|, k, g);
      SkipFlat(mem, vs, sz, k, rem);
      TotalReplace(vs, k, g);
      CutChain(mem, vs[k := g], k);
      assert vs[k := g][..k] == vs[..k] && vs[k := g][k..] == [g] + vs[k + 1..];
    }
  }

  lemma CursorSum(vs: seq<Frag>, sz: nat, k: nat, rem: nat)
    requires CursorAt(vs, sz, k, rem)
    ensures k <= |vs| && sz == Total(vs[..k]) + rem && (k < |vs| ==> rem < vs[k].size)
  {
  }

  /** ignore_bytes_at_end at its cursor. */
  lemma DropPlan(mem: seq<u8>, vs: seq<Frag>, sz: nat, k: nat, rem: nat)
    requires FragsOk(vs, |mem|) && Unaliased(vs) && CursorBack(vs, sz, k, rem)
    ensures |Flat(mem, vs)| == Total(vs)
    ensures k == 0 ==> vs[..k] == [] && sz >= Total(vs) && FragsOk(vs[..k], |mem|) && Unaliased(vs[..k])
    ensures k > 0 ==> sz < Total(vs) && FragOk(vs[k - 1], |mem|)
    ensures k > 0 ==> var vs1 := vs[k - 1 := DropFrag(vs[k - 1], rem)];
              FragsOk(vs1, |mem|) && Unaliased(vs1) && FragsOk(vs1[..k], |mem|) && Unaliased(vs1[..k])
              && Flat(mem, vs1[..k]) == Flat(mem, vs)[..Total(vs) - sz] && Total(vs1[..k]) == Total(vs) - sz
  {
    hide Flat, Total, DropFrag, FragsOk, Unaliased, CursorBack;
    FlatLength(mem, vs);
    CursorBackInside(vs, sz, k, rem);
    CursorBackSum(vs, sz, k, rem);
    EmptyChain(mem, |mem|);
    if k > 0 {
      var g := DropFrag(vs[k - 1], rem);
      OkAt(vs, |mem|, k - 1);
      DropFragOk(mem, vs[k - 1], rem);
      ReplaceOk(vs, |mem|, k - 1, g);
      DropFlat(mem, vs, sz, k, rem);
      TotalReplace(vs, k - 1, g);
      CutChain(mem, vs[k - 1 := g], k);
      assert vs[k - 1 := g][..k] == vs[..k - 1] + [g] && vs[k - 1 := g][k..] == vs[k..];
    }
  }

  lemma CursorBackSum(vs: seq<Frag>, sz: nat, k: nat, rem: nat)
    requires CursorBack(vs, sz, k, rem)
    ensures k <= |vs| && sz == Total(vs[k..]) + rem && (k > 0 ==> rem < vs[k - 1].size)
  {
  }

  // ---------------------------------------------------------------- coalescing

  /** Fragment p has grown to w by the bytes of the fragments behind it, up to it; nothing else has
      changed. */
  ghost predicate Gathered(m0: seq<u8>, ws: seq<Frag>, mem: seq<u8>, p: nat, it: nat, w: Frag) {
    && p < it <= |ws| && FragOk(w, |mem|) && |mem| == |m0| && OthersUntouched(m0, mem, ws, p)
    && w == ws[p].(size := ws[p].size + Total(ws[p + 1..it]))
    && Data(mem, w) == Data(m0, ws[p]) + Flat(m0, ws[p + 1..it])
  }

  lemma GatherStart(m0: seq<u8>, ws: seq<Frag>, p: nat)
    requires FragsOk(ws, |m0|) && p < |ws|
    ensures Gathered(m0, ws, m0, p, p + 1, ws[p])
  {
    assert FragOk(ws[p], |m0|);
    assert ws[p + 1..p + 1] == [];
    assert Data(m0, ws[p]) + [] == Data(m0, ws[p]);
  }

  lemma GrownOk(m0: seq<u8>, ws: seq<Frag>, mem: seq<u8>, p: nat, it: nat, w: Frag)
    requires Gathered(m0, ws, mem, p, it, w)
    ensures FragOk(w, |mem|)
  {
  }

  lemma SliceMore(m0: seq<u8>, ws: seq<Frag>, lo: nat, it: nat)
    requires lo <= it < |ws|
    ensures Flat(m0, ws[lo..it + 1]) == Flat(m0, ws[lo..it]) + Data(m0, ws[it])
            && Total(ws[lo..it + 1]) == Total(ws[lo..it]) + ws[it].size
  {
    assert ws[lo..it + 1] == ws[lo..it] + [ws[it]];
    FlatAppend(m0, ws[lo..it], [ws[it]]);
    TotalAppend(ws[lo..it], [ws[it]]);
    FlatOne(m0, ws[it]);
    assert [ws[it]][1..] == [];
  }

  lemma GatherStep(m0: seq<u8>, ws: seq<Frag>, mem: seq<u8>, p: nat, it: nat, w: Frag)
    requires FragsOk(ws, |m0|) && Unaliased(ws) && Gathered(m0, ws, mem, p, it, w) && it < |ws|
    requires w.head + w.size + ws[it].size <= w.base + w.cap
    ensures |Data(mem, ws[it])| == ws[it].size && w.head + w.size + ws[it].size <= |mem|
    ensures Gathered(m0, ws, Splice(mem, w.head + w.size, Data(mem, ws[it])), p, it + 1,
                     w.(size := w.size + ws[it].size))
  {
    hide Data, Flat, Total, OthersUntouched, Splice, FragsOk, Unaliased;
    GatherData(m0, ws, mem, p, it);
    var r := Data(mem, ws[it]);
    WriteFrag(mem, w, r);
    SliceMore(m0, ws, p + 1, it);
    GatherOthers(m0, ws, mem, Splice(mem, w.head + w.size, r), p, w);
    assert Data(m0, ws[p]) + Flat(m0, ws[p + 1..it]) + r == Data(m0, ws[p]) + (Flat(m0, ws[p + 1..it]) + r);
  }

  lemma GatherData(m0: seq<u8>, ws: seq<Frag>, mem: seq<u8>, p: nat, it: nat)
    requires FragsOk(ws, |m0|) && |mem| == |m0| && OthersUntouched(m0, mem, ws, p) && p != it && it < |ws|
    ensures Data(mem, ws[it]) == Data(m0, ws[it]) && |Data(mem, ws[it])| == ws[it].size
  {
    OkAt(ws, |m0|, it);
    DataLength(mem, ws[it]);
    DataFrame(m0, mem, ws[it]);
  }

  lemma GatherOthers(m0: seq<u8>, ws: seq<Frag>, mem: seq<u8>, mem': seq<u8>, p: nat, w: Frag)
    requires FragsOk(ws, |m0|) && Unaliased(ws) && p < |ws| && OthersUntouched(m0, mem, ws, p) && |mem| == |m0|
    requires w.base == ws[p].base && w.cap == ws[p].cap && forall g :: FragOk(g, |mem|) && WindowsApart(w, g) ==>
               Untouched(mem, mem', g)
    ensures OthersUntouched(m0, mem', ws, p)
  {
    forall j | 0 <= j < |ws| && j != p ensures Untouched(m0, mem', ws[j]) {
      assert FragOk(ws[j], |m0|);
      if j < p { assert WindowsApart(ws[j], ws[p]); } else { assert WindowsApart(ws[p], ws[j]); }
      assert Untouched(mem, mem', ws[j]);
    }
  }

  lemma GatherDone(m0: seq<u8>, ws: seq<Frag>, mem: seq<u8>, p: nat, it: nat, w: Frag)
    requires FragsOk(ws, |m0|) && Unaliased(ws) && Gathered(m0, ws, mem, p, it, w)
    ensures var gs := ws[..p] + [w] + ws[it..];
            FragsOk(gs, |mem|) && Unaliased(gs) && Flat(mem, gs) == Flat(m0, ws) && Total(gs) == Total(ws)
  {
    GatheredOk(m0, ws, mem, p, it, w);
    GatheredFlat(m0, ws, mem, p, it, w);
  }

  lemma GatheredOk(m0: seq<u8>, ws: seq<Frag>, mem: seq<u8>, p: nat, it: nat, w: Frag)
    requires FragsOk(ws, |m0|) && Unaliased(ws) && Gathered(m0, ws, mem, p, it, w)
    ensures FragsOk(ws[..p] + [w] + ws[it..], |mem|) && Unaliased(ws[..p] + [w] + ws[it..])
  {
    hide Data, Flat, Total, OthersUntouched;
    var gs := ws[..p] + [w] + ws[it..];
    forall i | 0 <= i < |gs| ensures FragOk(gs[i], |mem|) {
      if i != p { assert FragOk(ws[if i < p then i else i - p - 1 + it], |m0|); }
    }
    forall i, j | 0 <= i < j < |gs| ensures WindowsApart(gs[i], gs[j]) {
      assert WindowsApart(ws[if i <= p then i else i - p - 1 + it], ws[if j <= p then j else j - p - 1 + it]);
    }
  }

  lemma GatheredFlat(m0: seq<u8>, ws: seq<Frag>, mem: seq<u8>, p: nat, it: nat, w: Frag)
    requires FragsOk(ws, |m0|) && Gathered(m0, ws, mem, p, it, w)
    ensures Flat(mem, ws[..p] + [w] + ws[it..]) == Flat(m0, ws) && Total(ws[..p] + [w] + ws[it..]) == Total(ws)
  {
    hide Data, Flat, Total, FragsOk, OthersUntouched;
    FramesAround(m0, mem, ws, p);
    FramesFrom(m0, mem, ws, p, it);
    FlatAppend(mem, ws[..p] + [w], ws[it..]);
    FlatAppend(mem, ws[..p], [w]);
    FlatOne(mem, w);
    FlatAt(m0, ws, p);
    assert ws[p + 1..] == ws[p + 1..it] + ws[it..];
    FlatAppend(m0, ws[p + 1..it], ws[it..]);
    Regroup(Flat(m0, ws[..p]), Data(m0, ws[p]), Flat(m0, ws[p + 1..it]), Flat(m0, ws[it..]));
    TotalAppend(ws[..p] + [w], ws[it..]);
    TotalAppend(ws[..p], [w]);
    TotalAt(ws, p);
    TotalAppend(ws[p + 1..it], ws[it..]);
    TotalOne(w);
  }

  lemma TotalOne(f: Frag)
    ensures Total([f]) == f.size
  {
    assert [f][1..] == [];
  }

  lemma Regroup(a: seq<u8>, b: seq<u8>, c: seq<u8>, d: seq<u8>)
    ensures a + (b + c) + d == a + b + (c + d)
  {
  }

  lemma FramesFrom(m0: seq<u8>, mem: seq<u8>, ws: seq<Frag>, p: nat, it: nat)
    requires FragsOk(ws, |m0|) && p < it <= |ws| && OthersUntouched(m0, mem, ws, p)
    ensures Flat(mem, ws[it..]) == Flat(m0, ws[it..])
  {
    hide Untouched, Flat;
    SubOk(ws, |m0|, it, |ws|);
    assert forall i :: 0 <= i < |ws[it..]| ==> ws[it..][i] == ws[it + i];
    FlatFrame(m0, mem, ws[it..]);
  }

  /** The first n bytes of fragment p + 1 move to the end of fragment p. */
  lemma ShiftPart(mem: seq<u8>, gs: seq<Frag>, p: nat, n: nat)
    requires FragsOk(gs, |mem|) && Unaliased(gs) && p + 1 < |gs| && n < gs[p + 1].size
    requires gs[p].head + gs[p].size + n <= gs[p].base + gs[p].cap
    ensures |Data(mem, gs[p + 1])| == gs[p + 1].size && gs[p].head + gs[p].size + n <= |mem|
    ensures var r := Data(mem, gs[p + 1])[..n];
            var mem' := Splice(mem, gs[p].head + gs[p].size, r);
            var hs := gs[p := gs[p].(size := gs[p].size + n)][p + 1 := SkipFrag(gs[p + 1], n)];
            FragsOk(hs, |mem'|) && Unaliased(hs) && Flat(mem', hs) == Flat(mem, gs) && Total(hs) == Total(gs)
  {
    hide Data, Flat, Total, FragsOk, Unaliased, SkipFrag, Splice, OthersUntouched;
    OkAt(gs, |mem|, p + 1);
    OkAt(gs, |mem|, p);
    DataLength(mem, gs[p + 1]);
    var r := Data(mem, gs[p + 1])[..n];
    var mem', w := Splice(mem, gs[p].head + gs[p].size, r), gs[p].(size := gs[p].size + n);
    GrowOk(gs, |mem|, p, n);
    WriteFlat(mem, gs, p, r);
    WriteOthers(mem, gs, p, r);
    DataKept(mem, mem', gs, p, p + 1);
    var g1 := gs[p := w];
    SkipFragOk(mem', gs[p + 1], n);
    SkipSize(gs[p + 1], n);
    ReplaceOk(g1, |mem|, p + 1, SkipFrag(gs[p + 1], n));
    TotalReplace(gs, p, w);
    TotalReplace(g1, p + 1, SkipFrag(gs[p + 1], n));
    WriteData(mem, gs, p, r);
    FramesAround(mem, mem', gs, p);
    FramesFrom(mem, mem', gs, p, p + 2);
    ShiftFlat(mem, mem', gs, p, n, w, SkipFrag(gs[p + 1], n), r);
  }

  lemma DataKept(mem: seq<u8>, mem': seq<u8>, fs: seq<Frag>, k: nat, j: nat)
    requires FragsOk(fs, |mem|) && OthersUntouched(mem, mem', fs, k) && j < |fs| && j != k
    ensures Data(mem', fs[j]) == Data(mem, fs[j])
  {
    OkAt(fs, |mem|, j);
    DataFrame(mem, mem', fs[j]);
  }

  lemma ShiftFlat(mem: seq<u8>, mem': seq<u8>, gs: seq<Frag>, p: nat, n: nat, w: Frag, s: Frag, r: seq<u8>)
    requires p + 1 < |gs| && n <= |Data(mem, gs[p + 1])| && r == Data(mem, gs[p + 1])[..n]
    requires Flat(mem', gs[..p]) == Flat(mem, gs[..p]) && Flat(mem', gs[p + 2..]) == Flat(mem, gs[p + 2..])
    requires Data(mem', w) == Data(mem, gs[p]) + r && Data(mem', s) == Data(mem, gs[p + 1])[n..]
    ensures Flat(mem', gs[p := w][p + 1 := s]) == Flat(mem, gs)
  {
    hide Data, Flat;
    var hs := gs[p := w][p + 1 := s];
    FlatAt(mem', hs, p);
    assert hs[..p] == gs[..p] && hs[p + 1..] == [s] + gs[p + 2..];
    FlatAppend(mem', [s], gs[p + 2..]);
    FlatOne(mem', s);
    FlatAt(mem, gs, p);
    assert gs[p + 1..] == [gs[p + 1]] + gs[p + 2..];
    FlatAppend(mem, [gs[p + 1]], gs[p + 2..]);
    FlatOne(mem, gs[p + 1]);
    Shifted(Flat(mem, gs[..p]), Data(mem, gs[p]), Data(mem, gs[p + 1]), Flat(mem, gs[p + 2..]), n);
  }

  lemma Shifted(a: seq<u8>, b: seq<u8>, c: seq<u8>, d: seq<u8>, n: nat)
    requires n <= |c|
    ensures a + (b + c[..n]) + (c[n..] + d) == a + b + (c + d)
  {
  }

  /** An empty fragment among the others. */
  lemma InsertEmpty(mem: seq<u8>, vs: seq<Frag>, k: nat, f: Frag)
    requires FragsOk(vs, |mem|) && Unaliased(vs) && k <= |vs| && FragOk(f, |mem|) && f.size == 0 && AllApart([f], vs)
    ensures var ws := vs[..k] + [f] + vs[k..];
            FragsOk(ws, |mem|) && Unaliased(ws) && Flat(mem, ws) == Flat(mem, vs) && Total(ws) == Total(vs)
            && Total(ws[..k]) == Total(vs[..k])
  {
    hide Data, Flat, Total, Unaliased, AllApart;
    var ws := vs[..k] + [f] + vs[k..];
    InsertApart(vs, k, f);
    InsertFlat(mem, vs, k, f);
    assert vs == vs[..k] + vs[k..];
    TotalAppend(vs[..k] + [f], vs[k..]);
    TotalAppend(vs[..k], [f]);
    TotalAppend(vs[..k], vs[k..]);
    TotalOne(f);
    assert ws[..k] == vs[..k];
  }

  lemma InsertFlat(mem: seq<u8>, vs: seq<Frag>, k: nat, f: Frag)
    requires k <= |vs| && f.size == 0
    ensures Flat(mem, vs[..k] + [f] + vs[k..]) == Flat(mem, vs)
  {
    hide Data, Flat;
    FlatAppend(mem, vs[..k] + [f], vs[k..]);
    FlatAppend(mem, vs[..k], [f]);
    FlatOne(mem, f);
    NoData(mem, f);
    assert Flat(mem, vs[..k]) + [] == Flat(mem, vs[..k]);
    assert vs == vs[..k] + vs[k..];
    FlatAppend(mem, vs[..k], vs[k..]);
  }

  lemma NoData(mem: seq<u8>, f: Frag)
    requires f.size == 0
    ensures Data(mem, f) == []
  {
  }

  lemma InsertApart(vs: seq<Frag>, k: nat, f: Frag)
    requires Unaliased(vs) && k <= |vs| && AllApart([f], vs)
    ensures Unaliased(vs[..k] + [f] + vs[k..])
  {
    var ws := vs[..k] + [f] + vs[k..];
    forall i, j | 0 <= i < j < |ws| ensures WindowsApart(ws[i], ws[j]) {
      if i == k { assert WindowsApart([f][0], vs[j - 1]); }
      else if j == k { assert WindowsApart([f][0], vs[i]); }
      else { assert WindowsApart(vs[if i < k then i else i - 1], vs[if j < k then j else j - 1]); }
    }
  }

  /** An offset inside the chain has one cursor. */
  lemma CursorUnique(fs: seq<Frag>, offset: nat, k: nat, rem: nat, p: nat, r: nat)
    requires CursorAt(fs, offset, k, rem) && CursorAt(fs, offset, p, r) && p < |fs|
    ensures k == p && rem == r
  {
    if k < p {
      assert fs[..p][..k + 1] == fs[..k + 1];
      PrefixTotal(fs[..p], k + 1);
      TotalAt(fs, k);
    } else if k > p {
      assert fs[..k][..p + 1] == fs[..p + 1];
      PrefixTotal(fs[..k], p + 1);
      TotalAt(fs, p);
    }
  }

  lemma TailTotal(fs: seq<Frag>, it: nat)
    requires it < |fs|
    ensures Total(fs[it..]) == fs[it].size + Total(fs[it + 1..])
  {
    assert fs[it..][0] == fs[it] && fs[it..][1..] == fs[it + 1..];
  }

  lemma TailEmpty(fs: seq<Frag>, it: nat)
    requires it <= |fs|
    ensures it == |fs| ==> Total(fs[it..]) == 0
  {
  }

  lemma DataIs(mem: seq<u8>, f: Frag)
    requires f.head + f.size <= |mem|
    ensures Data(mem, f) == mem[f.head..f.head + f.size]
  {
  }

  lemma DataSlice(mem: seq<u8>, f: Frag, offset: nat, n: nat)
    requires FragOk(f, |mem|) && offset + n <= f.size
    ensures |Data(mem, f)| == f.size
    ensures Data(mem, f)[offset..offset + n] == mem[f.head + offset..f.head + offset + n]
  {
    DataIs(mem, f);
    hide Data;
    SliceSlice(mem, f.head, f.head + f.size, offset, offset + n);
  }

  lemma SliceSlice(s: seq<u8>, a: nat, b: nat, c: nat, d: nat)
    requires a <= b <= |s| && c <= d <= b - a
    ensures s[a..b][c..d] == s[a + c..a + d]
  {
    var t, u := s[a..b], s[a + c..a + d];
    forall i | 0 <= i < d - c
      ensures t[c..d][i] == u[i]
    {
      assert t[c..d][i] == t[c + i] == s[a + c + i];
    }
  }

  /** n bytes from the offset on lie in one fragment. */
  ghost predicate Contiguous(fs: seq<Frag>, offset: nat, n: nat) {
    exists k: nat, rem: nat :: CursorAt(fs, offset, k, rem) && k < |fs| && rem + n <= fs[k].size
  }

  /** Coalescing n bytes from the offset on works out: the offset is between two fragments, or the
      bytes lie in one already. */
  ghost predicate Coalesces(fs: seq<Frag>, offset: nat, n: nat) {
    exists k: nat, rem: nat :: CursorAt(fs, offset, k, rem) && k < |fs| && (rem == 0 || rem + n <= fs[k].size)
  }

  /** Fragment k, from rem on, holds fewer than n bytes and has room for the others, but is longer than
      n: coalesce takes its whole size off the bytes to gather, and wraps. */
  ghost predicate WrapsAt(fs: seq<Frag>, k: nat, rem: nat, n: nat) {
    k < |fs| && rem < fs[k].size < rem + n && n < fs[k].size && n <= fs[k].size - rem + Tailroom(fs[k])
  }

  ghost predicate Wraps(fs: seq<Frag>, offset: nat, n: nat) {
    exists k: nat, rem: nat :: CursorAt(fs, offset, k, rem) && WrapsAt(fs, k, rem, n)
  }

  /** The fragment the offset falls into has, from there on, room for fewer than n bytes. */
  ghost predicate NeedsSpare(fs: seq<Frag>, offset: nat, n: nat) {
    exists k: nat, rem: nat ::
      CursorAt(fs, offset, k, rem) && k < |fs| && fs[k].base + fs[k].cap - fs[k].head < rem + n
  }

  /** The bytes asked for fit in the fragment behind an empty one. */
  ghost predicate FitsInNext(fs: seq<Frag>, p: nat, n: nat) {
    p + 1 < |fs| && fs[p].size == 0 && n < fs[p + 1].size
  }

  lemma CursorDecides(fs: seq<Frag>, offset: nat, k: nat, rem: nat, n: nat)
    requires CursorAt(fs, offset, k, rem) && k < |fs|
    ensures Contiguous(fs, offset, n) <==> rem + n <= fs[k].size
    ensures Coalesces(fs, offset, n) <==> rem == 0 || rem + n <= fs[k].size
    ensures Wraps(fs, offset, n) <==> WrapsAt(fs, k, rem, n)
    ensures NeedsSpare(fs, offset, n) <==> fs[k].base + fs[k].cap - fs[k].head < rem + n
  {
    hide Total, CursorAt, WrapsAt;
    forall p: nat, r: nat | CursorAt(fs, offset, p, r)
      ensures p == k && r == rem
    {
      CursorUnique(fs, offset, p, r, k, rem);
    }
  }

  lemma GatheredNone(m0: seq<u8>, ws: seq<Frag>, mem: seq<u8>, p: nat, it: nat, w: Frag)
    requires Gathered(m0, ws, mem, p, it, w)
    ensures it == p + 1 ==> ws[..p] + [w] + ws[it..] == ws
  {
    if it == p + 1 { assert ws[p + 1..it] == []; }
  }

  /** The chain once the fragments gathered are gone. */
  lemma GatheredPlan(m0: seq<u8>, ws: seq<Frag>, mem: seq<u8>, p: nat, it: nat, w: Frag, left: nat, length: nat)
    requires FragsOk(ws, |m0|) && Unaliased(ws) && Gathered(m0, ws, mem, p, it, w)
    requires left + w.size == length && left <= Total(ws[it..]) && (it < |ws| ==> left < ws[it].size)
    requires p + 1 < |ws| && length - ws[p].size < ws[p + 1].size ==> it == p + 1
    requires w == ws[p].(size := w.size)
    ensures var gs := ws[..p] + [w] + ws[it..];
            && FragsOk(gs, |mem|) && Unaliased(gs) && Flat(mem, gs) == Flat(m0, ws) && Total(gs) == Total(ws)
            && gs[..p] == ws[..p] && p < |gs| && gs[p] == w
            && (left > 0 ==> p + 1 < |gs| && left < gs[p + 1].size)
            && (FitsInNext(ws, p, length) ==> gs == ws && left == length)
  {
    hide Flat, Total, FragsOk, Unaliased, Gathered, Data;
    GatherDone(m0, ws, mem, p, it, w);
    GatheredNone(m0, ws, mem, p, it, w);
    GatheredSize(m0, ws, mem, p, it, w);
    TailEmpty(ws, it);
  }

  lemma GatheredSize(m0: seq<u8>, ws: seq<Frag>, mem: seq<u8>, p: nat, it: nat, w: Frag)
    requires Gathered(m0, ws, mem, p, it, w)
    ensures p < it <= |ws| && (it == p + 1 ==> w.size == ws[p].size)
  {
    if it == p + 1 { assert ws[p + 1..it] == []; }
  }

  lemma TailFrom(fs: seq<Frag>, k: nat, rem: nat, offset: nat)
    requires k <= |fs| && Total(fs[..k]) + rem == offset
    ensures Total(fs[k..]) == Total(fs) - offset + rem
  {
    assert fs == fs[..k] + fs[k..];
    TotalAppend(fs[..k], fs[k..]);
  }

  /** After the bytes have been gathered in fragment k: the cursor is in it, or, where all of them came
      from in front of the offset, in the rest of the fragment behind. */
  lemma AbsorbedPlan(fs: seq<Frag>, gs: seq<Frag>, k: nat, rem: nat, offset: nat, n: nat)
    requires k < |fs| && CursorAt(fs, offset, k, rem) && fs[k].size < rem + n && n > 0
    requires k < |gs| && gs[..k] == fs[..k] && gs[k].size == n
    requires rem < n || (k + 1 < |gs| && n < fs[k].size && gs[k + 1].size == fs[k].size - n)
    ensures Contiguous(gs, offset, n) <==> rem == 0
  {
    if rem < n {
      CursorDecides(gs, offset, k, rem, n);
    } else {
      TotalAt(gs, k);
      CursorDecides(gs, offset, k + 1, rem - n, n);
    }
  }

  // ---------------------------------------------------------------- where coalescing goes wrong

  const WRAP: nat := 0x1_0000_0000_0000_0000

  /** The bytes coalesce takes to be missing when its loop is at fragment it, having written into a
      fragment k with that much tailroom, in 64-bit arithmetic. */
  function Missing(fs: seq<Frag>, k: nat, room: nat, n: nat, it: nat): nat
    requires k < it <= |fs|
    decreases it
  {
    if it == k + 1 then (n + WRAP - fs[k].size % WRAP) % WRAP
    else (Missing(fs, k, room, n, it - 1) + WRAP - Min(fs[it - 1].size, RoomLeft(fs, k, room, it - 1)) % WRAP) % WRAP
  }

  /** What is left of the tailroom when the loop is at fragment it. */
  function RoomLeft(fs: seq<Frag>, k: nat, room: nat, it: nat): nat
    requires k < it <= |fs|
    decreases it
  {
    if it == k + 1 then room
    else RoomLeft(fs, k, room, it - 1) - Min(fs[it - 1].size, RoomLeft(fs, k, room, it - 1))
  }

  /** In every case left out of Coalesce the loop passes all fragments behind, copied or not, and is
      then still missing bytes: the code reads on at the end of the list. */
  lemma CoalesceRunsOff(fs: seq<Frag>, offset: nat, n: nat, k: nat, rem: nat)
    requires CursorAt(fs, offset, k, rem) && WrapsAt(fs, k, rem, n) && 2 * Total(fs) <= WRAP
    ensures forall it: nat :: k < it < |fs| ==> Missing(fs, k, Tailroom(fs[k]), n, it) >= fs[it].size
    ensures Missing(fs, k, Tailroom(fs[k]), n, |fs|) > 0
  {
    hide Missing;
    forall it: nat | k < it <= |fs|
      ensures Missing(fs, k, Tailroom(fs[k]), n, it) > 0
              && (it < |fs| ==> Missing(fs, k, Tailroom(fs[k]), n, it) >= fs[it].size)
    {
      MissingMost(fs, k, Tailroom(fs[k]), n, it);
      TotalAt(fs, k);
      PrefixTotal(fs, it);
      PrefixTotal(fs, k);
      if it < |fs| { TotalAt(fs, it); }
      assert fs[..it][..k + 1] == fs[..k + 1];
      PrefixTotal(fs[..it], k + 1);
    }
  }

  lemma {:induction false} MissingMost(fs: seq<Frag>, k: nat, room: nat, n: nat, it: nat)
    requires k < it <= |fs| && n < fs[k].size && 2 * Total(fs) <= WRAP
    ensures WRAP + n - Total(fs[..it]) <= Missing(fs, k, room, n, it) < WRAP
    decreases it
  {
    hide Total, RoomLeft;
    PrefixTotal(fs, it);
    TotalAt(fs, it - 1);
    PrefixTotal(fs, it - 1);
    if it == k + 1 {
      FromWrap(n, fs[k].size);
    } else {
      MissingMost(fs, k, room, n, it - 1);
      TakeOff(Missing(fs, k, room, n, it - 1), Min(fs[it - 1].size, RoomLeft(fs, k, room, it - 1)));
    }
  }

  lemma FromWrap(n: nat, size: nat)
    requires n < size < WRAP
    ensures (n + WRAP - size % WRAP) % WRAP == n + WRAP - size
  {
  }

  lemma TakeOff(a: nat, w: nat)
    requires w <= a < WRAP
    ensures (a + WRAP - w % WRAP) % WRAP == a - w
  {
  }

  /** For example two fragments of 4 bytes, the first with room for more, and 3 bytes from offset 2 on. */
  lemma CoalesceFails()
    ensures var fs := [Frag(0, 8, 0, 4), Frag(8, 4, 8, 4)];
            FragsOk(fs, 12) && Unaliased(fs) && Total(fs) == 8 && CursorAt(fs, 2, 0, 2) && Wraps(fs, 2, 3)
            && Missing(fs, 0, 4, 3, 2) == WRAP - 5
  {
    var fs := [Frag(0, 8, 0, 4), Frag(8, 4, 8, 4)];
    TotalTwo(fs[0], fs[1]);
    assert fs[..0] == [];
    CursorDecides(fs, 2, 0, 2, 3);
    assert Missing(fs, 0, 4, 3, 1) == WRAP - 1;
    assert RoomLeft(fs, 0, 4, 1) == 4;
  }

  lemma RangePlan(mem: seq<u8>, fs: seq<Frag>, offset: nat, k: nat, rem: nat, length: nat, size: nat)
    requires FragsOk(fs, |mem|) && CursorAt(fs, offset, k, rem) && k < |fs| && size == Total(fs) && offset < size
    ensures var n := Min(length, fs[k].size - rem);
            n <= Min(length, size - offset) && fs[k].head + rem + n <= |mem| && offset + n <= |Flat(mem, fs)|
            && (n == Min(length, size - offset) <==> rem + Min(length, size - offset) <= fs[k].size)
            && mem[fs[k].head + rem..fs[k].head + rem + n] == Flat(mem, fs)[offset..offset + n]
  {
    hide Flat, Total;
    OkAt(fs, |mem|, k);
    FlatLength(mem, fs);
    CursorFlat(mem, fs, offset, k, rem);
    DataIs(mem, fs[k]);
    TailFrom(fs, k, rem, offset);
    TailTotal(fs, k);
    var n := Min(length, fs[k].size - rem);
    var d, t := Data(mem, fs[k]), Flat(mem, fs[k + 1..]);
    PartsOfSum(d[rem..], t, Flat(mem, fs)[offset..], n);
    assert d[rem..][..n] == mem[fs[k].head + rem..fs[k].head + rem + n];
    assert Flat(mem, fs)[offset..][..n] == Flat(mem, fs)[offset..offset + n];
  }
}
