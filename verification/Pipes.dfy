/** The filter pipe's routing links: for every message type a filter handles it points at the next
    filter that handles it, and the pipe at the first and the last. */
module Pipes {

  /** A message type. */
  type Msg = nat

  /** A filter in the pipe, with a link for every type it reads or writes. */
  class Context {
    const readTypes: set<Msg>
    const writeTypes: set<Msg>
    var nextRead: map<Msg, Context?>
    var nextWrite: map<Msg, Context?>

    constructor (readTypes: set<Msg>, writeTypes: set<Msg>)
      ensures this.readTypes == readTypes && this.writeTypes == writeTypes && Unlinked()
    {
      this.readTypes := readTypes;
      this.writeTypes := writeTypes;
      nextRead := map m | m in readTypes :: null;
      nextWrite := map m | m in writeTypes :: null;
    }

    ghost predicate Unlinked()
      reads this
    {
      && nextRead.Keys == readTypes && (forall m: Msg :: m in readTypes ==> nextRead[m] == null)
      && nextWrite.Keys == writeTypes && (forall m: Msg :: m in writeTypes ==> nextWrite[m] == null)
    }

    /** add_link_if_null, for every type this filter reads. */
    method AddReadIfNull(cx: Context)
      modifies this`nextRead
      ensures nextRead.Keys == old(nextRead).Keys
      ensures forall m: Msg :: m in nextRead ==>
                nextRead[m] == if old(nextRead)[m] == null && m in cx.readTypes then cx else old(nextRead)[m]
    {
      nextRead := map m | m in nextRead :: if nextRead[m] == null && m in cx.readTypes then cx else nextRead[m];
    }

    method AddWriteIfNull(cx: Context)
      modifies this`nextWrite
      ensures nextWrite.Keys == old(nextWrite).Keys
      ensures forall m: Msg :: m in nextWrite ==>
                nextWrite[m] == if old(nextWrite)[m] == null && m in cx.writeTypes then cx else old(nextWrite)[m]
    {
      nextWrite := map m | m in nextWrite :: if nextWrite[m] == null && m in cx.writeTypes then cx else nextWrite[m];
    }

    /** A link to cx becomes cx's own link of that type. */
    method Unlink(cx: Context)
      requires forall m: Msg :: m in nextRead && nextRead[m] == cx ==> m in cx.nextRead
      requires forall m: Msg :: m in nextWrite && nextWrite[m] == cx ==> m in cx.nextWrite
      modifies this
      ensures nextRead.Keys == old(nextRead).Keys && nextWrite.Keys == old(nextWrite).Keys
      ensures forall m: Msg :: m in nextRead ==>
                nextRead[m] == if old(nextRead)[m] == cx then old(cx.nextRead)[m] else old(nextRead)[m]
      ensures forall m: Msg :: m in nextWrite ==>
                nextWrite[m] == if old(nextWrite)[m] == cx then old(cx.nextWrite)[m] else old(nextWrite)[m]
    {
      nextRead := map m | m in nextRead :: if nextRead[m] == cx then cx.nextRead[m] else nextRead[m];
      nextWrite := map m | m in nextWrite :: if nextWrite[m] == cx then cx.nextWrite[m] else nextWrite[m];
    }
  }

  // ---------------------------------------------------------------- nearest handlers

  function FirstReader(s: seq<Context>, m: Msg): Context? {
    if s == [] then null else if m in s[0].readTypes then s[0] else FirstReader(s[1..], m)
  }

  function LastWriter(s: seq<Context>, m: Msg): Context? {
    if s == [] then null else if m in s[|s| - 1].writeTypes then s[|s| - 1] else LastWriter(s[..|s| - 1], m)
  }

  lemma {:induction false} FirstReaderJoin(a: seq<Context>, b: seq<Context>, m: Msg)
    ensures FirstReader(a + b, m) == if FirstReader(a, m) != null then FirstReader(a, m) else FirstReader(b, m)
    decreases |a|
  {
    if a == [] { assert a + b == b; }
    else {
      assert (a + b)[0] == a[0] && (a + b)[1..] == a[1..] + b;
      FirstReaderJoin(a[1..], b, m);
    }
  }

  lemma {:induction false} LastWriterJoin(a: seq<Context>, b: seq<Context>, m: Msg)
    ensures LastWriter(a + b, m) == if LastWriter(b, m) != null then LastWriter(b, m) else LastWriter(a, m)
    decreases |b|
  {
    if b == [] { assert a + b == a; }
    else {
      var c := a + b;
      assert c[|c| - 1] == b[|b| - 1] && c[..|c| - 1] == a + b[..|b| - 1];
      LastWriterJoin(a, b[..|b| - 1], m);
    }
  }

  lemma {:induction false} FirstReaderIn(s: seq<Context>, m: Msg)
    ensures FirstReader(s, m) != null ==> FirstReader(s, m) in s && m in FirstReader(s, m).readTypes
    decreases |s|
  {
    if s != [] && m !in s[0].readTypes { FirstReaderIn(s[1..], m); }
  }

  lemma {:induction false} LastWriterIn(s: seq<Context>, m: Msg)
    ensures LastWriter(s, m) != null ==> LastWriter(s, m) in s && m in LastWriter(s, m).writeTypes
    decreases |s|
  {
    if s != [] && m !in s[|s| - 1].writeTypes { LastWriterIn(s[..|s| - 1], m); }
  }

  lemma OneReader(x: Context, m: Msg)
    ensures FirstReader([x], m) == if m in x.readTypes then x else null
    ensures LastWriter([x], m) == if m in x.writeTypes then x else null
  {
    assert [x][1..] == [] && [x][..0] == [];
  }

  /** The filters that read m, in order. */
  function Readers(s: seq<Context>, m: Msg): seq<Context> {
    if s == [] then [] else (if m in s[0].readTypes then [s[0]] else []) + Readers(s[1..], m)
  }

  /** The filters that write m, last first. */
  function Writers(s: seq<Context>, m: Msg): seq<Context> {
    if s == [] then [] else (if m in s[|s| - 1].writeTypes then [s[|s| - 1]] else []) + Writers(s[..|s| - 1], m)
  }

  // ---------------------------------------------------------------- the links

  /** The nearest later filter that reads m, and the nearest earlier one that writes it. */
  function Later(cs: seq<Context>, i: nat, m: Msg): Context? {
    if i < |cs| then FirstReader(cs[i + 1..], m) else null
  }

  function Earlier(cs: seq<Context>, i: nat, m: Msg): Context? {
    if i <= |cs| then LastWriter(cs[..i], m) else null
  }

  ghost predicate Distinct(cs: seq<Context>) {
    forall i, j :: 0 <= i < j < |cs| ==> cs[i] != cs[j]
  }

  /** Filter i of the pipe is linked to the nearest later reader and earlier writer of each type. */
  ghost predicate LinkedAt(cs: seq<Context>, i: nat)
    requires i < |cs|
    reads cs[i]
  {
    && cs[i].nextRead.Keys == cs[i].readTypes && cs[i].nextWrite.Keys == cs[i].writeTypes
    && (forall m: Msg :: m in cs[i].readTypes ==> cs[i].nextRead[m] == Later(cs, i, m))
    && (forall m: Msg :: m in cs[i].writeTypes ==> cs[i].nextWrite[m] == Earlier(cs, i, m))
  }

  ghost predicate Linked(cs: seq<Context>)
    reads cs
  {
    forall i :: 0 <= i < |cs| ==> LinkedAt(cs, i)
  }

  /** The entry points of a pipe of these filters. */
  ghost predicate Enters(head: map<Msg, Context?>, tail: map<Msg, Context?>, cs: seq<Context>) {
    && (forall m: Msg :: m in head ==> head[m] == FirstReader(cs, m))
    && (forall m: Msg :: m in tail ==> tail[m] == LastWriter(cs, m))
  }

  /** The contexts without one of them. */
  function Without(cs: seq<Context>, x: Context?): seq<Context> {
    if cs == [] then [] else if cs[0] == x then cs[1..] else [cs[0]] + Without(cs[1..], x)
  }

  lemma {:induction false} WithoutAt(cs: seq<Context>, k: nat)
    requires Distinct(cs) && k < |cs|
    ensures Without(cs, cs[k]) == cs[..k] + cs[k + 1..]
    decreases k
  {
    if k > 0 {
      assert cs[0] != cs[k];
      assert cs[1..][k - 1] == cs[k];
      assert forall i, j :: 0 <= i < j < |cs[1..]| ==> cs[1..][i] != cs[1..][j];
      WithoutAt(cs[1..], k - 1);
    }
  }

  lemma {:induction false} WithoutNone(cs: seq<Context>, x: Context?)
    requires x !in cs
    ensures Without(cs, x) == cs
    decreases |cs|
  {
    if cs != [] { WithoutNone(cs[1..], x); }
  }

  lemma {:induction false} WithoutJoin(cs: seq<Context>, ds: seq<Context>, x: Context?)
    requires x !in ds
    ensures Without(cs + ds, x) == Without(cs, x) + ds
    decreases |cs|
  {
    if cs == [] {
      assert cs + ds == ds;
      WithoutNone(ds, x);
    } else {
      assert (cs + ds)[0] == cs[0] && (cs + ds)[1..] == cs[1..] + ds;
      if cs[0] != x { WithoutJoin(cs[1..], ds, x); }
    }
  }

  class Pipe {
    var contexts: seq<Context>
    /** The entry points: the first reader and the last writer of each type the pipe carries. */
    var head: map<Msg, Context?>
    var tail: map<Msg, Context?>
    /** The context a deferred removal is still to take out. */
    var pending: Context?

    constructor (readTypes: set<Msg>, writeTypes: set<Msg>)
      ensures Valid() && contexts == [] && pending == null && head.Keys == readTypes && tail.Keys == writeTypes
    {
      contexts := [];
      pending := null;
      head := map m | m in readTypes :: null;
      tail := map m | m in writeTypes :: null;
    }

    /** The entry points already leave out the context being removed; the links do not yet. */
    ghost predicate Valid()
      reads this, contexts
    {
      && Distinct(contexts) && Linked(contexts) && (pending != null ==> pending in contexts)
      && Enters(head, tail, Without(contexts, pending))
    }

    /** pipe_base::push_back and maybe_update_tail, for a filter that is in no pipe yet. */
    method PushBack(x: Context)
      requires Valid() && x !in contexts && x.Unlinked()
      modifies this, contexts, x
      ensures Valid() && contexts == old(contexts) + [x] && pending == old(pending)
      ensures head.Keys == old(head).Keys && tail.Keys == old(tail).Keys
    {
      hide FirstReader, LastWriter, Linked, LinkedAt, Without, Later, Earlier, Distinct, Enters;
      ghost var cs, h, t := contexts, head, tail;
      LinkAll(x);
      LinkBack(x);
      PushLinked(cs, x);
      PushDistinct(cs, x);
      contexts := contexts + [x];
      tail := map m | m in tail :: if m in x.writeTypes then x else tail[m];
      head := map m | m in head :: if head[m] == null && m in x.readTypes then x else head[m];
      PushEntries(cs, x, pending, h, t, head, tail);
    }

    method LinkOne(i: nat, x: Context)
      requires i < |contexts| && LinkedAt(contexts, i)
      modifies contexts[i]
      ensures LinkedTo(contexts, i, x)
    {
      hide Later, Earlier;
      contexts[i].AddReadIfNull(x);
    }

    /** Every context gets x as its next reader where it has none. */
    method LinkAll(x: Context)
      requires Distinct(contexts) && x !in contexts && Linked(contexts)
      modifies contexts
      ensures forall i :: 0 <= i < |contexts| ==> LinkedTo(contexts, i, x)
    {
      hide FirstReader, LastWriter, Later, Earlier;
      var i := 0;
      while i < |contexts|
        invariant 0 <= i <= |contexts|
        invariant forall j :: 0 <= j < i ==> LinkedTo(contexts, j, x)
        invariant forall j :: i <= j < |contexts| ==> LinkedAt(contexts, j)
        modifies contexts
      {
        LinkOne(i, x);
        i := i + 1;
      }
    }

    /** x gets the nearest earlier writer of each of its types: the contexts are offered last first. */
    method LinkBack(x: Context)
      requires x !in contexts && x.Unlinked()
      modifies x
      ensures x.nextRead == old(x.nextRead) && x.nextWrite.Keys == x.writeTypes
      ensures forall m: Msg :: m in x.writeTypes ==> x.nextWrite[m] == LastWriter(contexts, m)
    {
      var i := |contexts|;
      assert contexts[i..] == [];
      while i > 0
        invariant 0 <= i <= |contexts| && x.nextRead == old(x.nextRead) && x.nextWrite.Keys == x.writeTypes
        invariant forall m: Msg :: m in x.writeTypes ==> x.nextWrite[m] == LastWriter(contexts[i..], m)
        modifies x
      {
        i := i - 1;
        var cx := contexts[i];
        forall m: Msg ensures LastWriter(contexts[i..], m) ==
            if LastWriter(contexts[i + 1..], m) != null then LastWriter(contexts[i + 1..], m)
            else if m in cx.writeTypes then cx else null {
          assert contexts[i..] == [cx] + contexts[i + 1..];
          LastWriterJoin([cx], contexts[i + 1..], m);
          OneReader(cx, m);
        }
        x.AddWriteIfNull(cx);
      }
      assert contexts[0..] == contexts;
    }

    /** remove: the entry points leave x out at once; the rest is deferred. */
    method Remove(x: Context)
      requires Valid() && pending == null && x in contexts
      modifies this
      ensures Valid() && contexts == old(contexts) && pending == x
    {
      hide FirstReader, LastWriter, Without, Later, Earlier;
      ghost var k :| 0 <= k < |contexts| && contexts[k] == x;
      WithoutNull(contexts);
      RemovePlan(contexts, k);
      assert LinkedAt(contexts, k);
      head := map m | m in head :: if head[m] == x then x.nextRead[m] else head[m];
      tail := map m | m in tail :: if tail[m] == x then x.nextWrite[m] else tail[m];
      pending := x;
    }

    /** remove_if and erase. */
    method Kept(x: Context, ghost k: nat) returns (kept: seq<Context>)
      requires Distinct(contexts) && k < |contexts| && contexts[k] == x
      ensures kept == contexts[..k] + contexts[k + 1..]
    {
      kept := [];
      var i := 0;
      while i < |contexts|
        invariant 0 <= i <= |contexts| && kept == if i <= k then contexts[..i] else contexts[..k] + contexts[k + 1..i]
      {
        assert i > k ==> contexts[k + 1..i + 1] == contexts[k + 1..i] + [contexts[i]];
        if contexts[i] != x {
          kept := kept + [contexts[i]];
        }
        i := i + 1;
      }
    }

    /** The deferred pipe_base::remove. */
    method RunDeferred()
      requires Valid() && pending != null
      modifies this, contexts
      ensures Valid() && pending == null && contexts == Without(old(contexts), old(pending))
      ensures head == old(head) && tail == old(tail)
    {
      hide FirstReader, LastWriter, Without, Later, Earlier, LinkedAt;
      var x := pending;
      ghost var cs := contexts;
      ghost var k :| 0 <= k < |cs| && cs[k] == x;
      UnlinkAll(k);
      UnlinkedLinks(cs, k);
      WithoutAt(cs, k);
      contexts := Kept(x, k);
      pending := null;
      WithoutNull(contexts);
    }

    method UnlinkOne(ghost k: nat, i: nat)
      requires Distinct(contexts) && k < |contexts| && contexts[k] == pending && i < |contexts| && LinkedAt(contexts, i)
               && LinkedAt(contexts, k)
      modifies contexts[i]
      ensures i == k ==> LinkedAt(contexts, k)
      ensures i != k ==> BypassedAt(contexts, k, i)
    {
      hide Later, Earlier;
      LinksIn(contexts, i);
      contexts[i].Unlink(pending);
    }

    method UnlinkAll(ghost k: nat)
      requires Distinct(contexts) && Linked(contexts) && k < |contexts| && contexts[k] == pending
      modifies contexts
      ensures forall i :: 0 <= i < |contexts| && i != k ==> BypassedAt(contexts, k, i)
    {
      hide FirstReader, LastWriter, Later, Earlier;
      var i := 0;
      while i < |contexts|
        invariant 0 <= i <= |contexts|
        invariant forall j :: 0 <= j < i && j != k ==> BypassedAt(contexts, k, j)
        invariant forall j :: i <= j < |contexts| ==> LinkedAt(contexts, j)
        invariant LinkedAt(contexts, k)
        modifies contexts
      {
        UnlinkOne(k, i);
        i := i + 1;
      }
    }

    /** read, for a message every filter forwards: it visits exactly the filters that read its type,
        in order, and stops. */
    method Read(m: Msg) returns (visited: seq<Context>)
      requires Valid() && pending == null && m in head
      ensures visited == Readers(contexts, m)
    {
      hide FirstReader, LastWriter, Readers, Writers, Without, Distinct, LinkedAt;
      visited := [];
      WithoutNull(contexts);
      var c := head[m];
      ghost var k := 0;
      assert contexts[0..] == contexts;
      while c != null
        invariant 0 <= k <= |contexts| && c == FirstReader(contexts[k..], m)
                  && visited + Readers(contexts[k..], m) == Readers(contexts, m)
        decreases |contexts| - k
      {
        ghost var j := ReaderAt(contexts, k, m);
        visited := visited + [c];
        LinksAt(contexts, j, m);
        c := c.nextRead[m];
        k := j + 1;
      }
      NoReaders(contexts[k..], m);
    }

    /** write, likewise, from the last filter to the first. */
    method Write(m: Msg) returns (visited: seq<Context>)
      requires Valid() && pending == null && m in tail
      ensures visited == Writers(contexts, m)
    {
      hide FirstReader, LastWriter, Readers, Writers, Without, Distinct, LinkedAt;
      visited := [];
      WithoutNull(contexts);
      var c := tail[m];
      ghost var k := |contexts|;
      assert contexts[..k] == contexts;
      while c != null
        invariant 0 <= k <= |contexts| && c == LastWriter(contexts[..k], m)
                  && visited + Writers(contexts[..k], m) == Writers(contexts, m)
        decreases k
      {
        ghost var j := WriterAt(contexts, k, m);
        visited := visited + [c];
        LinksAt(contexts, j, m);
        c := c.nextWrite[m];
        k := j;
      }
      NoWriters(contexts[..k], m);
    }
  }

  // ---------------------------------------------------------------- pushing

  /** Filter i with x behind the pipe. */
  ghost predicate LinkedTo(cs: seq<Context>, i: nat, x: Context)
    requires i < |cs|
    reads cs[i]
  {
    && cs[i].nextRead.Keys == cs[i].readTypes && cs[i].nextWrite.Keys == cs[i].writeTypes
    && (forall m: Msg :: m in cs[i].readTypes ==>
          cs[i].nextRead[m] == if Later(cs, i, m) != null then Later(cs, i, m) else if m in x.readTypes then x
          else null)
    && (forall m: Msg :: m in cs[i].writeTypes ==> cs[i].nextWrite[m] == Earlier(cs, i, m))
  }

  lemma LaterPush(cs: seq<Context>, x: Context, i: nat, m: Msg)
    requires i < |cs|
    ensures Later(cs + [x], i, m) == if Later(cs, i, m) != null then Later(cs, i, m) else if m in x.readTypes then x
            else null
    ensures Earlier(cs + [x], i, m) == Earlier(cs, i, m)
  {
    hide FirstReader, LastWriter;
    assert (cs + [x])[i + 1..] == cs[i + 1..] + [x] && (cs + [x])[..i] == cs[..i];
    FirstReaderJoin(cs[i + 1..], [x], m);
    OneReader(x, m);
  }

  lemma LastLinks(cs: seq<Context>, x: Context, m: Msg)
    ensures Later(cs + [x], |cs|, m) == null && Earlier(cs + [x], |cs|, m) == LastWriter(cs, m)
  {
    assert (cs + [x])[|cs| + 1..] == [] && (cs + [x])[..|cs|] == cs;
  }

  lemma PushLinked(cs: seq<Context>, x: Context)
    requires forall i :: 0 <= i < |cs| ==> LinkedTo(cs, i, x)
    requires x.nextRead.Keys == x.readTypes && (forall m: Msg :: m in x.readTypes ==> x.nextRead[m] == null)
    requires x.nextWrite.Keys == x.writeTypes && forall m: Msg :: m in x.writeTypes ==>
               x.nextWrite[m] == LastWriter(cs, m)
    ensures Linked(cs + [x])
  {
    hide FirstReader, LastWriter, Later, Earlier;
    var ds := cs + [x];
    forall i | 0 <= i < |ds| ensures LinkedAt(ds, i) {
      if i < |cs| {
        assert LinkedTo(cs, i, x) && ds[i] == cs[i];
        forall m: Msg
          ensures Later(ds, i, m) == if Later(cs, i, m) != null then Later(cs, i, m) else if m in x.readTypes then x
                  else null
        {
          LaterPush(cs, x, i, m);
        }
        forall m: Msg ensures Earlier(ds, i, m) == Earlier(cs, i, m) { LaterPush(cs, x, i, m); }
      } else {
        forall m: Msg ensures Later(ds, i, m) == null && Earlier(ds, i, m) == LastWriter(cs, m) { LastLinks(cs, x, m); }
      }
    }
  }

  lemma PushDistinct(cs: seq<Context>, x: Context)
    requires Distinct(cs) && x !in cs
    ensures Distinct(cs + [x]) && forall c :: c in cs ==> c in cs + [x]
  {
  }

  lemma PushEntries(cs: seq<Context>, x: Context, pending: Context?, head: map<Msg, Context?>,
                    tail: map<Msg, Context?>, head': map<Msg, Context?>, tail': map<Msg, Context?>)
    requires x !in cs && (pending != null ==> pending in cs) && Enters(head, tail, Without(cs, pending))
    requires head'.Keys == head.Keys && tail'.Keys == tail.Keys
    requires forall m :: m in head' ==> head'[m] == if head[m] == null && m in x.readTypes then x else head[m]
    requires forall m :: m in tail' ==> tail'[m] == if m in x.writeTypes then x else tail[m]
    ensures Enters(head', tail', Without(cs + [x], pending))
  {
    hide FirstReader, LastWriter, Without;
    WithoutJoin(cs, [x], pending);
    var a := Without(cs, pending);
    forall m: Msg
      ensures FirstReader(a + [x], m) == if FirstReader(a, m) != null then FirstReader(a, m)
              else if m in x.readTypes then x else null
      ensures LastWriter(a + [x], m) == if m in x.writeTypes then x else LastWriter(a, m)
    {
      FirstReaderJoin(a, [x], m);
      LastWriterJoin(a, [x], m);
      OneReader(x, m);
    }
  }

  // ---------------------------------------------------------------- removing

  lemma WithoutNull(cs: seq<Context>)
    ensures Without(cs, null) == cs
  {
    WithoutNone(cs, null);
  }

  lemma LaterIs(cs: seq<Context>, k: nat, m: Msg)
    requires k < |cs|
    ensures Later(cs, k, m) == FirstReader(cs[k + 1..], m) && Earlier(cs, k, m) == LastWriter(cs[..k], m)
  {
  }

  ghost predicate Skips(cs: seq<Context>, k: nat, m: Msg)
    requires k < |cs|
  {
    && FirstReader(cs[..k] + cs[k + 1..], m) == (if FirstReader(cs, m) == cs[k] then FirstReader(cs[k + 1..], m)
                                                 else FirstReader(cs, m))
    && LastWriter(cs[..k] + cs[k + 1..], m) == (if LastWriter(cs, m) == cs[k] then LastWriter(cs[..k], m)
                                                else LastWriter(cs, m))
  }

  /** The nearest handler without x is the nearest, or, if that is x, the nearest beyond it. */
  lemma SkipEntry(cs: seq<Context>, k: nat, m: Msg)
    requires Distinct(cs) && k < |cs|
    ensures Skips(cs, k, m)
  {
    hide FirstReader, LastWriter;
    var a, x, b := cs[..k], cs[k], cs[k + 1..];
    assert cs == a + ([x] + b);
    FirstReaderJoin(a, [x] + b, m);
    FirstReaderJoin([x], b, m);
    FirstReaderJoin(a, b, m);
    LastWriterJoin(a, [x] + b, m);
    LastWriterJoin([x], b, m);
    LastWriterJoin(a, b, m);
    OneReader(x, m);
    FirstReaderIn(a, m);
    FirstReaderIn(b, m);
    LastWriterIn(a, m);
    LastWriterIn(b, m);
    assert x !in a && x !in b;
  }

  /** Where the entry points have to lead once filter k is left out. */
  lemma RemovePlan(cs: seq<Context>, k: nat)
    requires Distinct(cs) && k < |cs|
    ensures forall m: Msg :: FirstReader(Without(cs, cs[k]), m) == if FirstReader(cs, m) == cs[k] then Later(cs, k, m)
            else FirstReader(cs, m)
    ensures forall m: Msg :: LastWriter(Without(cs, cs[k]), m) == if LastWriter(cs, m) == cs[k] then Earlier(cs, k, m)
            else LastWriter(cs, m)
    ensures forall m: Msg :: FirstReader(cs, m) == cs[k] ==> m in cs[k].readTypes
    ensures forall m: Msg :: LastWriter(cs, m) == cs[k] ==> m in cs[k].writeTypes
  {
    hide FirstReader, LastWriter, Without, Later, Earlier;
    WithoutAt(cs, k);
    EntriesIn(cs);
    forall m: Msg
      ensures FirstReader(Without(cs, cs[k]), m) == if FirstReader(cs, m) == cs[k] then Later(cs, k, m)
              else FirstReader(cs, m)
      ensures LastWriter(Without(cs, cs[k]), m) == if LastWriter(cs, m) == cs[k] then Earlier(cs, k, m)
              else LastWriter(cs, m)
    {
      SkipEntry(cs, k, m);
      LaterIs(cs, k, m);
    }
  }

  lemma EntriesIn(cs: seq<Context>)
    ensures forall m: Msg :: FirstReader(cs, m) != null ==>
              FirstReader(cs, m) in cs && m in FirstReader(cs, m).readTypes
    ensures forall m: Msg :: LastWriter(cs, m) != null ==> LastWriter(cs, m) in cs && m in LastWriter(cs, m).writeTypes
  {
    forall m: Msg
      ensures FirstReader(cs, m) != null ==> FirstReader(cs, m) in cs && m in FirstReader(cs, m).readTypes
      ensures LastWriter(cs, m) != null ==> LastWriter(cs, m) in cs && m in LastWriter(cs, m).writeTypes
    {
      FirstReaderIn(cs, m);
      LastWriterIn(cs, m);
    }
  }

  /** Filter i linked past filter k. */
  ghost predicate BypassedAt(cs: seq<Context>, k: nat, i: nat)
    requires i < |cs| && k < |cs|
    reads cs[i]
  {
    && cs[i].nextRead.Keys == cs[i].readTypes && cs[i].nextWrite.Keys == cs[i].writeTypes
    && (forall m: Msg :: m in cs[i].readTypes ==>
          cs[i].nextRead[m] == if Later(cs, i, m) == cs[k] then Later(cs, k, m) else Later(cs, i, m))
    && (forall m: Msg :: m in cs[i].writeTypes ==>
          cs[i].nextWrite[m] == if Earlier(cs, i, m) == cs[k] then Earlier(cs, k, m) else Earlier(cs, i, m))
  }

  /** A link leads to a filter that handles the type, and never to the filter itself. */
  lemma LinksIn(cs: seq<Context>, i: nat)
    requires Distinct(cs) && i < |cs|
    ensures forall m: Msg :: Later(cs, i, m) != null ==> m in Later(cs, i, m).readTypes && Later(cs, i, m) != cs[i]
    ensures forall m: Msg :: Earlier(cs, i, m) != null ==>
              m in Earlier(cs, i, m).writeTypes && Earlier(cs, i, m) != cs[i]
  {
    hide FirstReader, LastWriter;
    EntriesIn(cs[i + 1..]);
    EntriesIn(cs[..i]);
    assert cs[i] !in cs[i + 1..] && cs[i] !in cs[..i];
  }

  /** The links of the others in the pipe without filter k, at their new places. */
  lemma LaterSkip(cs: seq<Context>, k: nat, i: nat, m: Msg)
    requires Distinct(cs) && k < |cs| && i < |cs| && i != k
    ensures var ds, j := cs[..k] + cs[k + 1..], if i < k then i else i - 1;
            && Later(ds, j, m) == (if Later(cs, i, m) == cs[k] then Later(cs, k, m) else Later(cs, i, m))
            && Earlier(ds, j, m) == (if Earlier(cs, i, m) == cs[k] then Earlier(cs, k, m) else Earlier(cs, i, m))
  {
    hide FirstReader, LastWriter;
    var ds := cs[..k] + cs[k + 1..];
    if i < k {
      var t := cs[i + 1..];
      assert ds[..i] == cs[..i] && ds[i + 1..] == t[..k - i - 1] + t[k - i..] && t[k - i - 1] == cs[k]
             && t[k - i..] == cs[k + 1..];
      SkipEntry(t, k - i - 1, m);
      LastWriterIn(cs[..i], m);
      assert cs[k] !in cs[..i];
    } else {
      var t := cs[..i];
      assert ds[i..] == cs[i + 1..] && ds[..i - 1] == t[..k] + t[k + 1..] && t[k] == cs[k] && t[..k] == cs[..k];
      SkipEntry(t, k, m);
      FirstReaderIn(cs[i + 1..], m);
      assert cs[k] !in cs[i + 1..];
    }
  }

  lemma UnlinkedLinks(cs: seq<Context>, k: nat)
    requires Distinct(cs) && k < |cs| && forall i :: 0 <= i < |cs| && i != k ==> BypassedAt(cs, k, i)
    ensures Linked(cs[..k] + cs[k + 1..]) && Distinct(cs[..k] + cs[k + 1..])
  {
    hide FirstReader, LastWriter, Later, Earlier;
    var ds := cs[..k] + cs[k + 1..];
    forall j | 0 <= j < |ds| ensures LinkedAt(ds, j) {
      var i := if j < k then j else j + 1;
      assert ds[j] == cs[i];
      assert BypassedAt(cs, k, i);
      forall m: Msg
        ensures Later(ds, j, m) == (if Later(cs, i, m) == cs[k] then Later(cs, k, m) else Later(cs, i, m))
      {
        LaterSkip(cs, k, i, m);
      }
      forall m: Msg
        ensures Earlier(ds, j, m) == (if Earlier(cs, i, m) == cs[k] then Earlier(cs, k, m) else Earlier(cs, i, m))
      {
        LaterSkip(cs, k, i, m);
      }
    }
  }

  // ---------------------------------------------------------------- messages

  lemma {:induction false} NoReaders(s: seq<Context>, m: Msg)
    requires FirstReader(s, m) == null
    ensures Readers(s, m) == []
    decreases |s|
  {
    if s != [] { NoReaders(s[1..], m); }
  }

  /** Where the first reader from k on stands, and what the message still has to visit there. */
  lemma {:induction false} ReaderAt(cs: seq<Context>, k: nat, m: Msg) returns (j: nat)
    requires k <= |cs| && FirstReader(cs[k..], m) != null
    ensures k <= j < |cs| && cs[j] == FirstReader(cs[k..], m) && m in cs[j].readTypes
    ensures Readers(cs[k..], m) == [cs[j]] + Readers(cs[j + 1..], m)
    decreases |cs| - k
  {
    hide FirstReader, Readers;
    ReaderStep(cs, k, m);
    if m in cs[k].readTypes { j := k; } else { j := ReaderAt(cs, k + 1, m); }
  }

  lemma LinksAt(cs: seq<Context>, j: nat, m: Msg)
    requires j < |cs| && LinkedAt(cs, j)
    ensures m in cs[j].readTypes ==> m in cs[j].nextRead && cs[j].nextRead[m] == FirstReader(cs[j + 1..], m)
    ensures m in cs[j].writeTypes ==> m in cs[j].nextWrite && cs[j].nextWrite[m] == LastWriter(cs[..j], m)
  {
    hide FirstReader, LastWriter;
  }

  lemma ReaderStep(cs: seq<Context>, k: nat, m: Msg)
    requires k <= |cs|
    ensures k == |cs| ==> FirstReader(cs[k..], m) == null
    ensures k < |cs| ==> FirstReader(cs[k..], m) == if m in cs[k].readTypes then cs[k] else FirstReader(cs[k + 1..], m)
    ensures k < |cs| ==> Readers(cs[k..], m) == (if m in cs[k].readTypes then [cs[k]] else []) + Readers(cs[k + 1..], m)
  {
    assert k < |cs| ==> cs[k..][0] == cs[k] && cs[k..][1..] == cs[k + 1..];
  }

  lemma WriterStep(cs: seq<Context>, k: nat, m: Msg)
    requires k <= |cs|
    ensures k == 0 ==> LastWriter(cs[..k], m) == null
    ensures k > 0 ==>
              LastWriter(cs[..k], m) == if m in cs[k - 1].writeTypes then cs[k - 1] else LastWriter(cs[..k - 1], m)
    ensures k > 0 ==>
              Writers(cs[..k], m) == (if m in cs[k - 1].writeTypes then [cs[k - 1]] else []) + Writers(cs[..k - 1], m)
  {
    assert k > 0 ==> cs[..k][k - 1] == cs[k - 1] && cs[..k][..k - 1] == cs[..k - 1];
  }

  lemma {:induction false} NoWriters(s: seq<Context>, m: Msg)
    requires LastWriter(s, m) == null
    ensures Writers(s, m) == []
    decreases |s|
  {
    if s != [] { NoWriters(s[..|s| - 1], m); }
  }

  lemma {:induction false} WriterAt(cs: seq<Context>, k: nat, m: Msg) returns (j: nat)
    requires k <= |cs| && LastWriter(cs[..k], m) != null
    ensures j < k && cs[j] == LastWriter(cs[..k], m) && m in cs[j].writeTypes
    ensures Writers(cs[..k], m) == [cs[j]] + Writers(cs[..j], m)
    decreases k
  {
    hide LastWriter, Writers;
    WriterStep(cs, k, m);
    if m in cs[k - 1].writeTypes { j := k - 1; } else { j := WriterAt(cs, k - 1, m); }
  }

  lemma {:induction false} FirstReaderFrom(s: seq<Context>, k: nat, m: Msg)
    requires k <= |s| && forall x :: 0 <= x < k ==> m !in s[x].readTypes
    ensures FirstReader(s, m) == FirstReader(s[k..], m)
    decreases k
  {
    if k > 0 {
      FirstReaderFrom(s[1..], k - 1, m);
      assert s[1..][k - 1..] == s[k..];
    } else {
      assert s[0..] == s;
    }
  }

  lemma {:induction false} LastWriterUpTo(s: seq<Context>, k: nat, m: Msg)
    requires k <= |s| && forall x :: k <= x < |s| ==> m !in s[x].writeTypes
    ensures LastWriter(s, m) == LastWriter(s[..k], m)
    decreases |s| - k
  {
    if k < |s| {
      LastWriterUpTo(s[..|s| - 1], k, m);
      assert s[..|s| - 1][..k] == s[..k];
    } else {
      assert s[..k] == s;
    }
  }

  /** What the links point at: the later filter that reads m and has none before it, the earlier one that
      writes m and has none behind it, or nothing when there is none. */
  lemma NearestHandlers(cs: seq<Context>, i: nat, j: nat, m: Msg)
    requires i < |cs| && j < |cs|
    ensures i < j && m in cs[j].readTypes && (forall x :: i < x < j ==> m !in cs[x].readTypes) ==>
              Later(cs, i, m) == cs[j]
    ensures j < i && m in cs[j].writeTypes && (forall x :: j < x < i ==> m !in cs[x].writeTypes) ==>
              Earlier(cs, i, m) == cs[j]
    ensures (forall x :: i < x < |cs| ==> m !in cs[x].readTypes) ==> Later(cs, i, m) == null
    ensures (forall x :: 0 <= x < i ==> m !in cs[x].writeTypes) ==> Earlier(cs, i, m) == null
  {
    if i < j && forall x :: i < x < j ==> m !in cs[x].readTypes {
      FirstReaderFrom(cs[i + 1..], j - i - 1, m);
      assert cs[i + 1..][j - i - 1..] == cs[j..];
    }
    if j < i && forall x :: j < x < i ==> m !in cs[x].writeTypes {
      LastWriterUpTo(cs[..i], j + 1, m);
      assert cs[..i][..j + 1] == cs[..j + 1];
    }
    if forall x :: i < x < |cs| ==> m !in cs[x].readTypes { FirstReaderFrom(cs[i + 1..], |cs| - i - 1, m); }
    if forall x :: 0 <= x < i ==> m !in cs[x].writeTypes { LastWriterUpTo(cs[..i], 0, m); }
  }

  /** A message visits the filters of one part of the pipe and then those of the next; a write the other
      way round. */
  lemma VisitedInOrder(a: seq<Context>, b: seq<Context>, m: Msg)
    ensures Readers(a + b, m) == Readers(a, m) + Readers(b, m)
    ensures Writers(a + b, m) == Writers(b, m) + Writers(a, m)
  {
    hide Readers, Writers;
    ReadersJoin(a, b, m);
    WritersJoin(a, b, m);
  }

  lemma {:induction false} ReadersJoin(a: seq<Context>, b: seq<Context>, m: Msg)
    ensures Readers(a + b, m) == Readers(a, m) + Readers(b, m)
    decreases |a|
  {
    hide Readers;
    if a == [] {
      assert a + b == b;
      NoneVisited(m);
    } else {
      var c := a + b;
      assert c[0] == a[0] && c[1..] == a[1..] + b;
      ReadersJoin(a[1..], b, m);
      FirstVisited(c, m);
      FirstVisited(a, m);
    }
  }

  lemma NoneVisited(m: Msg)
    ensures Readers([], m) == [] && Writers([], m) == []
  {
  }

  lemma FirstVisited(s: seq<Context>, m: Msg)
    requires s != []
    ensures Readers(s, m) == if m in s[0].readTypes then [s[0]] + Readers(s[1..], m) else Readers(s[1..], m)
  {
  }

  lemma LastVisited(s: seq<Context>, m: Msg)
    requires s != []
    ensures var r := Writers(s[..|s| - 1], m);
            Writers(s, m) == if m in s[|s| - 1].writeTypes then [s[|s| - 1]] + r else r
  {
  }

  lemma {:induction false} WritersJoin(a: seq<Context>, b: seq<Context>, m: Msg)
    ensures Writers(a + b, m) == Writers(b, m) + Writers(a, m)
    decreases |b|
  {
    hide Writers;
    if b == [] {
      assert a + b == a;
      NoneVisited(m);
    } else {
      var c, d := a + b, b[..|b| - 1];
      assert c[|c| - 1] == b[|b| - 1] && c[..|c| - 1] == a + d;
      WritersJoin(a, d, m);
      LastVisited(c, m);
      LastVisited(b, m);
    }
  }

  /** A message visits every filter that reads its type once, and no other; a write likewise. */
  lemma VisitedExact(cs: seq<Context>, m: Msg)
    requires Distinct(cs)
    ensures forall c :: c in Readers(cs, m) <==> c in cs && m in c.readTypes
    ensures forall c :: c in Writers(cs, m) <==> c in cs && m in c.writeTypes
    ensures Distinct(Readers(cs, m)) && Distinct(Writers(cs, m))
  {
    hide Distinct, Readers, Writers;
    ReadersExact(cs, m);
    WritersExact(cs, m);
  }

  lemma {:induction false} WritersExact(cs: seq<Context>, m: Msg)
    requires Distinct(cs)
    ensures forall c :: c in Writers(cs, m) <==> c in cs && m in c.writeTypes
    ensures Distinct(Writers(cs, m))
    decreases |cs|
  {
    if cs != [] {
      var n := |cs| - 1;
      assert forall i, j :: 0 <= i < j < n ==> cs[..n][i] != cs[..n][j];
      WritersExact(cs[..n], m);
      assert cs == cs[..n] + [cs[n]];
      assert cs[n] !in cs[..n];
    }
  }

  lemma {:induction false} ReadersExact(cs: seq<Context>, m: Msg)
    requires Distinct(cs)
    ensures forall c :: c in Readers(cs, m) <==> c in cs && m in c.readTypes
    ensures Distinct(Readers(cs, m))
    decreases |cs|
  {
    if cs != [] {
      assert forall i, j :: 0 <= i < j < |cs[1..]| ==> cs[1..][i] != cs[1..][j];
      ReadersExact(cs[1..], m);
      assert forall c :: c in cs <==> c == cs[0] || c in cs[1..];
      assert cs[0] !in cs[1..];
    }
  }
}
