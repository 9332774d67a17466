/** The ring as the class it is: two indices and an array that the methods update. Each method is
    the composition of its thread's steps in RingModel with no step of the other thread between, so
    that its loads see the latest values. */
module RingBuffers {
  import opened RingModel

  const TWO64: int := 0x1_0000_0000_0000_0000

  /** write_available, in the wrapping arithmetic of a 64-bit size_t. */
  function WriteAvailable(w: nat, r: nat, size: nat): int {
    var ret := (r - w - 1) % TWO64;
    if w >= r then (ret + size) % TWO64 else ret
  }

  lemma WriteAvailableIs(w: nat, r: nat, size: nat)
    requires w < size && r < size <= MARKER
    ensures WriteAvailable(w, r, size) == Available(w, r, size) && 0 <= WriteAvailable(w, r, size) < size
  {
    if w >= r {
      assert (r - w - 1) % TWO64 == r - w - 1 + TWO64;
      assert (r - w - 1 + TWO64 + size) % TWO64 == r - w - 1 + size;
    }
  }

  /** The records do not overlap the end of the array. */
  lemma PutNext(mem: seq<nat>, pos: nat, words: seq<nat>, k: nat)
    requires k < |words| && pos + WORD * |words| <= |mem|
    ensures pos + WORD * k < |mem|
    ensures Put(mem, pos + WORD * k, words[k..]) == Put(mem[pos + WORD * k := words[k]], pos + WORD * (k + 1),
                                                        words[k + 1..])
  {
    assert words[k..][0] == words[k] && words[k..][1..] == words[k + 1..];
  }

  /** All the words of the record that are still to be written. */
  ghost function Written(s: Ring): (t: Ring)
    requires s.p.Writing? && s.p.k < |Words(s.p.rec)|
    ensures t.p.Publishing?
    decreases |Words(s.p.rec)| - s.p.k
  {
    var s1 := Step(s, WriteWord);
    if s1.p.Writing? then Written(s1) else s1
  }

  lemma {:induction false} WrittenIs(s: Ring)
    requires s.p.Writing? && s.p.k < |Words(s.p.rec)|
    ensures Written(s) == s.(mem := Put(s.mem, s.p.adj + WORD * s.p.k, Words(s.p.rec)[s.p.k..]),
                             p := Publishing(s.p.rec, s.p.force, s.p.from, s.p.adj))
    decreases |Words(s.p.rec)| - s.p.k
  {
    hide Put, Words, Bytes;
    var s1, ws := Step(s, WriteWord), Words(s.p.rec);
    WordIs(s);
    PutFirst(s.mem, s.p.adj + WORD * s.p.k, ws, s.p.k);
    if s1.p.Writing? {
      WrittenIs(s1);
    } else {
      PutNone(s1.mem, s.p.adj + WORD * (s.p.k + 1), ws[s.p.k + 1..]);
    }
  }

  lemma WordIs(s: Ring)
    requires s.p.Writing? && s.p.k < |Words(s.p.rec)|
    ensures Step(s, WriteWord) == s.(mem := Put(s.mem, s.p.adj + WORD * s.p.k, [Words(s.p.rec)[s.p.k]]),
                                     p := if s.p.k + 1 < |Words(s.p.rec)| then s.p.(k := s.p.k + 1)
                                          else Publishing(s.p.rec, s.p.force, s.p.from, s.p.adj))
  {
    hide Put, Words;
  }

  lemma PutFirst(mem: seq<nat>, pos: nat, words: seq<nat>, k: nat)
    requires k < |words|
    ensures Put(mem, pos, words[k..]) == Put(Put(mem, pos, [words[k]]), pos + WORD, words[k + 1..])
  {
    assert words[k..][0] == words[k] && words[k..][1..] == words[k + 1..] && [words[k]][1..] == [];
    var m1 := if pos < |mem| then mem[pos := words[k]] else mem;
    assert Put(mem, pos, [words[k]]) == Put(m1, pos + WORD, []);
  }

  lemma {:induction false} WrittenKeeps(s: Ring)
    requires Inv(s) && s.p.Writing? && s.p.k < |Words(s.p.rec)|
    ensures Inv(Written(s)) && Queue(Written(s)) == Queue(s)
    decreases |Words(s.p.rec)| - s.p.k
  {
    hide Put, Inv, Words, Bytes, Queue;
    var s1 := Step(s, WriteWord);
    WordIs(s);
    StepKeepsInv(s, WriteWord);
    QueueSame(s, s1);
    if s1.p.Writing? { WrittenKeeps(s1); }
  }

  /** The states the steps of a whole call lead to. */
  ghost function Pushed(s: Ring, rec: Rec, force: bool): Ring
    requires Inv(s) && s.p.Idle?
  {
    var s1 := Step(Step(s, BeginPush(rec, force)), LoadReader(|s.rs| - 1));
    var s2 := if s1.p.Marking? then Step(s1, WriteMarker) else s1;
    if s2.p.Writing? then Step(Written(s2), Publish) else s2
  }

  lemma PushedIs(s: Ring, rec: Rec, force: bool)
    requires Inv(s) && s.p.Idle?
    ensures var t := Pushed(s, rec, force);
            var plan := MakePlan(s.w, s.r, s.size, s.reserved, Bytes(rec), force);
            Inv(t) && t.p.Idle? && t.c == s.c && t.popped == s.popped && t.size == s.size && t.reserved == s.reserved
            && t.r == s.r
            && (plan.Fail? ==> t == s.(rs := [s.r]))
            && (plan.WriteAt? ==> t.w == plan.adj + Bytes(rec) && plan.adj + Bytes(rec) < s.size && t.w != t.r
                                  && Queue(t) == Queue(s) + [rec]
                                  && (!force ==> Available(t.w, t.r, t.size) >= t.reserved)
                                  && t.mem == Put(if plan.adj < s.w && RoomToMark(s.size, s.w) then s.mem[s.w := MARKER]
                                                  else s.mem,
                                                  plan.adj, Words(rec)))
  {
    hide Put, Contents, Inv, Queue, Words, Bytes, Pushed, Available;
    PushSteps(s, rec, force);
    InvIdle(s);
    assert Bytes(rec) > 0 by { WordCount(rec); }
    PlanBelow(s, Bytes(rec), force);
    match MakePlan(s.w, s.r, s.size, s.reserved, Bytes(rec), force) {
      case Fail => PushedFails(s, rec, force);
      case WriteAt(adj) => PushedWrites(s, rec, force, adj);
    }
  }

  lemma PushedFails(s: Ring, rec: Rec, force: bool)
    requires Inv(s) && s.p.Idle?
    requires MakePlan(s.w, s.r, s.size, s.reserved, Bytes(rec), force).Fail?
    ensures Pushed(s, rec, force) == s.(rs := [s.r])
  {
    hide Inv, Put, Contents, MakePlan, Bytes;
    InvIdle(s);
    assert s.rs[|s.rs| - 1..] == [s.r];
  }

  lemma PushedWrites(s: Ring, rec: Rec, force: bool, adj: nat)
    requires Inv(s) && s.p.Idle? && s.w < |s.mem|
    requires MakePlan(s.w, s.r, s.size, s.reserved, Bytes(rec), force) == WriteAt(adj) && (adj == s.w || adj == 0)
    ensures var t := Pushed(s, rec, force);
            t.c == s.c && t.popped == s.popped && t.size == s.size && t.reserved == s.reserved && t.r == s.r
            && t.w == adj + Bytes(rec)
            && t.mem == Put(if adj < s.w && RoomToMark(s.size, s.w) then s.mem[s.w := MARKER]
                            else s.mem, adj, Words(rec))
  {
    hide Inv, Put, Contents, MakePlan, Bytes, Words, Step;
    InvIdle(s);
    PutWord(s.mem, s.w, MARKER);
    BegunIs(s, rec, force);
    var s0 := s.(p := Begun(rec, force, s.w));
    LoadReaderIs(s0, |s.rs| - 1);
    var s1 := Step(s0, LoadReader(|s.rs| - 1));
    var mem := if adj < s.w && RoomToMark(s.size, s.w) then s.mem[s.w := MARKER] else s.mem;
    if s1.p.Marking? { MarkedIs(s1); }
    WordCount(rec);
    WroteIs(s1.(mem := mem, p := Writing(rec, force, s.w, adj, 0)));
  }

  lemma BegunIs(s: Ring, rec: Rec, force: bool)
    requires s.p.Idle?
    ensures Enabled(s, BeginPush(rec, force)) && Step(s, BeginPush(rec, force)) == s.(p := Begun(rec, force, s.w))
  {
  }

  lemma MarkedIs(s: Ring)
    requires s.p.Marking?
    ensures Step(s, WriteMarker) == s.(mem := Put(s.mem, s.p.from, [MARKER]),
                                       p := Writing(s.p.rec, s.p.force, s.p.from, 0, 0))
  {
  }

  lemma WroteIs(s: Ring)
    requires s.p.Writing? && s.p.k == 0 < |Words(s.p.rec)|
    ensures var t := Step(Written(s), Publish);
            t.c == s.c && t.popped == s.popped && t.size == s.size && t.reserved == s.reserved && t.r == s.r
            && t.w == s.p.adj + Bytes(s.p.rec) && t.mem == Put(s.mem, s.p.adj, Words(s.p.rec)) && t.p.Idle?
  {
    hide Put, Bytes, Words, Written;
    WrittenIs(s);
    assert Words(s.p.rec)[0..] == Words(s.p.rec);
  }

  lemma InvIdle(s: Ring)
    requires Inv(s)
    ensures s.w < s.size && s.r < s.size <= MARKER && |s.mem| == s.size
    ensures s.rs != [] && s.rs[|s.rs| - 1] == s.r && s.ws != [] && s.ws[|s.ws| - 1] == Seen(s.w, |s.pushed|)
  {
  }

  lemma PlanBelow(s: Ring, n: nat, force: bool)
    requires s.w < s.size && s.r < s.size && n > 0
    ensures var plan := MakePlan(s.w, s.r, s.size, s.reserved, n, force);
            plan.WriteAt? ==> plan.adj + n < s.size && (plan.adj == s.w || plan.adj == 0)
  {
    PlanExactly(s.w, s.r, s.size, s.reserved, n, force);
  }

  lemma PushSteps(s: Ring, rec: Rec, force: bool)
    requires Inv(s) && s.p.Idle?
    ensures var t := Pushed(s, rec, force); Inv(t) && t.p.Idle?
    ensures var t := Pushed(s, rec, force);
            MakePlan(s.w, s.r, s.size, s.reserved, Bytes(rec), force).WriteAt? ==>
              t.w != t.r && Queue(t) == Queue(s) + [rec] && (!force ==> Available(t.w, t.r, t.size) >= t.reserved)
  {
    hide Put, Inv, MakePlan, Available, Words, Bytes, Queue, Step;
    InvIdle(s);
    BegunIs(s, rec, force);
    WordCount(rec);
    var s0 := Step(s, BeginPush(rec, force));
    StepKeepsInv(s, BeginPush(rec, force));
    LoadReaderIs(s0, |s.rs| - 1);
    var s1 := Step(s0, LoadReader(|s.rs| - 1));
    StepKeepsInv(s0, LoadReader(|s.rs| - 1));
    QueueSame(s, s1);
    if s1.p.Marking? {
      MarkedIs(s1);
      StepKeepsInv(s1, WriteMarker);
      QueueSame(s1, Step(s1, WriteMarker));
      WriteSteps(Step(s1, WriteMarker));
    } else if s1.p.Writing? {
      WriteSteps(s1);
    }
  }

  lemma WriteSteps(s: Ring)
    requires Inv(s) && s.p.Writing? && s.p.k == 0 < |Words(s.p.rec)|
    ensures var t := Step(Written(s), Publish);
            Inv(t) && t.p.Idle? && t.w != t.r && Queue(t) == Queue(s) + [s.p.rec]
            && (!s.p.force ==> Available(t.w, t.r, t.size) >= t.reserved)
  {
    hide Put, Inv, Available, Words, Bytes, Queue, Written;
    WrittenIs(s);
    WrittenKeeps(s);
    StepKeepsInv(Written(s), Publish);
    PublishLeavesReserve(Written(s));
    WroteIs(s);
  }

  /** The load that returns the write index as it is. */
  ghost function Latest(s: Ring): Action
    requires Inv(s)
  {
    LoadWriter(|s.ws| - 1)
  }

  /** next, from load to return. */
  ghost function Looked(s: Ring): Ring
    requires Inv(s) && s.c.Resting?
  {
    var s1 := Step(s, Latest(s));
    if s1.c.Resting? then s1
    else
      HeadersKept(s);
      var s2 := Step(s1, ReadHeader);
      if s2.c.Wrapping? then Step(s2, StoreWrap) else s2
  }

  lemma HeadersKept(s: Ring)
    requires Inv(s) && s.c.Resting?
    ensures Inv(Step(s, Latest(s)))
    ensures Step(s, Latest(s)).c.Nonempty? ==>
              Enabled(Step(s, Latest(s)), ReadHeader) && Inv(Step(Step(s, Latest(s)), ReadHeader))
  {
    hide Contents, Put;
    StepKeepsInv(s, Latest(s));
    HeadersInBounds(Step(s, Latest(s)));
    if Step(s, Latest(s)).c.Nonempty? { StepKeepsInv(Step(s, Latest(s)), ReadHeader); }
  }

  lemma LookedIs(s: Ring)
    requires Inv(s) && s.c.Resting?
    ensures var t := Looked(s);
            Inv(t) && t.p == s.p && t.popped == s.popped && Queue(t) == Queue(s) && t.mem == s.mem && t.w == s.w
            && t.size == s.size && t.reserved == s.reserved
            && (if s.r == s.w then t == s.(ws := t.ws)
                else t.c == Ready(t.r) && s.r < |s.mem|
                     && t.r == (if s.mem[s.r] == MARKER || !RoomToMark(s.size, s.r) then 0 else s.r))
            && (s.r == s.w <==> Queue(s) == [])
  {
    hide Contents, Put, Inv, Queue;
    HeadersKept(s);
    NextNullIffEmpty(s, |s.ws| - 1);
    InvIdle(s);
    var s1 := Step(s, Latest(s));
    QueueSame(s, s1);
    if !s1.c.Resting? {
      var s2 := Step(s1, ReadHeader);
      QueueSame(s1, s2);
      if s2.c.Wrapping? { WrapReachesRecord(s2); StoreWrapKeeps(s2); }
    }
  }

  lemma QueueSame(s: Ring, t: Ring)
    requires s.q1 == t.q1 && s.q2 == t.q2
    ensures Queue(s) == Queue(t)
  {
  }

  /** pop, when the reader stands at a record. */
  ghost function Popped(s: Ring): Ring
    requires Inv(s) && s.c.Ready?
  {
    PopChecked(s);
    Step(Step(Step(s, Recheck(|s.ws| - 1)), ReadSize), StoreRead)
  }

  lemma PopChecked(s: Ring)
    requires Inv(s) && s.c.Ready?
    ensures s.ws != [] && Enabled(s, Recheck(|s.ws| - 1)) && Inv(Step(s, Recheck(|s.ws| - 1)))
    ensures Step(s, Recheck(|s.ws| - 1)).c == Checked(s.c.at) && Enabled(Step(s, Recheck(|s.ws| - 1)), ReadSize)
  {
    hide Contents, Put;
    RecheckPasses(s, |s.ws| - 1);
    StepKeepsInv(s, Recheck(|s.ws| - 1));
    HeadersInBounds(Step(s, Recheck(|s.ws| - 1)));
  }

  lemma PoppedIs(s: Ring)
    requires Inv(s) && s.c.Ready?
    ensures var t := Popped(s);
            Inv(t) && t.p == s.p && t.c.Resting? && t.mem == s.mem && t.w == s.w && t.size == s.size
            && t.reserved == s.reserved
            && Queue(s) != [] && Queue(t) == Queue(s)[1..] && t.popped == s.popped + [Queue(s)[0]]
            && s.c.at < |s.mem| && t.r == s.c.at + s.mem[s.c.at]
  {
    hide Contents, Put, Inv;
    PopChecked(s);
    var s0 := Step(s, Recheck(|s.ws| - 1));
    QueueSame(s, s0);
    NextIsOldest(s0);
    var s1 := Step(s0, ReadSize);
    StepKeepsInv(s0, ReadSize);
    QueueSame(s0, s1);
    StoreReadKeeps(s1);
    PoppedQueue(s1);
  }

  lemma PoppedQueue(s: Ring)
    requires Inv(s) && s.c.Popping?
    ensures Queue(s) != [] && Queue(Step(s, StoreRead)) == Queue(s)[1..]
  {
    hide Contents, ProducerOk;
    assert s.q1 != [];
  }

  class RingBuffer {
    const size: nat
    const reserved: nat
    const data: array<nat>
    var writeIdx: nat
    var readIdx: nat
    /** The abstract ring these fields stand for. */
    ghost var ring: Ring

    ghost predicate Valid()
      reads this, data
    {
      && data.Length == size && ring.mem == data[..] && ring.size == size && ring.reserved == reserved
      && ring.w == writeIdx && ring.r == readIdx
      && ring.p.Idle? && ring.c.Resting? && Inv(ring)
    }

    /** The unread records, oldest first. */
    ghost function Unread(): seq<Rec>
      reads this
    {
      Queue(ring)
    }

    constructor (size: nat, reserved: nat)
      requires 0 < size <= MARKER
      ensures Valid() && fresh(data) && Unread() == [] && this.size == size && this.reserved == reserved
    {
      hide *;
      this.size := size;
      this.reserved := reserved;
      data := new nat[size](_ => 0);
      writeIdx := 0;
      readIdx := 0;
      new;
      ring := Ring(size, reserved, data[..], 0, 0, [0], [Seen(0, 0)], Idle, Resting, [], [], [], [], false, 0);
      NewRing(this);
    }

    /** The record, word by word, at pos. */
    method Store(pos: nat, words: seq<nat>)
      requires data.Length == size && pos + WORD * |words| <= size
      modifies data
      ensures data[..] == Put(old(data[..]), pos, words)
    {
      hide *;
      ghost var was := data[..];
      var k := 0;
      assert words[0..] == words;
      while k < |words|
        invariant 0 <= k <= |words|
        invariant Put(data[..], pos + WORD * k, words[k..]) == Put(was, pos, words)
      {
        PutNext(data[..], pos, words, k);
        ghost var before := data[..];
        data[pos + WORD * k] := words[k];
        assert data[..] == before[pos + WORD * k := words[k]];
        k := k + 1;
      }
      PutNone(data[..], pos + WORD * k, words[k..]);
    }

    /** The first half of do_push: where need bytes go, if anywhere. */
    method FindRoom(need: nat, force: bool) returns (found: bool, adjusted: nat)
      requires Valid() && need > 0
      ensures found <==> MakePlan(writeIdx, readIdx, size, reserved, need, force).WriteAt?
      ensures found ==> adjusted == MakePlan(writeIdx, readIdx, size, reserved, need, force).adj
    {
      hide Inv;
      InvIdle(ring);
      adjusted := writeIdx;
      WriteAvailableIs(writeIdx, readIdx, size);
      var available := WriteAvailable(writeIdx, readIdx, size);
      if available < need {
        return false, 0;
      }
      if adjusted + need >= size {
        adjusted := 0;
        WriteAvailableIs(0, readIdx, size);
        available := WriteAvailable(0, readIdx, size);
        if available < need {
          return false, 0;
        }
      }
      found := force || available - need >= reserved;
    }

    /** do_push: the record goes to the end of the queue, or nothing changes; it is refused exactly
        when MakePlan fails, which PlanExactly spells out. */
    method DoPush(rec: Rec, force: bool) returns (ok: bool)
      requires Valid()
      modifies this, data
      ensures Valid() && ring == Pushed(old(ring), rec, force)
      ensures ok <==> MakePlan(old(writeIdx), readIdx, size, reserved, Bytes(rec), force).WriteAt?
      ensures Unread() == if ok then old(Unread()) + [rec] else old(Unread())
      ensures ok ==> writeIdx != readIdx && (!force ==> Available(writeIdx, readIdx, size) >= reserved)
      ensures !ok ==> data[..] == old(data[..]) && writeIdx == old(writeIdx)
      ensures ok ==>
                Bytes(rec) <= writeIdx && (writeIdx == old(writeIdx) + Bytes(rec) || writeIdx == Bytes(rec))
                && WordsAt(data[..], writeIdx - Bytes(rec), Words(rec))
      ensures ok && writeIdx != old(writeIdx) + Bytes(rec) && old(writeIdx) + 8 < size ==> data[old(writeIdx)] == MARKER
      ensures forall i :: 0 <= i < size && data[i] != old(data[i]) ==>
                ok && (writeIdx - Bytes(rec) <= i < writeIdx
                       || (i == old(writeIdx) && writeIdx != old(writeIdx) + Bytes(rec) && i + 8 < size))
      ensures readIdx == old(readIdx) && ring.popped == old(ring.popped)
    {
      hide Put, Inv, Pushed, Words, MakePlan, Available, WordsAt, SpareFrom;
      InvIdle(ring);
      PushedIs(ring, rec, force);
      WordCount(rec);
      PlanBelow(ring, Bytes(rec), force);
      PlanExactly(writeIdx, readIdx, size, reserved, Bytes(rec), force);
      ghost var was := ring;
      var need := Bytes(rec);
      var adjusted;
      ok, adjusted := FindRoom(need, force);
      ring := Pushed(was, rec, force);
      if !ok {
        return;
      }
      if adjusted < writeIdx && size - writeIdx > WORD {
        data[writeIdx] := MARKER;
      }
      PutAt(data[..], adjusted, Words(rec));
      Store(adjusted, Words(rec));
      writeIdx := adjusted + need;
    }

    /** next_readable_block: an index holding the oldest unread record, or null exactly when nothing
        is unread. */
    method NextReadableBlock() returns (found: bool, at: nat)
      requires Valid()
      modifies this
      ensures Valid() && Unread() == old(Unread()) && ring.popped == old(ring.popped) && writeIdx == old(writeIdx)
      ensures found <==> Unread() != []
      ensures found ==>
                at == readIdx && WordsAt(data[..], at, Words(Unread()[0])) && at + 8 < size
                && data[at] != MARKER
    {
      hide Inv, Looked, Queue, WordsAt, Words;
      LookedIs(ring);
      InvIdle(ring);
      ghost var was := ring;
      if readIdx == writeIdx { return false, 0; }
      var header := data[readIdx];
      if header == MARKER || size - readIdx <= WORD {
        readIdx := 0;
      }
      NextIsOldest(Looked(was));
      ReadyRoom(Looked(was));
      ring := Step(Looked(was), Forget);
      StepKeepsInv(Looked(was), Forget);
      QueueSame(Looked(was), ring);
      return true, readIdx;
    }

    /** pop. With nothing unread it does nothing; at a wrap marker it only follows the marker;
        otherwise, so always after next has returned a block, it removes the oldest record. Without
        a call of next it must not stand at an unmarked wrap point. */
    method Pop()
      requires Valid()
      requires readIdx == writeIdx || readIdx + 8 < size
      modifies this
      ensures Valid() && writeIdx == old(writeIdx)
      ensures old(Unread()) == [] ==> Unread() == [] && readIdx == old(readIdx)
      ensures old(Unread()) != [] && old(readIdx) < size && data[old(readIdx)] == MARKER ==>
                Unread() == old(Unread()) && readIdx == 0
      ensures old(Unread()) != [] && old(readIdx) < size && data[old(readIdx)] != MARKER ==>
        Unread() == old(Unread())[1..] && ring.popped == old(ring.popped) + [old(Unread())[0]]
    {
      hide Inv, Looked, Popped, Queue, WordsAt, Words;
      LookedIs(ring);
      InvIdle(ring);
      ghost var was := ring;
      if readIdx == writeIdx { return; }
      var header := data[readIdx];
      if header == MARKER {
        readIdx := 0;
        ring := Step(Looked(was), Forget);
        StepKeepsInv(Looked(was), Forget);
        QueueSame(Looked(was), ring);
      } else {
        PoppedIs(Looked(was));
        readIdx := readIdx + header;
        ring := Popped(Looked(was));
      }
    }
  }

  lemma PutNone(mem: seq<nat>, pos: nat, words: seq<nat>)
    requires words == []
    ensures Put(mem, pos, words) == mem
  {
  }

  lemma ReadyRoom(s: Ring)
    requires Inv(s) && s.c.Ready?
    ensures RoomToMark(s.size, s.c.at) && s.c.at < |s.mem| && s.mem[s.c.at] != MARKER
  {
    hide WordsAt;
    LaidHead(s.mem, s.r, if s.wrapped then s.end else s.w, s.q1);
  }

  lemma NewRing(b: RingBuffer)
    requires 0 < b.size <= MARKER && b.data.Length == b.size && b.writeIdx == 0 && b.readIdx == 0
    requires b.ring == Ring(b.size, b.reserved, b.data[..], 0, 0, [0], [Seen(0, 0)], Idle, Resting, [], [], [], [],
                            false, 0)
    ensures b.Valid() && b.Unread() == []
  {
    hide Inv;
    InitInv(b.ring);
  }
}
