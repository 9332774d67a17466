/** The single-producer single-consumer record ring as a state machine: every load, marker write,
    record write and index store of the two threads is one step, and any interleaving of the two
    is a run. A thread's load of the other's index may return any value that index has had since the
    thread last loaded it. Words are kept at the byte index they start at; every access is shown to be at a
    multiple of the word size, so words never overlap. */
module RingModel {

  const WORD: nat := 8
  /** The wrap marker. */
  const MARKER: nat := 0xDEADBEEFFACEC0DE

  /** A pushed object: its words, behind a header word that holds the size of both. */
  datatype Rec = Rec(payload: seq<nat>)

  function Bytes(r: Rec): nat {
    WORD * (1 + |r.payload|)
  }

  function Words(r: Rec): seq<nat> {
    [Bytes(r)] + r.payload
  }

  /** Where the producer is inside do_push. adj is the index it writes the record at, from the index it
      found, and k the number of words it has written. */
  datatype Producer =
    | Idle
    | Begun(rec: Rec, force: bool, from: nat)
    | Marking(rec: Rec, force: bool, from: nat)
    | Writing(rec: Rec, force: bool, from: nat, adj: nat, k: nat)
    | Publishing(rec: Rec, force: bool, from: nat, adj: nat)

  /** Where the consumer is inside next and pop. at is the index it works on. */
  datatype Consumer =
    | Resting
    | Nonempty(at: nat)
    | Wrapping(at: nat)
    | Ready(at: nat)
    | Checked(at: nat)
    | Popping(at: nat, size: nat)

  /** A value the write index has had, and how many records had been pushed when it was stored. */
  datatype Seen = Seen(w: nat, count: nat)

  /** size and reserved are constants; w and r the two published indices. rs are the values r has had
      since the producer last loaded it, that one included, and ws those of w since the consumer last
      did. pushed and popped record the history. q1 and q2 hold the unread records before and behind
      the wrap point, end, when there is one. */
  datatype Ring = Ring(size: nat, reserved: nat, mem: seq<nat>, w: nat, r: nat, rs: seq<nat>, ws: seq<Seen>,
                       p: Producer, c: Consumer,
                       pushed: seq<Rec>, popped: seq<Rec>, q1: seq<Rec>, q2: seq<Rec>, wrapped: bool, end: nat)

  // ---------------------------------------------------------------- the code's arithmetic

  /** write_available; the unsigned difference plus size when the writer is not behind. */
  function Available(w: nat, r: nat, size: nat): int {
    if w >= r then r - w - 1 + size else r - w - 1
  }

  datatype Plan = Fail | WriteAt(adj: nat)

  /** The decisions of do_push between loading the reader index and the first write. */
  function MakePlan(w: nat, r: nat, size: nat, reserved: nat, n: nat, force: bool): Plan {
    if Available(w, r, size) < n then Fail
    else
      var adj := if w + n >= size then 0 else w;
      var avail := if w + n >= size then Available(0, r, size) else Available(w, r, size);
      if avail < n then Fail
      else if !force && avail - n < reserved then Fail
      else WriteAt(adj)
  }

  function Put(mem: seq<nat>, pos: nat, words: seq<nat>): (r: seq<nat>)
    ensures |r| == |mem|
    decreases |words|
  {
    if words == [] then mem
    else Put(if pos < |mem| then mem[pos := words[0]] else mem, pos + WORD, words[1..])
  }

  // ---------------------------------------------------------------- steps

  datatype Action =
    | BeginPush(rec: Rec, force: bool)
    | LoadReader(i: nat)            // the i-th of the values it may see
    | WriteMarker
    | WriteWord
    | Publish
    | LoadWriter(i: nat)
    | ReadHeader
    | StoreWrap
    | Forget                        // next has returned, and the caller does not pop
    | Recheck(i: nat)               // pop loads the write index again
    | ReadSize
    | StoreRead

  predicate Enabled(s: Ring, a: Action) {
    match a
    case BeginPush(rec, force) => s.p.Idle?
    case LoadReader(i) => s.p.Begun? && i < |s.rs|
    case WriteMarker => s.p.Marking?
    case WriteWord => s.p.Writing? && s.p.k < |Words(s.p.rec)|
    case Publish => s.p.Publishing?
    case LoadWriter(i) => s.c.Resting? && i < |s.ws|
    case ReadHeader => s.c.Nonempty? && s.c.at < |s.mem|
    case StoreWrap => s.c.Wrapping?
    case Forget => s.c.Ready?
    case Recheck(i) => s.c.Ready? && i < |s.ws|
    case ReadSize => s.c.Checked? && s.c.at < |s.mem|
    case StoreRead => s.c.Popping?
  }

  /** The marker is left out when no more than a word remains. */
  predicate RoomToMark(size: nat, at: nat) {
    size > at + WORD
  }

  function Step(s: Ring, a: Action): Ring
    requires Enabled(s, a)
  {
    match a
    case BeginPush(rec, force) => s.(p := Begun(rec, force, s.w))
    case LoadReader(i) =>
      var s1 := s.(rs := s.rs[i..]);
      (match MakePlan(s.p.from, s.rs[i], s.size, s.reserved, Bytes(s.p.rec), s.p.force)
       case Fail => s1.(p := Idle)
       case WriteAt(adj) =>
         if adj < s.p.from && RoomToMark(s.size, s.p.from) then s1.(p := Marking(s.p.rec, s.p.force, s.p.from))
         else s1.(p := Writing(s.p.rec, s.p.force, s.p.from, adj, 0)))
    case WriteMarker => s.(mem := Put(s.mem, s.p.from, [MARKER]), p := Writing(s.p.rec, s.p.force, s.p.from, 0, 0))
    case WriteWord =>
      s.(mem := Put(s.mem, s.p.adj + WORD * s.p.k, [Words(s.p.rec)[s.p.k]]),
         p := if s.p.k + 1 < |Words(s.p.rec)| then s.p.(k := s.p.k + 1)
              else Publishing(s.p.rec, s.p.force, s.p.from, s.p.adj))
    case Publish =>
      var w1 := s.p.adj + Bytes(s.p.rec);
      var s1 := s.(w := w1, ws := s.ws + [Seen(w1, |s.pushed| + 1)], p := Idle, pushed := s.pushed + [s.p.rec]);
      if s.p.adj < s.p.from then s1.(wrapped := true, end := s.p.from, q2 := [s.p.rec])
      else if s.wrapped then s1.(q2 := s.q2 + [s.p.rec])
      else s1.(q1 := s.q1 + [s.p.rec])
    case LoadWriter(i) => s.(ws := s.ws[i..], c := if s.r == s.ws[i].w then Resting else Nonempty(s.r))
    case ReadHeader =>
      if s.mem[s.c.at] == MARKER || !RoomToMark(s.size, s.c.at) then s.(c := Wrapping(s.c.at))
      else s.(c := Ready(s.c.at))
    case StoreWrap => s.(r := 0, rs := s.rs + [0], c := Ready(0), wrapped := false, q1 := s.q2, q2 := [])
    case Forget => s.(c := Resting)
    case Recheck(i) => s.(ws := s.ws[i..], c := if s.r == s.ws[i].w then Resting else Checked(s.c.at))
    case ReadSize => s.(c := Popping(s.c.at, s.mem[s.c.at]))
    case StoreRead =>
      s.(r := s.c.at + s.c.size, rs := s.rs + [s.c.at + s.c.size], c := Resting,
         popped := s.popped + s.q1[..if s.q1 == [] then 0 else 1],
         q1 := if s.q1 == [] then [] else s.q1[1..])
  }

  // ---------------------------------------------------------------- the invariant

  ghost predicate WordsAt(mem: seq<nat>, pos: nat, words: seq<nat>) {
    forall j :: 0 <= j < |words| ==> pos + WORD * j < |mem| && mem[pos + WORD * j] == words[j]
  }

  /** The records of q lie one behind the other from a to b. */
  ghost predicate Laid(mem: seq<nat>, a: nat, b: nat, q: seq<Rec>)
    decreases |q|
  {
    if q == [] then a == b
    else a + Bytes(q[0]) <= b && WordsAt(mem, a, Words(q[0])) && Laid(mem, a + Bytes(q[0]), b, q[1..])
  }

  /** A reader standing at this index goes back to 0. */
  ghost predicate WrapsAt(mem: seq<nat>, size: nat, at: nat) {
    at < |mem| && (mem[at] == MARKER || !RoomToMark(size, at))
  }

  ghost function Queue(s: Ring): seq<Rec> {
    s.q1 + s.q2
  }

  ghost predicate IndicesOk(s: Ring) {
    && 0 < s.size <= MARKER && |s.mem| == s.size
    && s.w < s.size && s.r < s.size && s.w % WORD == 0 && s.r % WORD == 0
  }

  /** The unread records fill [r, w), or [r, end) and, behind the wrap, [0, w). */
  ghost predicate Contents(s: Ring) {
    if !s.wrapped then s.q2 == [] && s.r <= s.w && Laid(s.mem, s.r, s.w, s.q1)
    else
      && s.q2 != [] && s.w < s.r <= s.end < s.size && s.end % WORD == 0
      && Laid(s.mem, s.r, s.end, s.q1) && WrapsAt(s.mem, s.size, s.end) && Laid(s.mem, 0, s.w, s.q2)
  }

  /** n bytes at adj, and the index behind them, are clear of what a reader at r has still to read. */
  ghost predicate FreeFrom(w: nat, r: nat, size: nat, adj: nat, n: nat) {
    adj + n < size && ((adj == w && (w < r ==> adj + n < r)) || (adj == 0 && r <= w && n < r))
  }

  ghost predicate SpareFrom(r: nat, size: nat, reserved: nat, adj: nat, n: nat, force: bool) {
    !force ==> Available(adj + n, r, size) >= reserved
  }

  /** The bytes the producer is about to write, and the index it will publish, are clear of everything
      unread. */
  ghost predicate Clear(s: Ring, adj: nat, n: nat) {
    && n >= WORD && n % WORD == 0 && adj + n < s.size
    && ((adj == s.w && (s.wrapped ==> adj + n < s.r)) || (adj == 0 && adj < s.w && !s.wrapped && n < s.r))
  }

  ghost predicate Spare(s: Ring, adj: nat, n: nat, force: bool) {
    SpareFrom(s.r, s.size, s.reserved, adj, n, force)
  }

  /** That is so for all values the reader index has had since the producer loaded it. */
  ghost predicate AllClear(s: Ring, adj: nat, n: nat, force: bool) {
    forall i :: 0 <= i < |s.rs| ==>
      FreeFrom(s.w, s.rs[i], s.size, adj, n) && SpareFrom(s.rs[i], s.size, s.reserved, adj, n, force)
  }

  ghost predicate ProducerOk(s: Ring) {
    match s.p
    case Idle => true
    case Begun(rec, force, from) => from == s.w
    case Marking(rec, force, from) => from == s.w && 0 < from && RoomToMark(s.size, from)
                                      && AllClear(s, 0, Bytes(rec), force)
    case Writing(rec, force, from, adj, k) =>
      from == s.w && adj <= from && AllClear(s, adj, Bytes(rec), force) && (adj < from ==> WrapsAt(s.mem, s.size, from))
      && k < |Words(rec)| && WordsAt(s.mem, adj, Words(rec)[..k])
    case Publishing(rec, force, from, adj) =>
      from == s.w && adj <= from && AllClear(s, adj, Bytes(rec), force) && (adj < from ==> WrapsAt(s.mem, s.size, from))
      && WordsAt(s.mem, adj, Words(rec))
  }

  ghost predicate ConsumerOk(s: Ring) {
    match s.c
    case Resting => true
    case Nonempty(at) => at == s.r && Queue(s) != []
    case Wrapping(at) => at == s.r && s.wrapped && s.q1 == []
    case Ready(at) => at == s.r && s.q1 != []
    case Checked(at) => at == s.r && s.q1 != []
    case Popping(at, size) => at == s.r && s.q1 != [] && size == Bytes(s.q1[0])
  }

  /** Going round from a, b comes no later than w. */
  ghost predicate Behind(w: nat, a: nat, b: nat) {
    if a <= w then a <= b <= w else a <= b || b <= w
  }

  /** The reader index has only gone round towards the write index. */
  ghost predicate ReadersOk(s: Ring) {
    && s.rs != [] && s.rs[|s.rs| - 1] == s.r
    && (forall i :: 0 <= i < |s.rs| ==> s.rs[i] < s.size)
    && (forall i, j :: 0 <= i <= j < |s.rs| ==> Behind(s.w, s.rs[i], s.rs[j]))
  }

  ghost function Span(q: seq<Rec>): nat
    decreases |q|
  {
    if q == [] then 0 else Bytes(q[0]) + Span(q[1..])
  }

  /** Where the first k unread records end. */
  ghost function Position(s: Ring, k: nat): nat {
    if k <= |s.q1| then s.r + Span(s.q1[..k]) else if k - |s.q1| <= |s.q2| then Span(s.q2[..k - |s.q1|]) else 0
  }

  /** Each value of the write index is where the records pushed till then end; none of these has been
      read before the value has. */
  ghost predicate WritersOk(s: Ring) {
    && s.ws != [] && s.ws[|s.ws| - 1] == Seen(s.w, |s.pushed|)
    && (forall i :: 0 <= i < |s.ws| ==>
          |s.popped| <= s.ws[i].count <= |s.pushed| && s.ws[i].w == Position(s, s.ws[i].count - |s.popped|))
    && (forall i, j :: 0 <= i < j < |s.ws| ==> s.ws[i].count < s.ws[j].count)
    && (!s.c.Resting? ==> |s.popped| < s.ws[0].count)
  }

  ghost predicate Core(s: Ring) {
    && IndicesOk(s) && Contents(s) && ProducerOk(s) && ConsumerOk(s)
    && s.pushed == s.popped + Queue(s)
  }

  ghost predicate Inv(s: Ring) {
    Core(s) && ReadersOk(s) && WritersOk(s)
  }

  ghost predicate Init(s: Ring) {
    && 0 < s.size <= MARKER && |s.mem| == s.size && s.w == 0 && s.r == 0
    && s.rs == [0] && s.ws == [Seen(0, 0)] && s.p == Idle && s.c == Resting && s.pushed == [] && s.popped == []
       && s.q1 == [] && s.q2 == [] && !s.wrapped
  }

  lemma InitInv(s: Ring)
    requires Init(s)
    ensures Inv(s)
  {
    assert Laid(s.mem, 0, 0, []);
  }

  // ---------------------------------------------------------------- memory

  /** Put writes exactly the words, a word apart, and nothing outside them. */
  lemma {:induction false} PutAt(mem: seq<nat>, pos: nat, words: seq<nat>)
    requires pos + WORD * |words| <= |mem|
    ensures WordsAt(Put(mem, pos, words), pos, words)
    ensures forall i :: 0 <= i < |mem| && !(pos <= i < pos + WORD * |words|) ==> Put(mem, pos, words)[i] == mem[i]
    decreases |words|
  {
    if words != [] {
      var m1 := mem[pos := words[0]];
      PutAt(m1, pos + WORD, words[1..]);
      assert Put(mem, pos, words) == Put(m1, pos + WORD, words[1..]);
      forall j | 0 <= j < |words| ensures pos + WORD * j < |mem| && Put(mem, pos, words)[pos + WORD * j] == words[j] {
        if j > 0 {
          assert words[1..][j - 1] == words[j];
          assert pos + WORD + WORD * (j - 1) == pos + WORD * j;
        }
      }
    }
  }

  ghost predicate SameFrom(m0: seq<nat>, m1: seq<nat>, a: nat, b: nat) {
    |m0| == |m1| && forall i :: a <= i < b && i < |m0| ==> m0[i] == m1[i]
  }

  lemma WordsAtSame(m0: seq<nat>, m1: seq<nat>, pos: nat, words: seq<nat>)
    requires WordsAt(m0, pos, words) && SameFrom(m0, m1, pos, pos + WORD * |words|)
    ensures WordsAt(m1, pos, words)
  {
  }

  lemma {:induction false} LaidSame(m0: seq<nat>, m1: seq<nat>, a: nat, b: nat, q: seq<Rec>)
    requires Laid(m0, a, b, q) && SameFrom(m0, m1, a, b)
    ensures Laid(m1, a, b, q) && a <= b
    decreases |q|
  {
    if q != [] {
      WordsAtSame(m0, m1, a, Words(q[0]));
      LaidSame(m0, m1, a + Bytes(q[0]), b, q[1..]);
    }
  }

  lemma {:induction false} LaidAppend(mem: seq<nat>, a: nat, b: nat, q: seq<Rec>, rec: Rec)
    requires Laid(mem, a, b, q) && WordsAt(mem, b, Words(rec))
    ensures Laid(mem, a, b + Bytes(rec), q + [rec])
    decreases |q|
  {
    hide WordsAt, Words, Bytes;
    var b1 := b + Bytes(rec);
    if q == [] {
      assert q + [rec] == [rec] && [rec][1..] == [];
      assert Laid(mem, b1, b1, []);
    } else {
      LaidAppend(mem, a + Bytes(q[0]), b, q[1..], rec);
      LaidSame(mem, mem, a + Bytes(q[0]), b, q[1..]);
      assert (q + [rec])[0] == q[0] && (q + [rec])[1..] == q[1..] + [rec];
    }
  }

  /** The first record begins with its size, which is never the marker. */
  lemma LaidHead(mem: seq<nat>, a: nat, b: nat, q: seq<Rec>)
    requires Laid(mem, a, b, q) && q != [] && b < |mem|
    ensures a < |mem| && mem[a] == Bytes(q[0]) && a + Bytes(q[0]) <= b && Laid(mem, a + Bytes(q[0]), b, q[1..])
    ensures a < b
  {
    assert Words(q[0])[0] == Bytes(q[0]);
    assert a + WORD * 0 == a;
  }

  lemma {:induction false} LaidEnds(mem: seq<nat>, a: nat, b: nat, q: seq<Rec>)
    requires Laid(mem, a, b, q)
    ensures a <= b && (q == [] <==> a == b)
    decreases |q|
  {
    if q != [] { LaidEnds(mem, a + Bytes(q[0]), b, q[1..]); }
  }

  // ---------------------------------------------------------------- the producer's decision

  /** do_push refuses exactly when, by the reader index it has loaded, neither the bytes from the write
      index to the end of the ring nor those before the reader can take the record and, unless forced,
      leave the reserve. */
  lemma PlanExactly(w: nat, r: nat, size: nat, reserved: nat, n: nat, force: bool)
    requires w < size && r < size && n > 0
    ensures match MakePlan(w, r, size, reserved, n, force)
            case WriteAt(adj) =>
              FreeFrom(w, r, size, adj, n) && SpareFrom(r, size, reserved, adj, n, force) && (adj == w || w + n >= size)
            case Fail =>
              && !(FreeFrom(w, r, size, w, n) && SpareFrom(r, size, reserved, w, n, force))
              && (w + n >= size ==> !(FreeFrom(w, r, size, 0, n) && SpareFrom(r, size, reserved, 0, n, force)))
  {
  }

  /** A stale reader index is a safe one: what is clear by it is clear by any later one. */
  lemma FreeForward(w: nat, a: nat, b: nat, size: nat, reserved: nat, adj: nat, n: nat, force: bool)
    requires Behind(w, a, b) && w < size && a < size && b < size && n > 0
    requires FreeFrom(w, a, size, adj, n) && SpareFrom(a, size, reserved, adj, n, force)
    ensures FreeFrom(w, b, size, adj, n) && SpareFrom(b, size, reserved, adj, n, force)
  {
  }

  /** The write index does not overtake any of the reader indices it was checked against. */
  lemma BehindPublished(w: nat, a: nat, b: nat, size: nat, adj: nat, n: nat)
    requires Behind(w, a, b) && FreeFrom(w, a, size, adj, n) && adj <= w && n > 0
    ensures Behind(adj + n, a, b)
  {
  }

  /** Where the unread records lie tells the two shapes of the ring apart. */
  lemma Shape(s: Ring)
    requires IndicesOk(s) && Contents(s)
    ensures s.wrapped <==> s.w < s.r
    ensures s.w == s.r <==> Queue(s) == []
  {
    if s.wrapped {
      LaidEnds(s.mem, 0, s.w, s.q2);
    } else {
      LaidEnds(s.mem, s.r, s.w, s.q1);
    }
  }

  lemma AllClearNow(s: Ring, adj: nat, rec: Rec, force: bool)
    requires IndicesOk(s) && Contents(s) && ReadersOk(s) && AllClear(s, adj, Bytes(rec), force)
    ensures Clear(s, adj, Bytes(rec)) && Spare(s, adj, Bytes(rec), force) && adj <= s.w
  {
    Shape(s);
    assert Bytes(rec) == WORD * (1 + |rec.payload|);
    assert Bytes(rec) % WORD == 0;
    assert s.rs[|s.rs| - 1] == s.r;
  }

  // ---------------------------------------------------------------- the producer's steps

  lemma LoadReaderIs(s: Ring, i: nat)
    requires Enabled(s, LoadReader(i))
    ensures var s1, p := Step(s, LoadReader(i)), s.p;
            var plan := MakePlan(p.from, s.rs[i], s.size, s.reserved, Bytes(p.rec), p.force);
            s1 == s.(rs := s.rs[i..], p := s1.p)
            && s1.p == if plan.Fail? then Idle
                       else if plan.adj < p.from && RoomToMark(s.size, p.from) then Marking(p.rec, p.force, p.from)
                       else Writing(p.rec, p.force, p.from, plan.adj, 0)
  {
    hide MakePlan, Bytes;
  }

  lemma LoadReaderKeeps(s: Ring, i: nat)
    requires Inv(s) && Enabled(s, LoadReader(i))
    ensures Inv(Step(s, LoadReader(i)))
  {
    hide Laid, WordsAt, Contents, Step, MakePlan, Bytes, Position, FreeFrom, SpareFrom, WritersOk, Behind;
    var s1, n, from := Step(s, LoadReader(i)), Bytes(s.p.rec), s.p.from;
    LoadReaderIs(s, i);
    WordCount(s.p.rec);
    PlanExactly(s.w, s.rs[i], s.size, s.reserved, n, s.p.force);
    SameContents(s, s1);
    SameWriters(s, s1);
    LaterReaders(s, i);
    var plan := MakePlan(from, s.rs[i], s.size, s.reserved, n, s.p.force);
    if plan.WriteAt? {
      PlanPlace(s.w, s.rs[i], s.size, plan.adj, n);
      NoWords(s1.mem, plan.adj, Words(s.p.rec));
      LaterClear(s, i, plan.adj, s.p.rec, s.p.force);
      SameClear(s.(rs := s.rs[i..]), s1, plan.adj, s.p.rec, s.p.force);
      if plan.adj < from && !RoomToMark(s.size, from) { assert WrapsAt(s.mem, s.size, from); }
    }
  }

  lemma NoWords(mem: seq<nat>, adj: nat, words: seq<nat>)
    ensures WordsAt(mem, adj, words[..0])
  {
  }

  lemma PlanPlace(w: nat, r: nat, size: nat, adj: nat, n: nat)
    requires FreeFrom(w, r, size, adj, n)
    ensures adj == w || adj == 0
  {
  }

  lemma LaterReaders(s: Ring, i: nat)
    requires ReadersOk(s) && i < |s.rs|
    ensures forall t: Ring :: t.rs == s.rs[i..] && t.w == s.w && t.r == s.r && t.size == s.size ==> ReadersOk(t)
  {
    hide Behind;
    forall t: Ring | t.rs == s.rs[i..] && t.w == s.w && t.r == s.r && t.size == s.size ensures ReadersOk(t) {
      assert forall j :: 0 <= j < |t.rs| ==> t.rs[j] == s.rs[i + j];
    }
  }

  lemma LaterClear(s: Ring, i: nat, adj: nat, rec: Rec, force: bool)
    requires ReadersOk(s) && i < |s.rs| && s.w < s.size && Bytes(rec) > 0
    requires FreeFrom(s.w, s.rs[i], s.size, adj, Bytes(rec))
             && SpareFrom(s.rs[i], s.size, s.reserved, adj, Bytes(rec), force)
    ensures AllClear(s.(rs := s.rs[i..]), adj, Bytes(rec), force)
  {
    hide Behind, FreeFrom, SpareFrom, Bytes;
    var n, rs := Bytes(rec), s.rs[i..];
    forall j | 0 <= j < |rs|
      ensures FreeFrom(s.w, rs[j], s.size, adj, n) && SpareFrom(rs[j], s.size, s.reserved, adj, n, force)
    {
      FreeForward(s.w, s.rs[i], s.rs[i + j], s.size, s.reserved, adj, n, force);
    }
  }

  lemma SameClear(s: Ring, t: Ring, adj: nat, rec: Rec, force: bool)
    requires t.rs == s.rs && t.w == s.w && t.size == s.size && t.reserved == s.reserved
    ensures AllClear(s, adj, Bytes(rec), force) ==> AllClear(t, adj, Bytes(rec), force)
  {
  }

  lemma SameContents(s: Ring, t: Ring)
    requires Contents(s) && IndicesOk(s)
    requires t.mem == s.mem && t.size == s.size && t.w == s.w && t.r == s.r && t.q1 == s.q1 && t.q2 == s.q2
             && t.wrapped == s.wrapped && t.end == s.end
    ensures Contents(t) && IndicesOk(t) && Queue(t) == Queue(s)
  {
  }

  lemma SameWriters(s: Ring, t: Ring)
    requires WritersOk(s) && t.ws == s.ws && t.w == s.w && t.r == s.r && t.q1 == s.q1 && t.q2 == s.q2
    requires t.pushed == s.pushed && t.popped == s.popped && (t.c == s.c || t.c.Resting? || !s.c.Resting?)
    ensures WritersOk(t)
  {
    hide Position;
    assert forall k: nat :: Position(t, k) == Position(s, k) by { SamePosition(s, t); }
  }

  lemma SamePosition(s: Ring, t: Ring)
    requires t.r == s.r && t.q1 == s.q1 && t.q2 == s.q2
    ensures forall k: nat :: Position(t, k) == Position(s, k)
  {
  }

  /** What the producer writes keeps every unread record and the wrap point. */
  lemma WriteKeeps(s: Ring, m1: seq<nat>, a: nat, b: nat)
    requires IndicesOk(s) && Contents(s)
    requires |m1| == |s.mem| && SameFrom(s.mem, m1, 0, a) && SameFrom(s.mem, m1, b, s.size)
    requires if s.wrapped then s.w <= a && b <= s.r else s.w <= a || b <= s.r
    ensures Contents(s.(mem := m1))
  {
    hide WordsAt;
    if s.wrapped {
      LaidSame(s.mem, m1, s.r, s.end, s.q1);
      LaidSame(s.mem, m1, 0, s.w, s.q2);
    } else {
      LaidSame(s.mem, m1, s.r, s.w, s.q1);
    }
  }

  lemma WriteMarkerKeeps(s: Ring)
    requires Inv(s) && s.p.Marking?
    ensures Inv(Step(s, WriteMarker))
  {
    hide Laid, Put, ReadersOk, WritersOk, Contents, AllClear;
    var s1 := Step(s, WriteMarker);
    AllClearNow(s, 0, s.p.rec, s.p.force);
    Shape(s);
    PutAt(s.mem, s.w, [MARKER]);
    assert WordsAt(s1.mem, s.w, [MARKER]);
    assert s.w + WORD * 0 == s.w && s1.mem[s.w] == MARKER;
    WriteKeeps(s, s1.mem, s.w, s.w + WORD);
    SameContents(s.(mem := s1.mem), s1);
    SameReaders(s, s1, 0, s.p.rec, s.p.force);
    SameWriters(s, s1);
  }

  lemma SameReaders(s: Ring, t: Ring, adj: nat, rec: Rec, force: bool)
    requires t.rs == s.rs && t.w == s.w && t.r == s.r && t.size == s.size && t.reserved == s.reserved
    ensures ReadersOk(s) ==> ReadersOk(t)
    ensures AllClear(s, adj, Bytes(rec), force) ==> AllClear(t, adj, Bytes(rec), force)
  {
    SameClear(s, t, adj, rec, force);
  }

  /** The word goes where no unread record and no wrap point is, behind those written before. */
  lemma WriteWordMem(s: Ring)
    requires Inv(s) && s.p.Writing?
    ensures var m1, words := Put(s.mem, s.p.adj + WORD * s.p.k, [Words(s.p.rec)[s.p.k]]), Words(s.p.rec);
            && Contents(s.(mem := m1)) && WordsAt(m1, s.p.adj, words[..s.p.k + 1])
            && (s.p.k + 1 == |words| ==> WordsAt(m1, s.p.adj, words))
            && (s.p.adj < s.p.from ==> WrapsAt(m1, s.size, s.p.from))
  {
    hide Laid, Put, WordsAt, ReadersOk, WritersOk, Contents, AllClear, Words, ConsumerOk, Queue;
    var adj, k := s.p.adj, s.p.k;
    AllClearNow(s, adj, s.p.rec, s.p.force);
    Shape(s);
    WordCount(s.p.rec);
    var pos := adj + WORD * k;
    assert pos + WORD <= adj + Bytes(s.p.rec);
    PutAt(s.mem, pos, [Words(s.p.rec)[k]]);
    var m1 := Put(s.mem, pos, [Words(s.p.rec)[k]]);
    WriteKeeps(s, m1, pos, pos + WORD);
    WordAdded(s.mem, m1, adj, Words(s.p.rec), k);
  }

  lemma WriteWordKeeps(s: Ring)
    requires Inv(s) && s.p.Writing?
    ensures Inv(Step(s, WriteWord))
  {
    hide Laid, Put, WordsAt, ReadersOk, WritersOk, Contents, AllClear, Words, Bytes, WrapsAt, Queue;
    var s1 := Step(s, WriteWord);
    WriteWordMem(s);
    SameContents(s.(mem := s1.mem), s1);
    SameReaders(s, s1, s.p.adj, s.p.rec, s.p.force);
    SameWriters(s, s1);
    QueueOf(s, s1);
  }

  lemma QueueOf(s: Ring, t: Ring)
    requires t.q1 == s.q1 && t.q2 == s.q2
    ensures Queue(t) == Queue(s)
  {
  }

  lemma WordCount(rec: Rec)
    ensures WORD * |Words(rec)| == Bytes(rec) && Bytes(rec) > 0 && |Words(rec)| > 0
  {
  }

  lemma WordAdded(m0: seq<nat>, m1: seq<nat>, adj: nat, words: seq<nat>, k: nat)
    requires k < |words| && WordsAt(m0, adj, words[..k]) && |m1| == |m0| && WordsAt(m1, adj + WORD * k, [words[k]])
    requires forall i :: 0 <= i < |m0| && !(adj + WORD * k <= i < adj + WORD * (k + 1)) ==> m1[i] == m0[i]
    ensures WordsAt(m1, adj, words[..k + 1]) && (k + 1 == |words| ==> WordsAt(m1, adj, words))
  {
    var ws := words[..k + 1];
    forall j | 0 <= j < |ws|
      ensures adj + WORD * j < |m1| && m1[adj + WORD * j] == ws[j]
    {
      if j < k {
        assert words[..k][j] == ws[j];
      } else {
        assert adj + WORD * k + WORD * 0 == adj + WORD * k;
      }
    }
    if k + 1 == |words| { assert ws == words; }
  }

  lemma PublishContents(s: Ring)
    requires Inv(s) && s.p.Publishing?
    ensures IndicesOk(Step(s, Publish)) && Contents(Step(s, Publish))
  {
    hide Laid, WordsAt, ReadersOk, WritersOk, AllClear;
    var rec := s.p.rec;
    AllClearNow(s, s.p.adj, rec, s.p.force);
    if s.p.adj < s.p.from {
      assert Laid(s.mem, 0, 0, []) by { LaidNone(s.mem, 0); }
      LaidAppend(s.mem, 0, 0, [], rec);
      assert [] + [rec] == [rec];
    } else if s.wrapped {
      LaidAppend(s.mem, 0, s.w, s.q2, rec);
    } else {
      LaidAppend(s.mem, s.r, s.w, s.q1, rec);
    }
  }

  lemma LaidNone(mem: seq<nat>, a: nat)
    ensures Laid(mem, a, a, [])
  {
  }

  lemma PublishReaders(s: Ring)
    requires Inv(s) && s.p.Publishing?
    ensures ReadersOk(Step(s, Publish))
  {
    hide Laid, WordsAt, Contents, WritersOk;
    var s1, n := Step(s, Publish), Bytes(s.p.rec);
    forall i, j | 0 <= i <= j < |s1.rs| ensures Behind(s1.w, s1.rs[i], s1.rs[j]) {
      BehindPublished(s.w, s.rs[i], s.rs[j], s.size, s.p.adj, n);
    }
  }

  lemma {:induction false} SpanAppend(q: seq<Rec>, rec: Rec)
    ensures Span(q + [rec]) == Span(q) + Bytes(rec)
    decreases |q|
  {
    if q == [] {
      assert q + [rec] == [rec] && [rec][1..] == [];
    } else {
      SpanAppend(q[1..], rec);
      assert (q + [rec])[0] == q[0] && (q + [rec])[1..] == q[1..] + [rec];
    }
  }

  lemma {:induction false} LaidSpan(mem: seq<nat>, a: nat, b: nat, q: seq<Rec>)
    requires Laid(mem, a, b, q)
    ensures a + Span(q) == b
    decreases |q|
  {
    if q != [] { LaidSpan(mem, a + Bytes(q[0]), b, q[1..]); }
  }

  /** The records published before keep their places, and the new one ends at the new write index. */
  lemma PublishPositions(s: Ring, k: nat)
    requires Inv(s) && s.p.Publishing? && k <= |Queue(s)|
    ensures Position(Step(s, Publish), k) == Position(s, k)
    ensures Position(Step(s, Publish), |Queue(s)| + 1) == Step(s, Publish).w
  {
    hide Laid, WordsAt, ReadersOk, WritersOk, AllClear, Bytes, Span;
    var s1, rec := Step(s, Publish), s.p.rec;
    AllClearNow(s, s.p.adj, rec, s.p.force);
    Shape(s);
    if s.p.adj < s.p.from {
      assert s1.q2[..1] == [] + [rec];
      SpanAppend([], rec);
      SpanNone();
    } else if s.wrapped {
      LaidSpan(s.mem, 0, s.w, s.q2);
      SpanAppend(s.q2, rec);
      assert s1.q2[..|s1.q2|] == s1.q2;
      assert forall j :: 0 <= j <= |s.q2| ==> s1.q2[..j] == s.q2[..j];
    } else {
      LaidSpan(s.mem, s.r, s.w, s.q1);
      SpanAppend(s.q1, rec);
      assert s1.q1[..|s1.q1|] == s1.q1;
      assert forall j :: 0 <= j <= |s.q1| ==> s1.q1[..j] == s.q1[..j];
    }
  }

  lemma SpanNone()
    ensures Span([]) == 0
  {
  }

  lemma PublishIs(s: Ring)
    requires s.p.Publishing?
    ensures var s1 := Step(s, Publish);
            s1.pushed == s.pushed + [s.p.rec] && s1.popped == s.popped && s1.c == s.c
            && s1.ws == s.ws + [Seen(s1.w, |s1.pushed|)]
  {
    hide Bytes;
  }

  lemma PublishWriters(s: Ring)
    requires Inv(s) && s.p.Publishing? && Queue(Step(s, Publish)) == Queue(s) + [s.p.rec]
    ensures WritersOk(Step(s, Publish))
  {
    hide Laid, WordsAt, Contents, ReadersOk, ProducerOk, ConsumerOk, Position, AllClear, Step, Queue;
    var s1 := Step(s, Publish);
    PublishIs(s);
    assert |s.pushed| == |s.popped| + |Queue(s)|;
    forall i | 0 <= i < |s1.ws|
      ensures |s1.popped| <= s1.ws[i].count <= |s1.pushed| && s1.ws[i].w == Position(s1, s1.ws[i].count - |s1.popped|)
    {
      PublishPositions(s, if i < |s.ws| then s.ws[i].count - |s.popped| else 0);
    }
  }

  lemma PublishKeeps(s: Ring)
    requires Inv(s) && s.p.Publishing?
    ensures Inv(Step(s, Publish))
    ensures Queue(Step(s, Publish)) == Queue(s) + [s.p.rec]
  {
    hide Laid, WordsAt, Contents, ReadersOk, WritersOk, AllClear;
    PublishContents(s);
    PublishQueue(s);
    assert s.popped + (Queue(s) + [s.p.rec]) == (s.popped + Queue(s)) + [s.p.rec];
    PublishReaders(s);
    PublishWriters(s);
  }

  lemma PublishQueue(s: Ring)
    requires Inv(s) && s.p.Publishing?
    ensures Queue(Step(s, Publish)) == Queue(s) + [s.p.rec]
  {
    hide Laid, WordsAt, ReadersOk, WritersOk;
    AllClearNow(s, s.p.adj, s.p.rec, s.p.force);
  }

  // ---------------------------------------------------------------- the consumer's steps

  /** Whatever the producer had been cleared to do stays clear, and its spare does not shrink, when the
      reader index moves on over unread bytes. */
  lemma ProducerKept(s: Ring, s1: Ring)
    requires IndicesOk(s) && ProducerOk(s) && ReadersOk(s) && IndicesOk(s1)
    requires s1.mem == s.mem && s1.size == s.size && s1.reserved == s.reserved && s1.w == s.w && s1.p == s.p
    requires s1.rs == s.rs + [s1.r] && Behind(s.w, s.r, s1.r)
    requires forall i :: 0 <= i < |s.rs| ==> Behind(s.w, s.rs[i], s1.r)
    ensures ProducerOk(s1) && ReadersOk(s1)
  {
    hide WordsAt;
    if !s.p.Idle? && !s.p.Begun? {
      var adj, n := if s.p.Marking? then 0 else s.p.adj, Bytes(s.p.rec);
      assert FreeFrom(s.w, s.rs[|s.rs| - 1], s.size, adj, n);
      FreeForward(s.w, s.r, s1.r, s.size, s.reserved, adj, n, s.p.force);
    }
  }

  /** The reader index moves on round the ring. */
  lemma BehindMoves(s: Ring, r1: nat)
    requires IndicesOk(s) && ReadersOk(s) && (s.wrapped <==> s.w < s.r)
    requires if s.wrapped then s.r <= r1 || r1 == 0 else s.r <= r1 <= s.w
    ensures Behind(s.w, s.r, r1) && forall i :: 0 <= i < |s.rs| ==> Behind(s.w, s.rs[i], r1)
  {
    forall i | 0 <= i < |s.rs| ensures Behind(s.w, s.rs[i], r1) {
      assert Behind(s.w, s.rs[i], s.rs[|s.rs| - 1]);
    }
    assert Behind(s.w, s.rs[|s.rs| - 1], r1);
  }

  /** A value of the write index differs from the reader index just when records pushed before it was
      stored are unread. */
  lemma SeenDiffers(s: Ring, i: nat)
    requires Core(s) && WritersOk(s) && i < |s.ws|
    ensures s.r == s.ws[i].w <==> s.ws[i].count == |s.popped|
  {
    hide WordsAt, ProducerOk, ConsumerOk;
    var k := s.ws[i].count - |s.popped|;
    assert |s.pushed| == |s.popped| + |Queue(s)|;
    PositionAhead(s, k);
  }

  lemma PositionAhead(s: Ring, k: nat)
    requires IndicesOk(s) && Contents(s) && k <= |Queue(s)|
    ensures Position(s, k) == s.r <==> k == 0
  {
    hide WordsAt, Bytes;
    if k == 0 {
      assert s.q1[..0] == [];
    } else if k <= |s.q1| {
      SpanSome(s.q1, k);
    } else {
      LaidSpan(s.mem, 0, s.w, s.q2);
      SpanSome(s.q2, k - |s.q1|);
    }
  }

  lemma {:induction false} SpanSome(q: seq<Rec>, k: nat)
    requires 0 < k <= |q|
    ensures 0 < Span(q[..k]) <= Span(q)
    decreases k
  {
    assert q[..k][0] == q[0] && q[..k][1..] == q[1..][..k - 1];
    if k > 1 { SpanSome(q[1..], k - 1); }
  }

  lemma LoadWriterKeeps(s: Ring, a: Action, i: nat)
    requires Inv(s) && Enabled(s, a) && (a == LoadWriter(i) || a == Recheck(i))
    ensures Inv(Step(s, a))
    ensures Step(s, a).c.Resting? <==> s.ws[i].count == |s.popped|
    ensures a == Recheck(i) ==> Step(s, a).c == Checked(s.c.at)
  {
    hide Laid, WordsAt, Contents, ProducerOk, ReadersOk;
    var s1 := Step(s, a);
    SeenDiffers(s, i);
    SameContents(s, s1);
    SeenLater(s, s1, i);
    SameProducer(s, s1);
    if s.ws[i].count > |s.popped| { assert |s.pushed| == |s.popped| + |Queue(s)|; }
    if a == Recheck(i) && i > 0 { assert s.ws[0].count < s.ws[i].count; }
  }

  lemma SameProducer(s: Ring, t: Ring)
    requires t.p == s.p && t.mem == s.mem && t.size == s.size && t.reserved == s.reserved && t.w == s.w && t.r == s.r
             && t.rs == s.rs
    ensures ProducerOk(s) ==> ProducerOk(t)
    ensures ReadersOk(s) ==> ReadersOk(t)
  {
    hide WordsAt;
  }

  lemma SeenLater(s: Ring, t: Ring, i: nat)
    requires WritersOk(s) && i < |s.ws| && t.ws == s.ws[i..] && t.w == s.w && t.r == s.r && t.q1 == s.q1 && t.q2 == s.q2
    requires t.pushed == s.pushed && t.popped == s.popped && (!t.c.Resting? ==> |s.popped| < s.ws[i].count)
    ensures WritersOk(t)
  {
    hide Position;
    SamePosition(s, t);
    forall j | 0 <= j < |t.ws|
      ensures |t.popped| <= t.ws[j].count <= |t.pushed| && t.ws[j].w == Position(t, t.ws[j].count - |t.popped|)
    {
      assert t.ws[j] == s.ws[i + j];
    }
    forall j, k | 0 <= j < k < |t.ws|
      ensures t.ws[j].count < t.ws[k].count
    {
      assert t.ws[j] == s.ws[i + j] && t.ws[k] == s.ws[i + k];
    }
    assert t.ws[|t.ws| - 1] == s.ws[|s.ws| - 1] && t.ws[0] == s.ws[i];
  }

  lemma ConsumerLoadKeeps(s: Ring, a: Action)
    requires Inv(s) && Enabled(s, a) && (a == ReadHeader || a == Forget || a == ReadSize)
    ensures Inv(Step(s, a))
  {
    hide Laid, WordsAt, ProducerOk, ReadersOk, WritersOk;
    var s1 := Step(s, a);
    SameContents(s, s1);
    SameProducer(s, s1);
    SameWriters(s, s1);
    if a == ReadHeader || a == ReadSize {
      if s.q1 != [] { LaidHead(s.mem, s.r, if s.wrapped then s.end else s.w, s.q1); }
      else if s.wrapped { LaidEnds(s.mem, s.r, s.end, s.q1); }
    }
  }

  lemma StoreWrapKeeps(s: Ring)
    requires Inv(s) && s.c.Wrapping?
    ensures Inv(Step(s, StoreWrap)) && Queue(Step(s, StoreWrap)) == Queue(s)
  {
    hide Laid, WordsAt, ProducerOk, ReadersOk, WritersOk, AllClear, Behind;
    var s1 := Step(s, StoreWrap);
    Shape(s);
    BehindMoves(s, 0);
    ProducerKept(s, s1);
    assert Queue(s1) == Queue(s);
    WrapWriters(s);
  }

  lemma WrapWriters(s: Ring)
    requires Core(s) && WritersOk(s) && s.c.Wrapping?
    ensures WritersOk(Step(s, StoreWrap))
  {
    hide Laid, WordsAt, Contents, ProducerOk, Span;
    var s1 := Step(s, StoreWrap);
    assert |s.pushed| == |s.popped| + |Queue(s)|;
    forall i | 0 <= i < |s.ws| ensures Position(s1, s.ws[i].count - |s.popped|) == s.ws[i].w {
      if i > 0 { assert s.ws[0].count < s.ws[i].count; }
    }
  }

  lemma StoreReadKeeps(s: Ring)
    requires Inv(s) && s.c.Popping?
    ensures Inv(Step(s, StoreRead))
    ensures Queue(s) != [] && Step(s, StoreRead).popped == s.popped + [Queue(s)[0]]
  {
    hide Laid, WordsAt, ProducerOk, ReadersOk, WritersOk, AllClear, Behind, Words, Queue;
    var s1 := Step(s, StoreRead);
    var b := if s.wrapped then s.end else s.w;
    LaidHead(s.mem, s.r, b, s.q1);
    LaidEnds(s.mem, s1.r, b, s1.q1);
    Shape(s);
    BehindMoves(s, s1.r);
    ProducerKept(s, s1);
    QueuePopped(s);
    ReadWriters(s);
  }

  lemma QueuePopped(s: Ring)
    requires s.q1 != [] && s.c.Popping?
    ensures var s1 := Step(s, StoreRead);
            Queue(s) == [s.q1[0]] + Queue(s1) && s1.popped == s.popped + [s.q1[0]]
            && s.popped + Queue(s) == s1.popped + Queue(s1)
  {
    var s1 := Step(s, StoreRead);
    assert s.q1[..1] == [s.q1[0]];
    assert Queue(s) == [s.q1[0]] + Queue(s1);
    assert s.popped + ([s.q1[0]] + Queue(s1)) == (s.popped + [s.q1[0]]) + Queue(s1);
  }

  lemma ReadWriters(s: Ring)
    requires Core(s) && WritersOk(s) && s.c.Popping?
    ensures WritersOk(Step(s, StoreRead))
  {
    hide Laid, WordsAt, Contents, ProducerOk, Span, Bytes;
    var s1 := Step(s, StoreRead);
    assert s.q1[..1] == [s.q1[0]];
    assert |s1.popped| == |s.popped| + 1;
    forall i | 0 <= i < |s.ws|
      ensures |s1.popped| <= s.ws[i].count && Position(s1, s.ws[i].count - |s1.popped|) == s.ws[i].w
    {
      if i > 0 { assert s.ws[0].count < s.ws[i].count; }
      ReadPosition(s, s1, s.ws[i].count - |s.popped|);
    }
  }

  lemma ReadPosition(s: Ring, s1: Ring, k: nat)
    requires s.q1 != [] && k >= 1 && s1.q1 == s.q1[1..] && s1.q2 == s.q2 && s1.r == s.r + Bytes(s.q1[0])
    ensures Position(s1, k - 1) == Position(s, k)
  {
    hide Bytes;
    if k <= |s.q1| {
      assert s.q1[..k][0] == s.q1[0] && s.q1[..k][1..] == s1.q1[..k - 1];
    }
  }

  // ---------------------------------------------------------------- whole runs

  /** Every step of either thread, from any state the two have reached, keeps the invariant. */
  lemma StepKeepsInv(s: Ring, a: Action)
    requires Inv(s) && Enabled(s, a)
    ensures Inv(Step(s, a))
  {
    hide Laid, WordsAt, Put, Contents, Inv, Step, MakePlan;
    match a
    case BeginPush(rec, force) => BeginPushKeeps(s, rec, force);
    case LoadReader(i) => LoadReaderKeeps(s, i);
    case WriteMarker => WriteMarkerKeeps(s);
    case WriteWord => WriteWordKeeps(s);
    case Publish => PublishKeeps(s);
    case LoadWriter(i) => LoadWriterKeeps(s, a, i);
    case Recheck(i) => LoadWriterKeeps(s, a, i);
    case StoreWrap => StoreWrapKeeps(s);
    case StoreRead => StoreReadKeeps(s);
    case _ => ConsumerLoadKeeps(s, a);
  }

  lemma BeginPushKeeps(s: Ring, rec: Rec, force: bool)
    requires Inv(s) && s.p.Idle?
    ensures Inv(Step(s, BeginPush(rec, force)))
  {
    hide Laid, WordsAt, Contents, WritersOk;
    var s1 := Step(s, BeginPush(rec, force));
    SameContents(s, s1);
    SameWriters(s, s1);
  }

  ghost predicate LegalRun(s: Ring, run: seq<Action>)
    decreases |run|
  {
    run == [] || (Enabled(s, run[0]) && LegalRun(Step(s, run[0]), run[1..]))
  }

  ghost function Run(s: Ring, run: seq<Action>): Ring
    requires LegalRun(s, run)
    decreases |run|
  {
    if run == [] then s else Run(Step(s, run[0]), run[1..])
  }

  /** What has been popped is a prefix of what has been pushed, and the rest is still queued:
      nothing is lost, repeated or reordered by any interleaving. */
  lemma {:induction false} RunIsFifo(s: Ring, run: seq<Action>)
    requires Inv(s) && LegalRun(s, run)
    ensures Inv(Run(s, run))
    ensures Run(s, run).pushed == Run(s, run).popped + Queue(Run(s, run))
    ensures Run(s, run).popped <= Run(s, run).pushed
    decreases |run|
  {
    hide Contents, ProducerOk, ConsumerOk, IndicesOk, ReadersOk, WritersOk;
    if run != [] {
      StepKeepsInv(s, run[0]);
      RunIsFifo(Step(s, run[0]), run[1..]);
    }
  }

  /** The next enabled step always finds its word inside the ring: the reads of a header are in bounds. */
  lemma HeadersInBounds(s: Ring)
    requires Inv(s)
    ensures s.c.Nonempty? ==> Enabled(s, ReadHeader)
    ensures s.c.Checked? ==> Enabled(s, ReadSize)
  {
  }

  /** next returns null exactly when all records pushed before the write index it has loaded was stored
      have been popped: with the latest value, exactly when nothing is unread. */
  lemma NextNullIffEmpty(s: Ring, i: nat)
    requires Inv(s) && s.c.Resting? && i < |s.ws|
    ensures Step(s, LoadWriter(i)).c.Resting? <==> s.ws[i].count == |s.popped|
    ensures i == |s.ws| - 1 ==> (Step(s, LoadWriter(i)).c.Resting? <==> Queue(s) == [])
  {
    hide Laid, WordsAt, Contents, ProducerOk, ReadersOk;
    LoadWriterKeeps(s, LoadWriter(i), i);
    assert |s.pushed| == |s.popped| + |Queue(s)|;
  }

  /** pop after next never finds the ring empty, whatever value of the write index it loads. */
  lemma RecheckPasses(s: Ring, i: nat)
    requires Inv(s) && s.c.Ready? && i < |s.ws|
    ensures Step(s, Recheck(i)).c == Checked(s.c.at)
  {
    LoadWriterKeeps(s, Recheck(i), i);
  }

  /** A block that next has returned holds the oldest unread record, header and payload, and it is
      this record, as a whole, that pop removes. */
  lemma NextIsOldest(s: Ring)
    requires Inv(s) && (s.c.Ready? || s.c.Checked?)
    ensures Queue(s) != [] && WordsAt(s.mem, s.c.at, Words(Queue(s)[0]))
    ensures s.c.Checked? ==> Enabled(s, ReadSize) && Step(s, ReadSize).c == Popping(s.c.at, Bytes(Queue(s)[0]))
  {
    LaidHead(s.mem, s.r, if s.wrapped then s.end else s.w, s.q1);
  }

  /** Following the wrap rule from a nonempty read index always reaches a record. */
  lemma WrapReachesRecord(s: Ring)
    requires Inv(s) && s.c.Wrapping?
    ensures Step(s, StoreWrap).c == Ready(0) && Inv(Step(s, StoreWrap))
    ensures WordsAt(s.mem, 0, Words(Queue(s)[0]))
  {
    hide Laid, WordsAt, ReadersOk, WritersOk, ProducerOk;
    StoreWrapKeeps(s);
    NextIsOldest(Step(s, StoreWrap));
    assert s.q1 + s.q2 == s.q2;
  }

  /** Once published, the record is unread, the indices differ, the write index is inside the ring,
      and an unforced push has left the reserve. */
  lemma PublishLeavesReserve(s: Ring)
    requires Inv(s) && s.p.Publishing?
    ensures var s1 := Step(s, Publish);
            s1.w != s1.r && s1.w < s1.size && Queue(s1) == Queue(s) + [s.p.rec]
            && (!s.p.force ==> Available(s1.w, s1.r, s1.size) >= s1.reserved)
  {
    hide Laid, WordsAt, Contents, ReadersOk, WritersOk, AllClear;
    PublishKeeps(s);
    AllClearNow(s, s.p.adj, s.p.rec, s.p.force);
    Shape(Step(s, Publish));
  }

  /** No word the producer writes is one of an unread record, or the wrap point a reader still needs,
      however stale the reader index it went by. */
  lemma ProducerSparesUnread(s: Ring, a: Action, i: nat)
    requires Inv(s) && Enabled(s, a) && (a == WriteMarker || a == WriteWord)
    requires i < s.size && (if s.wrapped then s.r <= i <= s.end || i < s.w else s.r <= i < s.w)
    ensures Step(s, a).mem[i] == s.mem[i]
  {
    hide Laid, WordsAt, Put, ReadersOk, WritersOk, AllClear, Words, Contents;
    Shape(s);
    if a == WriteMarker {
      AllClearNow(s, 0, s.p.rec, s.p.force);
      PutAt(s.mem, s.w, [MARKER]);
      EndInside(s);
    } else {
      AllClearNow(s, s.p.adj, s.p.rec, s.p.force);
      WordCount(s.p.rec);
      EndInside(s);
      PutAt(s.mem, s.p.adj + WORD * s.p.k, [Words(s.p.rec)[s.p.k]]);
    }
  }

  /** The marker is written exactly where the producer goes back to the start and more than a word is left
      behind the write index. */
  lemma MarksExactly(s: Ring, i: nat)
    requires Inv(s) && s.p.Begun? && i < |s.rs|
    ensures var plan := MakePlan(s.w, s.rs[i], s.size, s.reserved, Bytes(s.p.rec), s.p.force);
            var p := Step(s, LoadReader(i)).p;
            if plan.Fail? then p == Idle
            else if plan.adj < s.w && s.w + 8 < s.size then p == Marking(s.p.rec, s.p.force, s.w)
            else p == Writing(s.p.rec, s.p.force, s.w, plan.adj, 0)
  {
  }

  /** A reader goes back to the start exactly at a marker or where no more than a word is left. */
  lemma GoesBackExactly(s: Ring)
    requires Inv(s) && s.c.Nonempty?
    ensures s.r < |s.mem|
    ensures Step(s, ReadHeader).c == if s.mem[s.r] == 0xDEAD_BEEF_FACE_C0DE || s.size - s.r <= 8 then Wrapping(s.r)
                                     else Ready(s.r)
  {
  }

  /** Every word the producer writes ends inside the ring, and is all that is written. */
  lemma ProducerInside(s: Ring)
    requires Inv(s)
    ensures s.p.Marking? ==>
              s.p.from + 8 <= s.size && Step(s, WriteMarker).mem == s.mem[s.p.from := 0xDEAD_BEEF_FACE_C0DE]
    ensures s.p.Writing? ==>
              var at := s.p.adj + 8 * s.p.k;
              && s.p.k < |Words(s.p.rec)| && at + 8 <= s.size
              && Step(s, WriteWord).mem == s.mem[at := Words(s.p.rec)[s.p.k]]
  {
    hide Laid, WordsAt, Put, ReadersOk, WritersOk, AllClear, Words, Contents;
    if s.p.Marking? {
      PutWord(s.mem, s.p.from, MARKER);
    } else if s.p.Writing? {
      AllClearNow(s, s.p.adj, s.p.rec, s.p.force);
      WordCount(s.p.rec);
      PutWord(s.mem, s.p.adj + WORD * s.p.k, Words(s.p.rec)[s.p.k]);
    }
  }

  lemma PutWord(mem: seq<nat>, pos: nat, word: nat)
    requires pos < |mem|
    ensures Put(mem, pos, [word]) == mem[pos := word]
  {
    assert [word][1..] == [];
  }

  /** A record is its words behind a word that holds the size of both, in bytes. */
  lemma RecordIs(r: Rec)
    ensures Bytes(r) == 8 * |Words(r)| == 8 + 8 * |r.payload| && Words(r) == [Bytes(r)] + r.payload
  {
  }

  /** write_available is one less than the way from the write index round to the read index. */
  lemma AvailableIs(w: nat, r: nat, size: nat)
    requires w < size && r < size
    ensures 0 <= Available(w, r, size) < size
    ensures Available(w, r, size) + 1 == if r > w then r - w else size - (w - r)
  {
  }

  lemma EndInside(s: Ring)
    requires Contents(s)
    ensures if s.wrapped then s.w < s.r <= s.end < s.size else s.r <= s.w
  {
  }
}
