/** Freeing a block on a CPU that does not own it: the block is linked onto its owner's stack with
    a compare-and-swap loop, and the owner now and then takes the whole stack and frees what is on
    it. One state machine for any number of freeing CPUs and one owner, one memory access a step. */
module CrossCpu {
  import opened FreeChains

  /** Where a call of free_cross_cpu is. seen is the head it last loaded. */
  datatype Call =
    | Loaded(seen: nat)
    | Linked(seen: nat)

  /** Where the owner is inside drain_cross_cpu_freelist. */
  datatype Owner =
    | Resting
    | Walking(p: nat)
    | Having(p: nat, n: nat)

  /** next is the first word of every block, whatever it currently means; 0 is the null pointer.
      calls are the calls of free_cross_cpu under way, on whatever CPUs, each under the block it
      frees. live are the blocks clients hold, pool those the owner has to hand out. stack and walk
      are the blocks on the shared stack and on the stack the owner took. given counts the calls of
      free_cross_cpu, freed the calls of free by the owner, leaked the blocks of an owner that had
      ended. */
  datatype State = State(
    head: nat, next: map<nat, nat>, calls: map<nat, Call>, owner: Owner, alive: bool,
    live: set<nat>, pool: set<nat>, stack: seq<nat>, walk: seq<nat>,
    given: multiset<nat>, freed: multiset<nat>, leaked: multiset<nat>)

  datatype Action =
    | Begin(p: nat, seen: nat)      // load the head; a relaxed load may see any value
    | Link(p: nat)                  // p->next = old
    | Swap(p: nat)                  // compare_exchange_weak
    | SwapFails(p: nat, seen: nat)  // compare_exchange_weak failing; again, it may have seen any value
    | Exchange                      // the owner takes the stack
    | ReadNext                      // n = p->next
    | FreeItem(junk: nat)           // free(p): the block is the pool's, its first word any value
    | Finish
    | Allocate(p: nat)              // the owner hands a block out again
    | Scribble(p: nat, junk: nat)   // a client, or the pool, writes to a block it holds
    | Exit                          // the owning thread ends

  predicate Enabled(s: State, a: Action) {
    match a
    case Begin(p, seen) => p in s.live
    case Link(p) => p in s.calls && s.calls[p].Loaded?
    case Swap(p) => p in s.calls && s.calls[p].Linked?
    case SwapFails(p, seen) => p in s.calls && s.calls[p].Linked?
    case Exchange => s.owner.Resting? && s.head != 0 && s.alive
    case ReadNext => s.owner.Walking? && s.owner.p != 0 && s.owner.p in s.next
    case FreeItem(junk) => s.owner.Having?
    case Finish => s.owner.Walking? && s.owner.p == 0
    case Allocate(p) => p in s.pool
    case Scribble(p, junk) => p in s.live || p in s.pool
    case Exit => s.owner.Resting?
  }

  function Step(s: State, a: Action): State
    requires Enabled(s, a)
  {
    match a
    case Begin(p, seen) =>
      if s.alive then s.(live := s.live - {p}, calls := s.calls[p := Loaded(seen)], given := s.given + multiset{p})
      else s.(live := s.live - {p}, given := s.given + multiset{p}, leaked := s.leaked + multiset{p})
    case Link(p) => s.(next := s.next[p := s.calls[p].seen], calls := s.calls[p := Linked(s.calls[p].seen)])
    case Swap(p) =>
      if s.head == s.calls[p].seen then s.(head := p, calls := s.calls - {p}, stack := [p] + s.stack)
      else s.(calls := s.calls[p := Loaded(s.head)])
    case SwapFails(p, seen) => s.(calls := s.calls[p := Loaded(seen)])
    case Exchange => s.(head := 0, stack := [], walk := s.stack, owner := Walking(s.head))
    case ReadNext => s.(owner := Having(s.owner.p, s.next[s.owner.p]))
    case FreeItem(junk) =>
      s.(pool := s.pool + {s.owner.p}, next := s.next[s.owner.p := junk], freed := s.freed + multiset{s.owner.p},
         walk := if s.walk == [] then [] else s.walk[1..], owner := Walking(s.owner.n))
    case Finish => s.(owner := Resting)
    case Allocate(p) => s.(pool := s.pool - {p}, live := s.live + {p})
    case Scribble(p, junk) => s.(next := s.next[p := junk])
    case Exit => s.(alive := false)
  }

  // ---------------------------------------------------------------- the invariant

  ghost predicate Apart(q: seq<nat>, b: set<nat>) {
    forall i :: 0 <= i < |q| ==> q[i] !in b
  }

  ghost predicate SeqsApart(a: seq<nat>, b: seq<nat>) {
    forall i, j :: 0 <= i < |a| && 0 <= j < |b| ==> a[i] != b[j]
  }

  ghost function Held(s: State): set<nat> {
    s.live + s.pool + s.calls.Keys
  }

  /** Every block is in one place only. */
  ghost predicate OnePlace(s: State) {
    && s.live !! s.pool && s.live !! s.calls.Keys && s.pool !! s.calls.Keys && 0 !in Held(s)
    && NoDup(s.stack) && NoDup(s.walk) && SeqsApart(s.stack, s.walk)
    && Apart(s.stack, Held(s)) && Apart(s.walk, Held(s))
  }

  /** A block that is linked points at the head its call has seen. */
  ghost predicate CallsOk(s: State) {
    forall p :: p in s.calls && s.calls[p].Linked? ==> p in s.next && s.next[p] == s.calls[p].seen
  }

  ghost predicate OwnerOk(s: State) {
    match s.owner
    case Resting => s.walk == []
    case Walking(p) => Chain(s.next, p, s.walk)
    case Having(p, n) => s.walk != [] && s.walk[0] == p && p != 0 && Chain(s.next, n, s.walk[1..])
  }

  /** Every block given to free_cross_cpu has been freed, leaked, or is on its way, once. */
  ghost predicate Conserved(s: State) {
    s.given == s.freed + s.leaked + multiset(s.stack) + multiset(s.walk) + multiset(s.calls.Keys)
  }

  ghost predicate Inv(s: State) {
    OnePlace(s) && CallsOk(s) && Chain(s.next, s.head, s.stack) && OwnerOk(s) && Conserved(s)
  }

  ghost predicate Init(s: State) {
    && s.head == 0 && s.stack == [] && s.walk == [] && s.owner == Resting && s.calls == map[] && s.alive
    && s.live !! s.pool && 0 !in s.live + s.pool
    && s.given == multiset{} && s.freed == multiset{} && s.leaked == multiset{}
  }

  lemma InitInv(s: State)
    requires Init(s)
    ensures Inv(s)
  {
    assert multiset(s.calls.Keys) == multiset{};
  }

  // ---------------------------------------------------------------- chains

  /** Writing to a block the clients, the pool or one call hold disturbs neither chain. */
  lemma WriteOutside(s: State, b: nat, v: nat)
    requires OnePlace(s) && Chain(s.next, s.head, s.stack) && OwnerOk(s)
    requires b in Held(s)
    ensures Chain(s.next[b := v], s.head, s.stack) && OwnerOk(s.(next := s.next[b := v]))
  {
    hide Chain, Held;
    assert b !in s.stack && b !in s.walk;
    ChainFrame(s.next, s.next[b := v], s.head, s.stack);
    match s.owner {
      case Resting =>
      case Walking(p) => ChainFrame(s.next, s.next[b := v], p, s.walk);
      case Having(p, n) =>
        assert forall x :: x in s.walk[1..] ==> x in s.walk;
        ChainFrame(s.next, s.next[b := v], n, s.walk[1..]);
    }
  }

  // ---------------------------------------------------------------- one place only

  lemma PlacesHeld(s: State, s1: State)
    requires OnePlace(s) && s1.stack == s.stack && s1.walk == s.walk && Held(s1) <= Held(s)
    requires s1.live !! s1.pool && s1.live !! s1.calls.Keys && s1.pool !! s1.calls.Keys
    ensures OnePlace(s1)
  {
    hide Held, NoDup, SeqsApart;
  }

  lemma SwapPlaces(s: State, p: nat)
    requires OnePlace(s) && p in s.calls
    ensures OnePlace(s.(head := p, calls := s.calls - {p}, stack := [p] + s.stack))
  {
    var s1 := s.(head := p, calls := s.calls - {p}, stack := [p] + s.stack);
    assert p in Held(s);
    assert Held(s1) <= Held(s);
    assert forall i :: 0 < i < |s1.stack| ==> s1.stack[i] == s.stack[i - 1];
  }

  lemma FreePlaces(s: State)
    requires OnePlace(s) && s.walk != []
    ensures OnePlace(s.(pool := s.pool + {s.walk[0]}, walk := s.walk[1..])) || s.walk[0] == 0
  {
    var rest := s.walk[1..];
    assert forall i :: 0 <= i < |rest| ==> rest[i] == s.walk[i + 1];
    assert s.walk[0] !in Held(s);
  }

  // ---------------------------------------------------------------- the freeing CPUs

  lemma BeginKeeps(s: State, p: nat, seen: nat)
    requires Inv(s) && Enabled(s, Begin(p, seen))
    ensures Inv(Step(s, Begin(p, seen)))
  {
    hide Chain, OnePlace, Conserved;
    BeginPlaces(s, p, seen);
    BeginConserved(s, p, seen);
  }

  lemma BeginPlaces(s: State, p: nat, seen: nat)
    requires OnePlace(s) && Enabled(s, Begin(p, seen))
    ensures OnePlace(Step(s, Begin(p, seen)))
  {
    hide OnePlace;
    var s1 := Step(s, Begin(p, seen));
    PlacesSplit(s);
    assert Held(s1) <= Held(s);
    PlacesHeld(s, s1);
  }

  lemma BeginConserved(s: State, p: nat, seen: nat)
    requires OnePlace(s) && Conserved(s) && Enabled(s, Begin(p, seen))
    ensures Conserved(Step(s, Begin(p, seen)))
  {
    hide OnePlace, Held, NoDup, Apart, SeqsApart;
    PlacesSplit(s);
    if s.alive {
      var s1 := Step(s, Begin(p, seen));
      assert s1.calls.Keys == s.calls.Keys + {p};
      CountMore(s.calls.Keys, p, s.freed + s.leaked + multiset(s.stack) + multiset(s.walk), s.given);
    } else {
      CountLeaked(s.freed, s.leaked, multiset(s.stack), multiset(s.walk), multiset(s.calls.Keys), p, s.given);
    }
  }

  lemma CountMore(k: set<nat>, p: nat, rest: multiset<nat>, given: multiset<nat>)
    requires p !in k && given == rest + multiset(k)
    ensures given + multiset{p} == rest + multiset(k + {p})
  {
    assert multiset(k + {p}) == multiset(k) + multiset{p};
  }

  lemma CountLeaked(f: multiset<nat>, l: multiset<nat>, a: multiset<nat>, b: multiset<nat>, c: multiset<nat>, p: nat,
                    given: multiset<nat>)
    requires given == f + l + a + b + c
    ensures given + multiset{p} == f + (l + multiset{p}) + a + b + c
  {
  }

  /** A block goes from the calls to the stack. */
  lemma CountPushed(fl: multiset<nat>, stack: seq<nat>, walk: multiset<nat>, k: set<nat>, p: nat, given: multiset<nat>)
    requires p in k && given == fl + multiset(stack) + walk + multiset(k)
    ensures given == fl + multiset([p] + stack) + walk + multiset(k - {p})
  {
    assert multiset(k) == multiset(k - {p}) + multiset{p};
    assert multiset([p] + stack) == multiset{p} + multiset(stack);
  }

  lemma PlacesSplit(s: State)
    requires OnePlace(s)
    ensures s.live !! s.pool && s.live !! s.calls.Keys && s.pool !! s.calls.Keys && 0 !in Held(s)
  {
  }

  /** Steps that leave every block where it is. */
  lemma StayKeeps(s: State, s1: State)
    requires OnePlace(s) && Conserved(s)
    requires s1.calls.Keys == s.calls.Keys && s1.live == s.live && s1.pool == s.pool && s1.stack == s.stack
             && s1.walk == s.walk
    requires s1.given == s.given && s1.freed == s.freed && s1.leaked == s.leaked
    ensures OnePlace(s1) && Conserved(s1)
  {
    hide Apart, NoDup, SeqsApart;
  }

  lemma LinkKeeps(s: State, p: nat)
    requires Inv(s) && Enabled(s, Link(p))
    ensures Inv(Step(s, Link(p)))
  {
    hide Chain, OnePlace, Conserved;
    var s1 := Step(s, Link(p));
    WriteOutside(s, p, s.calls[p].seen);
    assert s1.calls.Keys == s.calls.Keys;
    StayKeeps(s, s1);
  }

  lemma RetryKeeps(s: State, p: nat, seen: nat)
    requires Inv(s) && Enabled(s, SwapFails(p, seen))
    ensures Inv(Step(s, SwapFails(p, seen)))
  {
    hide Chain, OnePlace, Conserved;
    var s1 := Step(s, SwapFails(p, seen));
    assert s1.calls.Keys == s.calls.Keys;
    StayKeeps(s, s1);
  }

  /** A successful swap pushes the block: the head it saw is the head there is, even if the stack
      has been taken and rebuilt in between. */
  lemma SwapKeeps(s: State, p: nat)
    requires Inv(s) && Enabled(s, Swap(p))
    ensures Inv(Step(s, Swap(p)))
  {
    hide Chain, OnePlace, Apart, NoDup, SeqsApart, Held, Conserved;
    if s.head == s.calls[p].seen {
      NotNull(s, p);
      ChainLinked(s.next, p, s.stack);
      SwapPlaces(s, p);
      SwapConserved(s, p);
    } else {
      RetryKeeps(s, p, s.head);
      assert Step(s, Swap(p)) == Step(s, SwapFails(p, s.head));
    }
  }

  lemma SwapConserved(s: State, p: nat)
    requires Conserved(s) && p in s.calls
    ensures Conserved(s.(head := p, calls := s.calls - {p}, stack := [p] + s.stack))
  {
    assert (s.calls - {p}).Keys == s.calls.Keys - {p};
    CountPushed(s.freed + s.leaked, s.stack, multiset(s.walk), s.calls.Keys, p, s.given);
  }

  lemma NotNull(s: State, p: nat)
    requires OnePlace(s) && p in s.calls
    ensures p != 0
  {
  }

  // ---------------------------------------------------------------- the owner

  lemma ExchangeKeeps(s: State)
    requires Inv(s) && Enabled(s, Exchange)
    ensures Inv(Step(s, Exchange))
  {
    var s1 := Step(s, Exchange);
    assert Chain(s1.next, 0, []);
  }

  lemma ReadNextKeeps(s: State)
    requires Inv(s) && Enabled(s, ReadNext)
    ensures Inv(Step(s, ReadNext))
  {
    hide OnePlace, Conserved;
    StayKeeps(s, Step(s, ReadNext));
  }

  lemma FinishKeeps(s: State)
    requires Inv(s) && Enabled(s, Finish)
    ensures Inv(Step(s, Finish))
  {
    hide OnePlace, Conserved;
    StayKeeps(s, Step(s, Finish));
  }

  /** The owner may free, and so clobber, a block once it has read the link out of it. */
  lemma FreeItemKeeps(s: State, junk: nat)
    requires Inv(s) && Enabled(s, FreeItem(junk))
    ensures Inv(Step(s, FreeItem(junk)))
  {
    hide Chain, OnePlace, Conserved, Held, OwnerOk;
    FreeItemChains(s, junk);
    FreeItemPlaces(s, junk);
    FreeItemConserved(s, junk);
  }

  lemma FreeItemChains(s: State, junk: nat)
    requires OnePlace(s) && CallsOk(s) && Chain(s.next, s.head, s.stack) && OwnerOk(s) && s.owner.Having?
    ensures var s1 := Step(s, FreeItem(junk)); CallsOk(s1) && Chain(s1.next, s1.head, s1.stack) && OwnerOk(s1)
  {
    hide Chain, OnePlace, Held;
    var p := s.owner.p;
    WalkHead(s);
    ChainFrame(s.next, s.next[p := junk], s.head, s.stack);
    ChainFrame(s.next, s.next[p := junk], s.owner.n, s.walk[1..]);
  }

  lemma FreeItemConserved(s: State, junk: nat)
    requires Conserved(s) && OwnerOk(s) && s.owner.Having?
    ensures Conserved(Step(s, FreeItem(junk)))
  {
    hide Chain, Conserved;
    FreeConserved(s, Step(s, FreeItem(junk)));
  }

  lemma FreeItemPlaces(s: State, junk: nat)
    requires OnePlace(s) && OwnerOk(s) && s.owner.Having?
    ensures OnePlace(Step(s, FreeItem(junk)))
  {
    hide Chain, OnePlace, Held;
    FreePlaces(s);
    StayPlaces(s.(pool := s.pool + {s.owner.p}, walk := s.walk[1..]), Step(s, FreeItem(junk)));
  }

  lemma FreeConserved(s: State, s1: State)
    requires Conserved(s) && s.walk != []
    requires s1.walk == s.walk[1..] && s1.freed == s.freed + multiset{s.walk[0]}
    requires s1.given == s.given && s1.leaked == s.leaked && s1.stack == s.stack && s1.calls == s.calls
    ensures Conserved(s1)
  {
    assert s.walk == [s.walk[0]] + s1.walk;
    assert multiset(s.walk) == multiset{s.walk[0]} + multiset(s1.walk);
  }

  lemma StayPlaces(s: State, s1: State)
    requires OnePlace(s) && s1.calls == s.calls && s1.live == s.live && s1.pool == s.pool && s1.stack == s.stack
             && s1.walk == s.walk
    ensures OnePlace(s1)
  {
  }

  lemma WalkHead(s: State)
    requires OnePlace(s) && s.walk != []
    ensures s.walk[0] !in s.calls && s.walk[0] !in s.stack && s.walk[0] !in s.walk[1..] && s.walk[0] !in s.live + s.pool
  {
  }

  lemma AllocateKeeps(s: State, p: nat)
    requires Inv(s) && Enabled(s, Allocate(p))
    ensures Inv(Step(s, Allocate(p)))
  {
    hide Chain, OnePlace, Conserved;
    AllocatePlaces(s, p);
    ConservedSame(s, Step(s, Allocate(p)));
  }

  lemma AllocatePlaces(s: State, p: nat)
    requires OnePlace(s) && p in s.pool
    ensures OnePlace(s.(pool := s.pool - {p}, live := s.live + {p}))
  {
    hide OnePlace;
    var s1 := s.(pool := s.pool - {p}, live := s.live + {p});
    PlacesSplit(s);
    assert Held(s1) <= Held(s);
    PlacesHeld(s, s1);
  }

  lemma ConservedSame(s: State, s1: State)
    requires Conserved(s)
    requires s1.given == s.given && s1.freed == s.freed && s1.leaked == s.leaked && s1.stack == s.stack
             && s1.walk == s.walk && s1.calls == s.calls
    ensures Conserved(s1)
  {
  }

  lemma ScribbleKeeps(s: State, p: nat, junk: nat)
    requires Inv(s) && Enabled(s, Scribble(p, junk))
    ensures Inv(Step(s, Scribble(p, junk)))
  {
    hide Chain, OnePlace, Conserved;
    PlacesSplit(s);
    WriteOutside(s, p, junk);
    StayKeeps(s, Step(s, Scribble(p, junk)));
  }

  lemma ExitKeeps(s: State)
    requires Inv(s) && Enabled(s, Exit)
    ensures Inv(Step(s, Exit))
  {
    hide Chain, OnePlace, Conserved;
    StayKeeps(s, Step(s, Exit));
  }

  // ---------------------------------------------------------------- whole runs

  lemma StepKeepsInv(s: State, a: Action)
    requires Inv(s) && Enabled(s, a)
    ensures Inv(Step(s, a))
  {
    hide Inv, Step;
    match a
    case Begin(p, seen) => BeginKeeps(s, p, seen);
    case Link(p) => LinkKeeps(s, p);
    case Swap(p) => SwapKeeps(s, p);
    case SwapFails(p, seen) => RetryKeeps(s, p, seen);
    case Exchange => ExchangeKeeps(s);
    case ReadNext => ReadNextKeeps(s);
    case FreeItem(junk) => FreeItemKeeps(s, junk);
    case Finish => FinishKeeps(s);
    case Allocate(p) => AllocateKeeps(s, p);
    case Scribble(p, junk) => ScribbleKeeps(s, p, junk);
    case Exit => ExitKeeps(s);
  }

  ghost predicate LegalRun(s: State, run: seq<Action>)
    decreases |run|
  {
    run == [] || (Enabled(s, run[0]) && LegalRun(Step(s, run[0]), run[1..]))
  }

  ghost function Run(s: State, run: seq<Action>): State
    requires LegalRun(s, run)
    decreases |run|
  {
    if run == [] then s else Run(Step(s, run[0]), run[1..])
  }

  lemma {:induction false} RunKeepsInv(s: State, run: seq<Action>)
    requires Inv(s) && LegalRun(s, run)
    ensures Inv(Run(s, run))
    decreases |run|
  {
    hide Inv, Step, Enabled;
    if run != [] {
      StepKeepsInv(s, run[0]);
      RunKeepsInv(Step(s, run[0]), run[1..]);
    }
  }

  ghost predicate Quiet(s: State) {
    s.head == 0 && s.owner.Resting? && s.calls == map[]
  }

  /** Under every interleaving: no block is freed more often than it was given, and once nothing is
      on its way every block given has been freed exactly as often as it was given, or leaked
      because its owner had ended. */
  lemma FreedExactlyOnce(s: State, run: seq<Action>)
    requires Init(s) && LegalRun(s, run)
    ensures var t := Run(s, run); t.freed + t.leaked <= t.given && (Quiet(t) ==> t.given == t.freed + t.leaked)
  {
    hide Inv, Step, Enabled, Run, LegalRun;
    InitInv(s);
    RunKeepsInv(s, run);
    QuietFreed(Run(s, run));
  }

  lemma QuietFreed(t: State)
    requires Inv(t)
    ensures t.freed + t.leaked <= t.given && (Quiet(t) ==> t.given == t.freed + t.leaked)
  {
    if Quiet(t) {
      assert t.stack == [] && t.walk == [];
      assert multiset(t.calls.Keys) == multiset{};
    }
  }

  /** The block the owner frees is one that was given to it and that nobody holds: not a client, not
      the pool, not the stack; it is the pool's afterwards, and the owner's list gets shorter, whatever
      is pushed meanwhile. */
  lemma FreesOnlyGiven(s: State, junk: nat)
    requires Inv(s) && Enabled(s, FreeItem(junk))
    ensures var p := s.owner.p;
            p !in s.live && p !in s.pool && p !in s.calls && p !in s.stack && s.freed[p] + s.leaked[p] < s.given[p]
    ensures var t := Step(s, FreeItem(junk));
            && t.pool == s.pool + {s.owner.p} && t.freed == s.freed + multiset{s.owner.p}
            && s.walk != [] && t.walk == s.walk[1..]
    ensures |Step(s, FreeItem(junk)).walk| < |s.walk|
  {
    hide Chain, Step, Enabled, OnePlace, CallsOk;
    OwnerHolds(s, junk);
    WalkHead(s);
    assert s.walk[0] in multiset(s.walk);
    FreeItemDoes(s, junk);
  }

  lemma OwnerHolds(s: State, junk: nat)
    requires Inv(s) && Enabled(s, FreeItem(junk))
    ensures s.owner.Having? && s.walk != [] && s.owner.p == s.walk[0]
  {
    hide Chain, OnePlace, Conserved, CallsOk;
  }

  lemma FreeItemDoes(s: State, junk: nat)
    requires Enabled(s, FreeItem(junk)) && s.walk != []
    ensures var t := Step(s, FreeItem(junk));
            t.pool == s.pool + {s.owner.p} && t.freed == s.freed + multiset{s.owner.p} && t.walk == s.walk[1..]
  {
  }

  // ---------------------------------------------------------------- what is leaked, and what is lost

  /** Giving a block to an owner that is alive starts a call, which has seen some head; to one that has
      ended, it leaks the block, and nothing else is ever leaked. */
  lemma LeaksWhenEnded(s: State, a: Action)
    requires Inv(s) && Enabled(s, a)
    ensures var t := Step(s, a);
            match a
            case Begin(p, seen) =>
              p !in t.live && t.given == s.given + multiset{p}
              && (s.alive ==> p in t.calls && t.calls[p] == Loaded(seen) && t.leaked == s.leaked)
              && (!s.alive ==> t.calls == s.calls && t.leaked == s.leaked + multiset{p})
            case _ => t.given == s.given && t.leaked == s.leaked
    ensures Step(s, a).alive == (s.alive && a != Exit)
  {
    hide Inv;
  }

  /** The blocks given by the calls of a run, and those given after its owner has ended. */
  ghost function GivenBy(run: seq<Action>): multiset<nat>
    decreases |run|
  {
    if run == [] then multiset{}
    else (if run[0].Begin? then multiset{run[0].p} else multiset{}) + GivenBy(run[1..])
  }

  ghost function GivenLate(alive: bool, run: seq<Action>): multiset<nat>
    decreases |run|
  {
    if run == [] then multiset{}
    else (if run[0].Begin? && !alive then multiset{run[0].p} else multiset{})
         + GivenLate(alive && run[0] != Exit, run[1..])
  }

  /** Over a whole run exactly the blocks given after the owner has ended are leaked. */
  lemma {:induction false} LeaksExactly(s: State, run: seq<Action>)
    requires Inv(s) && LegalRun(s, run)
    ensures var t := Run(s, run);
            t.given == s.given + GivenBy(run) && t.leaked == s.leaked + GivenLate(s.alive, run)
    decreases |run|
  {
    hide Inv, Step, Enabled;
    if run != [] {
      var s1 := Step(s, run[0]);
      StepKeepsInv(s, run[0]);
      LeaksWhenEnded(s, run[0]);
      LeaksExactly(s1, run[1..]);
      hide LegalRun, Run;
      SumMore(s.given, s1.given, if run[0].Begin? then multiset{run[0].p} else multiset{}, GivenBy(run[1..]));
      SumMore(s.leaked, s1.leaked, if run[0].Begin? && !s.alive then multiset{run[0].p} else multiset{},
              GivenLate(s1.alive, run[1..]));
    }
  }

  lemma SumMore(a: multiset<nat>, a1: multiset<nat>, b: multiset<nat>, c: multiset<nat>)
    requires a1 == a + b
    ensures a1 + c == a + (b + c)
  {
  }

  lemma {:induction false} NoneLate(run: seq<Action>)
    requires Exit !in run
    ensures GivenLate(true, run) == multiset{}
    decreases |run|
  {
    if run != [] { NoneLate(run[1..]); }
  }

  /** While the owner lives nothing is leaked: at rest, every block given has been freed, once. */
  lemma NothingLeaks(s: State, run: seq<Action>)
    requires Init(s) && LegalRun(s, run) && Exit !in run
    ensures var t := Run(s, run); t.leaked == multiset{} && (Quiet(t) ==> t.freed == t.given == GivenBy(run))
  {
    hide Inv, Step, Enabled, Run, LegalRun;
    InitInv(s);
    LeaksExactly(s, run);
    NoneLate(run);
    FreedExactlyOnce(s, run);
  }

  ghost function Among(q: seq<nat>): set<nat> {
    set x | x in q
  }

  /** All blocks there are, wherever they are. */
  ghost function Blocks(s: State): set<nat> {
    Held(s) + Among(s.stack) + Among(s.walk)
  }

  /** No step loses a block or makes one up, but for the one leaked. */
  lemma StepKeepsBlocks(s: State, a: Action)
    requires Inv(s) && Enabled(s, a)
    ensures Blocks(Step(s, a)) == if a.Begin? && !s.alive then Blocks(s) - {a.p} else Blocks(s)
  {
    hide Chain, Conserved, CallsOk, NoDup, SeqsApart;
    var t := Step(s, a);
    match a {
      case Begin(p, seen) => BeginBlocks(s, p, seen);
      case Swap(p) => SwapBlocks(s, p);
      case Exchange => ExchangeBlocks(s);
      case FreeItem(junk) => FreeBlocks(s, junk);
      case _ => assert Held(t) == Held(s);
    }
  }

  lemma BeginBlocks(s: State, p: nat, seen: nat)
    requires OnePlace(s) && p in s.live
    ensures var t := Step(s, Begin(p, seen));
            Blocks(t) == if s.alive then Blocks(s) else Blocks(s) - {p}
  {
    hide NoDup, SeqsApart;
    var t := Step(s, Begin(p, seen));
    assert p in Held(s);
    if s.alive { assert Held(t) == Held(s); } else { assert Held(t) == Held(s) - {p}; }
  }

  lemma SwapBlocks(s: State, p: nat)
    requires Enabled(s, Swap(p))
    ensures Blocks(Step(s, Swap(p))) == Blocks(s)
  {
    var t := Step(s, Swap(p));
    if s.head == s.calls[p].seen {
      assert Among(t.stack) == Among(s.stack) + {p};
      assert Held(t) + {p} == Held(s);
    } else {
      assert Held(t) == Held(s);
    }
  }

  lemma ExchangeBlocks(s: State)
    requires Inv(s) && Enabled(s, Exchange)
    ensures Blocks(Step(s, Exchange)) == Blocks(s)
  {
    hide Chain, OnePlace, Conserved, CallsOk;
    var t := Step(s, Exchange);
    assert Held(t) == Held(s) && Among(s.walk) == {} == Among(t.stack);
  }

  lemma FreeBlocks(s: State, junk: nat)
    requires OwnerOk(s) && Enabled(s, FreeItem(junk))
    ensures Blocks(Step(s, FreeItem(junk))) == Blocks(s)
  {
    hide Chain;
    var t := Step(s, FreeItem(junk));
    assert s.walk == [s.walk[0]] + t.walk;
    assert Among(s.walk) == {s.owner.p} + Among(t.walk);
    assert Held(t) == Held(s) + {s.owner.p};
  }

  // ---------------------------------------------------------------- everything can be freed

  lemma {:induction false} RunJoin(s: State, a: seq<Action>, b: seq<Action>)
    requires LegalRun(s, a) && LegalRun(Run(s, a), b)
    ensures LegalRun(s, a + b) && Run(s, a + b) == Run(Run(s, a), b)
    decreases |a|
  {
    hide Step, Enabled;
    if a == [] {
      assert a + b == b;
    } else {
      assert (a + b)[0] == a[0] && (a + b)[1..] == a[1..] + b;
      RunJoin(Step(s, a[0]), a[1..], b);
    }
  }

  lemma RunOne(s: State, a: Action)
    requires Enabled(s, a)
    ensures LegalRun(s, [a]) && Run(s, [a]) == Step(s, a)
  {
    hide Step, Enabled;
    assert [a][1..] == [];
  }

  /** A step more. */
  lemma RunNext(s: State, a: Action, run: seq<Action>)
    requires Enabled(s, a) && LegalRun(Step(s, a), run)
    ensures LegalRun(s, [a] + run) && Run(s, [a] + run) == Run(Step(s, a), run)
  {
    hide Step, Enabled;
    RunOne(s, a);
    RunJoin(s, [a], run);
  }

  /** Nothing new has been given, and nothing leaked. */
  ghost predicate Onward(s: State, t: State) {
    Inv(t) && t.alive == s.alive && t.given == s.given && t.leaked == s.leaked
  }

  /** The owner gets to the end of the list it has taken. */
  lemma {:induction false} WalkEnds(s: State) returns (run: seq<Action>)
    requires Inv(s)
    ensures LegalRun(s, run) && Onward(s, Run(s, run))
    ensures var t := Run(s, run); t.owner.Resting? && t.calls == s.calls && t.head == s.head
    decreases |s.walk|, if s.owner.Resting? then 0 else if s.owner.Having? then 1 else 2
  {
    hide Inv, Chain, LegalRun, Run;
    if s.owner.Resting? {
      run := [];
      RunNone(s);
    } else {
      var a := NextOf(s);
      StepKeepsInv(s, a);
      var rest := WalkEnds(Step(s, a));
      run := [a] + rest;
      RunNext(s, a, rest);
    }
  }

  lemma RunNone(s: State)
    ensures LegalRun(s, []) && Run(s, []) == s
  {
  }

  /** The owner's next step while it walks. */
  lemma NextOf(s: State) returns (a: Action)
    requires Inv(s) && !s.owner.Resting?
    ensures Enabled(s, a)
    ensures var t := Step(s, a);
            && t.calls == s.calls && t.head == s.head && t.alive == s.alive && t.given == s.given
            && t.leaked == s.leaked
            && (t.owner.Resting? || |t.walk| < |s.walk|
                || (|t.walk| == |s.walk| && t.owner.Having? && !s.owner.Having?))
    ensures |Step(s, a).walk| <= |s.walk|
  {
    hide OnePlace, Conserved, CallsOk;
    match s.owner {
      case Walking(p) => a := if p == 0 then Finish else ReadNext;
      case Having(p, n) => a := FreeItem(0);
    }
  }

  /** A call under way gets its block onto the stack, if nobody else moves meanwhile. */
  lemma CallEnds(s: State, p: nat) returns (run: seq<Action>)
    requires Inv(s) && p in s.calls
    ensures LegalRun(s, run) && Onward(s, Run(s, run))
    ensures var t := Run(s, run); t.calls == s.calls - {p} && t.owner == s.owner
    decreases if s.calls[p].seen == s.head then 0 else 1, if s.calls[p].Linked? then 0 else 1
  {
    hide Inv, LegalRun, Run;
    var a := if s.calls[p].Linked? then Swap(p) else Link(p);
    StepKeepsInv(s, a);
    var s1 := Step(s, a);
    var rest := [];
    RunNone(s1);
    if p in s1.calls {
      rest := CallEnds(s1, p);
      assert s1.calls - {p} == s.calls - {p};
    }
    run := [a] + rest;
    RunNext(s, a, rest);
  }

  lemma {:induction false} CallsEnd(s: State) returns (run: seq<Action>)
    requires Inv(s) && s.owner.Resting?
    ensures LegalRun(s, run) && Onward(s, Run(s, run)) && Run(s, run).calls == map[] && Run(s, run).owner.Resting?
    decreases |s.calls|
  {
    hide Inv, LegalRun, Run;
    if s.calls == map[] {
      run := [];
      RunNone(s);
    } else {
      var p :| p in s.calls;
      var first := CallEnds(s, p);
      var s1 := Run(s, first);
      assert s1.calls.Keys == s.calls.Keys - {p};
      var rest := CallsEnd(s1);
      run := first + rest;
      RunJoin(s, first, rest);
    }
  }

  /** From every state a run can reach, a live owner can still free all it has been given. */
  lemma Drains(s: State) returns (run: seq<Action>)
    requires Inv(s) && s.alive
    ensures LegalRun(s, run)
    ensures var t := Run(s, run);
            Quiet(t) && t.given == s.given && t.leaked == s.leaked && t.given == t.freed + t.leaked
  {
    hide Inv, LegalRun, Run;
    var r1 := WalkEnds(s);
    var s1 := Run(s, r1);
    var r2 := CallsEnd(s1);
    var s2 := Run(s1, r2);
    RunJoin(s, r1, r2);
    run := r1 + r2;
    if s2.head != 0 {
      StepKeepsInv(s2, Exchange);
      var s3 := Step(s2, Exchange);
      var r3 := WalkEnds(s3);
      RunNext(s2, Exchange, r3);
      RunJoin(s, run, [Exchange] + r3);
      run := run + ([Exchange] + r3);
    }
    QuietFreed(Run(s, run));
  }

  /** The owner frees p before it has read p's link: the pool leaves junk there, and the walk goes on
      from junk. */
  function FreedFirst(s: State, junk: nat): State
    requires s.owner.Walking?
  {
    var p := s.owner.p;
    s.(pool := s.pool + {p}, next := s.next[p := junk], freed := s.freed + multiset{p},
       walk := if s.walk == [] then [] else s.walk[1..], owner := Walking(junk))
  }

  /** Reading the link only after the block is freed would be right for no content of the word but
      the very link. */
  lemma ReadAfterFreeLoses(s: State, junk: nat)
    requires Inv(s) && Enabled(s, ReadNext)
    ensures Inv(FreedFirst(s, junk)) <==> junk == s.next[s.owner.p]
  {
    hide Chain, OnePlace, Conserved;
    var p := s.owner.p;
    WalkingChain(s, junk);
    if junk == s.next[p] {
      StepKeepsInv(s, ReadNext);
      var s1 := Step(s, ReadNext);
      StepKeepsInv(s1, FreeItem(junk));
      assert FreedFirst(s, junk) == Step(s1, FreeItem(junk));
    }
  }

  lemma WalkingChain(s: State, junk: nat)
    requires OwnerOk(s) && s.owner.Walking? && s.owner.p != 0 && s.owner.p in s.next
    ensures OwnerOk(FreedFirst(s, junk)) ==> junk == s.next[s.owner.p]
  {
    var rest := s.walk[1..];
    assert Chain(s.next, s.next[s.owner.p], rest);
    assert OwnerOk(FreedFirst(s, junk)) ==> Chain(s.next[s.owner.p := junk], junk, rest);
  }
}
