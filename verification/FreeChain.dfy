/** Intrusive singly linked lists: the first word of each block is the address of the next, and 0
    ends the list. */
module FreeChains {

  ghost predicate NoDup(c: seq<nat>) {
    forall i, j :: 0 <= i < j < |c| ==> c[i] != c[j]
  }

  /** From p on, the links spell out q. */
  ghost predicate Chain(next: map<nat, nat>, p: nat, q: seq<nat>)
    decreases |q|
  {
    if q == [] then p == 0 else p != 0 && p == q[0] && p in next && Chain(next, next[p], q[1..])
  }

  /** What leaves the words of its blocks alone leaves the chain as it is. */
  lemma {:induction false} ChainFrame(next: map<nat, nat>, next': map<nat, nat>, p: nat, q: seq<nat>)
    requires Chain(next, p, q) && forall o :: o in q && o in next ==> o in next' && next'[o] == next[o]
    ensures Chain(next', p, q)
    decreases |q|
  {
    if q != [] {
      assert q[0] in q;
      assert forall x :: x in q[1..] ==> x in q;
      ChainFrame(next, next', next[p], q[1..]);
    }
  }

  lemma ChainPush(next: map<nat, nat>, p: nat, q: seq<nat>, o: nat)
    requires Chain(next, p, q) && o !in q && o != 0
    ensures Chain(next[o := p], o, [o] + q)
  {
    ChainFrame(next, next[o := p], p, q);
    assert ([o] + q)[1..] == q;
  }

  /** A block already linked to the head becomes the head. */
  lemma ChainLinked(next: map<nat, nat>, o: nat, q: seq<nat>)
    requires o != 0 && o in next && Chain(next, next[o], q)
    ensures Chain(next, o, [o] + q)
  {
    assert ([o] + q)[1..] == q;
  }

  lemma ChainPop(next: map<nat, nat>, p: nat, q: seq<nat>)
    requires Chain(next, p, q) && p != 0
    ensures q != [] && p == q[0] && p in next && Chain(next, next[p], q[1..])
  {
  }

  lemma ChainEmpty(next: map<nat, nat>, p: nat, q: seq<nat>)
    requires Chain(next, p, q)
    ensures p == 0 <==> q == []
  {
  }
}
