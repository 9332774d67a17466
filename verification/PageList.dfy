/** The page structure and the intrusive doubly linked list of spans threaded through the page
    array by index; index 0 is the null link. */
module PageLists {
  import opened FreeChains
  import opened PageModel

  type u8 = n: nat | n < 0x100
  type u16 = n: nat | n < 0x1_0000

  /** pool is 0 when the page is in no small pool; freelist is the address of an object or 0. */
  datatype Page = Page(free: bool, offsetInSpan: u8, nrSmallAlloc: u16, spanSize: nat,
                       prev: nat, next: nat, pool: nat, freelist: nat)

  /** A page structure in freshly mapped memory. */
  const ZERO_PAGE := Page(false, 0, 0, 0, 0, 0, 0, 0)

  // ---------------------------------------------------------------- lists as values

  function PrevIn(c: seq<nat>, k: nat): nat
    requires k < |c|
  {
    if k == 0 then 0 else c[k - 1]
  }

  function NextIn(c: seq<nat>, k: nat): nat
    requires k < |c|
  {
    if k == |c| - 1 then 0 else c[k + 1]
  }

  ghost predicate ThreadAt(prevs: seq<nat>, nexts: seq<nat>, c: seq<nat>, k: nat) {
    && k < |c| && 0 < c[k] < |prevs| == |nexts|
    && prevs[c[k]] == PrevIn(c, k) && nexts[c[k]] == NextIn(c, k)
  }

  /** The link arrays spell out c, from front to back. */
  ghost predicate Threaded(prevs: seq<nat>, nexts: seq<nat>, front: nat, back: nat, c: seq<nat>) {
    && |prevs| == |nexts|
    && NoDup(c)
    && front == (if c == [] then 0 else c[0])
    && back == (if c == [] then 0 else c[|c| - 1])
    && forall k :: 0 <= k < |c| ==> ThreadAt(prevs, nexts, c, k)
  }

  ghost function Prevs(pg: seq<Page>): (r: seq<nat>)
    ensures |r| == |pg| && forall i :: 0 <= i < |pg| ==> r[i] == pg[i].prev
  {
    seq(|pg|, i requires 0 <= i < |pg| => pg[i].prev)
  }

  ghost function Nexts(pg: seq<Page>): (r: seq<nat>)
    ensures |r| == |pg| && forall i :: 0 <= i < |pg| ==> r[i] == pg[i].next
  {
    seq(|pg|, i requires 0 <= i < |pg| => pg[i].next)
  }

  /** The page without its list links. */
  function Unlinked(p: Page): Page {
    p.(prev := 0, next := 0)
  }

  /** Same pages up to links, and the same pages altogether outside c. */
  ghost predicate RelinkedWithin(pg: seq<Page>, pg': seq<Page>, c: seq<nat>) {
    && |pg'| == |pg|
    && forall i :: 0 <= i < |pg| ==> Unlinked(pg'[i]) == Unlinked(pg[i]) && (i !in c ==> pg'[i] == pg[i])
  }

  lemma Distinct(c: seq<nat>, i: nat, j: nat)
    requires NoDup(c) && i < |c| && j < |c|
    ensures c[i] == c[j] <==> i == j
  {
  }

  /** A link update; the null index 0 is left alone. */
  function Put(s: seq<nat>, i: nat, v: nat): (r: seq<nat>)
    ensures |r| == |s|
  {
    if 0 < i < |s| then s[i := v] else s
  }

  lemma PutAt(s: seq<nat>, i: nat, v: nat, j: nat)
    requires 0 < j < |s|
    ensures Put(s, i, v)[j] == if i == j then v else s[j]
  {
  }

  lemma ThreadedIn(p: seq<nat>, n: seq<nat>, front: nat, back: nat, c: seq<nat>, k: nat)
    requires Threaded(p, n, front, back, c) && k < |c|
    ensures |n| == |p| && 0 < c[k] < |p| && p[c[k]] == PrevIn(c, k) < |p| && n[c[k]] == NextIn(c, k) < |p|
    ensures NoDup(c)
  {
    assert ThreadAt(p, n, c, k);
    if k > 0 { assert ThreadAt(p, n, c, k - 1); }
    if k + 1 < |c| { assert ThreadAt(p, n, c, k + 1); }
  }

  lemma PushThreaded(p: seq<nat>, n: seq<nat>, front: nat, back: nat, c: seq<nat>, x: nat)
    requires Threaded(p, n, front, back, c) && 0 < x < |p| && x !in c
    ensures front < |p|
    ensures Threaded(Put(Put(p, front, x), x, 0), Put(n, x, front), x, if front != 0 then back else x, [x] + c)
  {
    hide NoDup, Put, ThreadAt;
    var p', n', d := Put(Put(p, front, x), x, 0), Put(n, x, front), [x] + c;
    forall k | 0 <= k < |d|
      ensures ThreadAt(p', n', d, k)
    {
      PushedAt(p, n, front, back, c, x, k);
    }
    PushNoDup(c, x);
    if c != [] { ThreadedIn(p, n, front, back, c, 0); }
  }

  lemma PushedAt(p: seq<nat>, n: seq<nat>, front: nat, back: nat, c: seq<nat>, x: nat, j: nat)
    requires Threaded(p, n, front, back, c) && 0 < x < |p| && x !in c && j <= |c|
    ensures ThreadAt(Put(Put(p, front, x), x, 0), Put(n, x, front), [x] + c, j)
  {
    hide NoDup, Put;
    if j == 0 {
      PutAt(Put(p, front, x), x, 0, x);
      PutAt(n, x, front, x);
    } else {
      var k := j - 1;
      ThreadedIn(p, n, front, back, c, k);
      assert c[k] != x;
      PutAt(p, front, x, c[k]);
      PutAt(Put(p, front, x), x, 0, c[k]);
      PutAt(n, x, front, c[k]);
      Distinct(c, 0, k);
    }
  }

  lemma PushNoDup(c: seq<nat>, x: nat)
    requires NoDup(c) && x !in c
    ensures NoDup([x] + c)
  {
  }

  lemma EraseThreaded(p: seq<nat>, n: seq<nat>, front: nat, back: nat, c: seq<nat>, k: nat)
    requires Threaded(p, n, front, back, c) && k < |c|
    ensures c[k] < |p| && p[c[k]] < |p| && n[c[k]] < |p|
    ensures var a, b := p[c[k]], n[c[k]];
            Threaded(Put(p, b, a), Put(n, a, b), if a != 0 then front else b, if b != 0 then back else a,
                     c[..k] + c[k + 1..])
  {
    hide NoDup, Put, ThreadAt;
    ThreadedIn(p, n, front, back, c, k);
    var d := c[..k] + c[k + 1..];
    forall j | 0 <= j < |d|
      ensures ThreadAt(Put(p, n[c[k]], p[c[k]]), Put(n, p[c[k]], n[c[k]]), d, j)
    {
      ErasedAt(p, n, front, back, c, k, j);
    }
    EraseNoDup(c, k);
    forall i | 0 <= i < |c|
      ensures c[i] > 0
    {
      ThreadedIn(p, n, front, back, c, i);
    }
    EraseEnds(c, k);
  }

  lemma EraseEnds(c: seq<nat>, k: nat)
    requires k < |c| && forall i :: 0 <= i < |c| ==> c[i] > 0
    ensures var d, a, b := c[..k] + c[k + 1..], PrevIn(c, k), NextIn(c, k);
            && (if d == [] then 0 else d[0]) == (if a != 0 then c[0] else b)
            && (if d == [] then 0 else d[|d| - 1]) == (if b != 0 then c[|c| - 1] else a)
  {
  }

  lemma ErasedAt(p: seq<nat>, n: seq<nat>, front: nat, back: nat, c: seq<nat>, k: nat, j: nat)
    requires Threaded(p, n, front, back, c) && k < |c| && j < |c| - 1
    ensures |n| == |p| && c[k] < |p|
    ensures ThreadAt(Put(p, n[c[k]], p[c[k]]), Put(n, p[c[k]], n[c[k]]), c[..k] + c[k + 1..], j)
  {
    hide NoDup, Put, Threaded;
    var i := if j < k then j else j + 1;
    ThreadedIn(p, n, front, back, c, k);
    ThreadedIn(p, n, front, back, c, i);
    var a, b := p[c[k]], n[c[k]];
    PutAt(p, b, a, c[i]);
    PutAt(n, a, b, c[i]);
    if k > 0 { Distinct(c, i, k - 1); }
    if k + 1 < |c| { Distinct(c, i, k + 1); }
  }

  lemma EraseNoDup(c: seq<nat>, k: nat)
    requires NoDup(c) && k < |c|
    ensures NoDup(c[..k] + c[k + 1..])
  {
    var d := c[..k] + c[k + 1..];
    forall i, j | 0 <= i < j < |d|
      ensures d[i] != d[j]
    {
      assert d[i] == c[if i < k then i else i + 1] && d[j] == c[if j < k then j else j + 1];
    }
  }

  /** A list whose pages were not relinked is still threaded. */
  lemma ThreadedElsewhere(pg: seq<Page>, pg': seq<Page>, front: nat, back: nat, c: seq<nat>, d: seq<nat>)
    requires Threaded(Prevs(pg), Nexts(pg), front, back, c)
    requires RelinkedWithin(pg, pg', d) && forall x :: x in c ==> x !in d
    ensures Threaded(Prevs(pg'), Nexts(pg'), front, back, c)
  {
    hide NoDup;
    forall k | 0 <= k < |c|
      ensures ThreadAt(Prevs(pg'), Nexts(pg'), c, k)
    {
      assert ThreadAt(Prevs(pg), Nexts(pg), c, k);
      assert c[k] in c;
      assert pg'[c[k]] == pg[c[k]];
    }
  }

  // ---------------------------------------------------------------- page_list

  class PageList {
    var front: nat
    var back: nat
    ghost var contents: seq<nat>

    constructor ()
      ensures contents == [] && front == 0 && back == 0
    {
      front, back := 0, 0;
      contents := [];
    }

    ghost predicate Linked(ary: array<Page>)
      reads this, ary
    {
      Threaded(Prevs(ary[..]), Nexts(ary[..]), front, back, contents)
    }

    method PushFront(ary: array<Page>, idx: nat)
      requires Linked(ary) && 0 < idx < ary.Length && idx !in contents
      modifies this, ary
      ensures Linked(ary) && contents == [idx] + old(contents)
      ensures RelinkedWithin(old(ary[..]), ary[..], contents)
    {
      hide Threaded, RelinkedWithin;
      ghost var pg := ary[..];
      PushThreaded(Prevs(pg), Nexts(pg), front, back, contents, idx);
      if front != 0 {
        ary[front] := ary[front].(prev := idx);
      } else {
        back := idx;
      }
      ary[idx] := ary[idx].(next := front, prev := 0);
      assert Nexts(ary[..]) == Put(Nexts(pg), idx, front);
      assert Prevs(ary[..]) == Put(Put(Prevs(pg), front, idx), idx, 0);
      front := idx;
      contents := [idx] + contents;
      assert RelinkedWithin(pg, ary[..], contents) by {
        PushRelinked(pg, ary[..], old(front), old(back), old(contents), idx);
      }
    }

    method Erase(ary: array<Page>, idx: nat, ghost k: nat)
      requires Linked(ary) && k < |contents| && contents[k] == idx
      modifies this, ary
      ensures Linked(ary) && contents == old(contents[..k] + contents[k + 1..])
      ensures RelinkedWithin(old(ary[..]), ary[..], old(contents))
    {
      hide Threaded, RelinkedWithin, NoDup;
      ghost var pg, c := ary[..], contents;
      ThreadedIn(Prevs(pg), Nexts(pg), front, back, c, k);
      EraseThreaded(Prevs(pg), Nexts(pg), front, back, c, k);
      var p, n := ary[idx].prev, ary[idx].next;
      if n != 0 {
        ary[n] := ary[n].(prev := p);
      } else {
        back := p;
      }
      if p != 0 {
        ary[p] := ary[p].(next := n);
      } else {
        front := n;
      }
      assert Prevs(ary[..]) == Put(Prevs(pg), n, p);
      assert Nexts(ary[..]) == Put(Nexts(pg), p, n);
      contents := c[..k] + c[k + 1..];
      EraseRelinked(pg, ary[..], c, k);
    }

    method PopFront(ary: array<Page>)
      requires Linked(ary) && contents != []
      modifies this, ary
      ensures Linked(ary) && contents == old(contents)[1..]
      ensures RelinkedWithin(old(ary[..]), ary[..], old(contents))
    {
      hide Threaded, RelinkedWithin, NoDup;
      ghost var pg, c := ary[..], contents;
      FrontIs(Prevs(pg), Nexts(pg), front, back, c);
      ThreadedIn(Prevs(pg), Nexts(pg), front, back, c, 0);
      EraseThreaded(Prevs(pg), Nexts(pg), front, back, c, 0);
      var n := ary[front].next;
      if n != 0 {
        ary[n] := ary[n].(prev := 0);
      } else {
        back := 0;
      }
      front := ary[front].next;
      assert Prevs(ary[..]) == Put(Prevs(pg), n, 0);
      assert Nexts(ary[..]) == Put(Nexts(pg), 0, n);
      contents := c[1..];
      assert c[..0] + c[1..] == c[1..];
      EraseRelinked(pg, ary[..], c, 0);
    }

    /** The first listed span of at least n pages, with its place in the list; 0 if none. */
    method Find(n: nat, ary: array<Page>) returns (r: nat, ghost k: nat)
      requires Linked(ary)
      ensures |contents| > 0 ==> forall i :: 0 <= i < |contents| ==> 0 < contents[i] < ary.Length
      ensures r == 0 ==> forall i :: 0 <= i < |contents| ==> ary[contents[i]].spanSize < n
      ensures r != 0 ==> k < |contents| && contents[k] == r && ary[r].spanSize >= n
                         && forall i :: 0 <= i < k ==> ary[contents[i]].spanSize < n
    {
      hide NoDup;
      forall i | 0 <= i < |contents|
        ensures 0 < contents[i] < ary.Length
      {
        ThreadedIn(Prevs(ary[..]), Nexts(ary[..]), front, back, contents, i);
      }
      r, k := front, 0;
      while r != 0 && ary[r].spanSize < n
        invariant 0 <= k <= |contents|
        invariant r == if k == |contents| then 0 else contents[k]
        invariant forall i :: 0 <= i < k ==> ary[contents[i]].spanSize < n
        decreases |contents| - k
      {
        ThreadedIn(Prevs(ary[..]), Nexts(ary[..]), front, back, contents, k);
        r := ary[r].next;
        k := k + 1;
      }
    }
  }

  lemma FrontIs(p: seq<nat>, n: seq<nat>, front: nat, back: nat, c: seq<nat>)
    requires Threaded(p, n, front, back, c) && c != []
    ensures front == c[0]
  {
  }

  lemma EraseRelinked(pg: seq<Page>, pg': seq<Page>, c: seq<nat>, k: nat)
    requires k < |c| && c[k] < |pg| == |pg'|
    requires var p, n := pg[c[k]].prev, pg[c[k]].next;
             && p == PrevIn(c, k) < |pg| && n == NextIn(c, k) < |pg|
             && forall i :: 0 <= i < |pg| ==>
                  (i == 0 || (i != p && i != n) ==> pg'[i] == pg[i]) && Unlinked(pg'[i]) == Unlinked(pg[i])
    ensures RelinkedWithin(pg, pg', c)
  {
    if k > 0 { assert c[k - 1] in c; }
    if k + 1 < |c| { assert c[k + 1] in c; }
  }

  lemma PushRelinked(pg: seq<Page>, pg': seq<Page>, front: nat, back: nat, c: seq<nat>, idx: nat)
    requires Threaded(Prevs(pg), Nexts(pg), front, back, c) && idx < |pg| == |pg'|
    requires front < |pg|
    requires pg' == (if front != 0 then pg[front := pg[front].(prev := idx)] else pg)[idx := pg'[idx]]
    requires Unlinked(pg'[idx]) == Unlinked(pg[idx])
    ensures RelinkedWithin(pg, pg', [idx] + c)
  {
    if front != 0 { assert c[0] in c; }
  }
}
