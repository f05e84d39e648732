/** The TAILQ macros.  Sequence and index parameters are ghost: the code has only the links. */
module TailQueues {
  import opened Queues

  method Init(head: Link)
    modifies head
    ensures TailQueue(head, [])
  {
    head.next := null;
    head.back := head;
  }

  method InsertHead(head: Link, elm: Link, ghost s: seq<Link>)
    requires TailQueue(head, s) && elm != head && elm !in s
    modifies head, elm, First(s)
    ensures TailQueue(head, Inserted(s, 0, elm))
  {
    assert head.next == Cell(head, s, 0).next == Target(s, 0);
    elm.next := head.next;
    if elm.next != null {
      head.next.back := elm;
    } else {
      head.back := elm;
    }
    head.next := elm;
    elm.back := head;
    ChainInserted(head, s, 0, elm);
    BackInserted(head, s, 0, elm);
    assert Cell(head, Inserted(s, 0, elm), |s| + 1) == if s == [] then elm else Cell(head, s, |s|);
  }

  method InsertTail(head: Link, elm: Link, ghost s: seq<Link>)
    requires TailQueue(head, s) && elm != head && elm !in s
    modifies head, elm, Cell(head, s, |s|)
    ensures TailQueue(head, Inserted(s, |s|, elm))
  {
    elm.next := null;
    elm.back := head.back;
    head.back.next := elm;
    head.back := elm;
    ChainInserted(head, s, |s|, elm);
    BackInserted(head, s, |s|, elm);
  }

  method InsertAfter(head: Link, listelm: Link, elm: Link, ghost s: seq<Link>, ghost k: nat)
    requires TailQueue(head, s) && elm != head && elm !in s
    requires k < |s| && s[k] == listelm
    modifies elm, listelm, if k + 1 < |s| then s[k + 1] else head
    ensures TailQueue(head, Inserted(s, k + 1, elm))
  {
    assert listelm.next == Cell(head, s, k + 1).next;
    elm.next := listelm.next;
    if elm.next != null {
      elm.next.back := elm;
    } else {
      head.back := elm;
    }
    listelm.next := elm;
    elm.back := listelm;
    ChainInserted(head, s, k + 1, elm);
    BackInserted(head, s, k + 1, elm);
  }

  method InsertBefore(listelm: Link, elm: Link, ghost head: Link, ghost s: seq<Link>, ghost k: nat)
    requires TailQueue(head, s) && elm != head && elm !in s
    requires k < |s| && s[k] == listelm
    modifies elm, listelm, Cell(head, s, k)
    ensures TailQueue(head, Inserted(s, k, elm))
  {
    elm.back := listelm.back;
    elm.next := listelm;
    listelm.back.next := elm;
    listelm.back := elm;
    ChainInserted(head, s, k, elm);
    BackInserted(head, s, k, elm);
  }

  method Remove(head: Link, elm: Link, ghost s: seq<Link>, ghost k: nat)
    requires TailQueue(head, s) && k < |s| && s[k] == elm
    modifies Cell(head, s, k), if k + 1 < |s| then s[k + 1] else head
    ensures TailQueue(head, Removed(s, k))
    ensures elm.next == old(elm.next) && elm.back == old(elm.back)
  {
    assert elm.next == Cell(head, s, k + 1).next;
    if elm.next != null {
      elm.next.back := elm.back;
    } else {
      head.back := elm.back;
    }
    elm.back.next := elm.next;
    ChainRemoved(head, s, k);
    BackRemoved(head, s, k);
  }

  method Concat(head1: Link, head2: Link, ghost s1: seq<Link>, ghost s2: seq<Link>)
    requires TailQueue(head1, s1) && TailQueue(head2, s2)
    requires head1 != head2 && head1 !in s2 && head2 !in s1
    modifies head1, head2, Cell(head1, s1, |s1|), First(s2)
    ensures TailQueue(head1, s1 + s2) && TailQueue(head2, [])
  {
    BackLinksKeepApart(head1, s1, head2, s2);
    assert head2.next == Cell(head2, s2, 0).next;
    if head2.next != null {
      head1.back.next := head2.next;
      head2.next.back := head1.back;
      head1.back := head2.back;
      Init(head2);
      ChainJoined(head1, head2, s1, s2);
      BackJoined(head1, head2, s1, s2);
    } else {
      assert s1 + s2 == s1;
    }
  }

  method Swap(head1: Link, head2: Link, ghost s1: seq<Link>, ghost s2: seq<Link>)
    requires TailQueue(head1, s1) && TailQueue(head2, s2)
    requires head1 != head2 && head1 !in s2 && head2 !in s1
    modifies head1, head2, First(s1), First(s2)
    ensures TailQueue(head1, s2) && TailQueue(head2, s1)
  {
    BackLinksKeepApart(head1, s1, head2, s2);
    assert head1.next == Cell(head1, s1, 0).next && head2.next == Cell(head2, s2, 0).next;
    var swapFirst, swapLast := head1.next, head1.back;
    head1.next := head2.next;
    head1.back := head2.back;
    head2.next := swapFirst;
    head2.back := swapLast;
    swapFirst := head1.next;
    if swapFirst != null {
      swapFirst.back := head1;
    } else {
      head1.back := head1;
    }
    swapFirst := head2.next;
    if swapFirst != null {
      swapFirst.back := head2;
    } else {
      head2.back := head2;
    }
    ChainMoved(head1, head2, s1);
    ChainMoved(head2, head1, s2);
    BackMoved(head1, head2, s1);
    BackMoved(head2, head1, s2);
  }

  /** TAILQ_LAST: the cell two back links away from the head's own back link. */
  method Last(head: Link, ghost s: seq<Link>) returns (r: Link?)
    requires TailQueue(head, s)
    ensures r == if s == [] then null else s[|s| - 1]
  {
    r := head.back.back.next;
  }

  /** TAILQ_PREV: likewise from the element's back link. */
  method Prev(elm: Link, ghost head: Link, ghost s: seq<Link>, ghost k: nat) returns (r: Link?)
    requires TailQueue(head, s) && k < |s| && s[k] == elm
    ensures r == if k == 0 then null else s[k - 1]
  {
    r := elm.back.back.next;
  }

  function Reversed<T>(s: seq<T>): (r: seq<T>)
    ensures |r| == |s| && forall i :: 0 <= i < |s| ==> r[i] == s[|s| - 1 - i]
  {
    seq(|s|, i requires 0 <= i < |s| => s[|s| - 1 - i])
  }

  /** TAILQ_FOREACH_REVERSE: from the last element along the predecessors. */
  method ForeachReverse(head: Link, ghost s: seq<Link>) returns (visited: seq<Link>)
    requires TailQueue(head, s)
    ensures visited == Reversed(s)
  {
    visited := [];
    var v := Last(head, s);
    while v != null
      invariant |visited| <= |s| && visited == Reversed(s)[..|visited|]
      invariant v == if |visited| == |s| then null else s[|s| - 1 - |visited|]
      decreases |s| - |visited|
    {
      ghost var k := |s| - 1 - |visited|;
      visited := visited + [v];
      v := Prev(v, head, s, k);
    }
  }

  /** The elements in `keep`, in order. */
  function Kept<T(==)>(s: seq<T>, keep: set<T>): seq<T> {
    if s == [] then [] else (if s[0] in keep then [s[0]] else []) + Kept(s[1..], keep)
  }

  /** One step of a safe walk: the successor is read before the body, which removes the
      element if it is not to be kept. */
  method VisitSafely(head: Link, v: Link, keep: set<Link>, ghost passed: seq<Link>, ghost rest: seq<Link>)
    returns (tvar: Link?)
    requires TailQueue(head, passed + rest) && rest != [] && rest[0] == v
    modifies Cell(head, passed, |passed|), if 1 < |rest| then rest[1] else head
    ensures TailQueue(head, passed + Kept(rest[..1], keep) + rest[1..])
    ensures tvar == if |rest| == 1 then null else rest[1]
  {
    ghost var t := passed + rest;
    assert Cell(head, t, |passed|) == Cell(head, passed, |passed|);
    assert t[|passed|] == v && Cell(head, t, |passed| + 1).next == v.next;
    tvar := v.next;
    if v !in keep {
      Remove(head, v, t, |passed|);
      assert Removed(t, |passed|) == passed + Kept(rest[..1], keep) + rest[1..];
    } else {
      assert t == passed + Kept(rest[..1], keep) + rest[1..];
    }
  }

  lemma MoveOne<T>(done: seq<T>, rest: seq<T>)
    requires rest != []
    ensures done + [rest[0]] + rest[1..] == done + rest
    ensures (done + rest)[|done|] == rest[0]
    ensures 1 < |rest| ==> (done + rest)[|done| + 1] == rest[1]
  {
  }

  lemma {:induction false} KeptAppend<T>(s: seq<T>, t: seq<T>, keep: set<T>)
    ensures Kept(s + t, keep) == Kept(s, keep) + Kept(t, keep)
  {
    if s == [] {
      assert s + t == t;
    } else {
      var u := s + t;
      assert u[0] == s[0] && u[1..] == s[1..] + t;
      KeptAppend(s[1..], t, keep);
      var first := if s[0] in keep then [s[0]] else [];
      assert Kept(u, keep) == first + Kept(u[1..], keep);
      assert first + (Kept(s[1..], keep) + Kept(t, keep)) == (first + Kept(s[1..], keep)) + Kept(t, keep);
    }
  }

  lemma {:induction false} KeptMembers<T>(s: seq<T>, keep: set<T>)
    ensures forall x :: x in Kept(s, keep) <==> x in s && x in keep
  {
    if s != [] {
      KeptMembers(s[1..], keep);
    }
  }

  /** TAILQ_FOREACH_SAFE with a body that removes every element not in `keep`: the walk still
      visits every element, and exactly the kept ones stay, in order. */
  method RemoveWhileWalking(head: Link, keep: set<Link>, ghost s: seq<Link>) returns (visited: seq<Link>)
    requires TailQueue(head, s)
    modifies head, s
    ensures TailQueue(head, Kept(s, keep)) && visited == s
  {
    visited := [];
    ghost var rest := s;
    assert Kept([], keep) + rest == s;
    assert head.next == Cell(head, s, 0).next;
    var v := head.next;
    while v != null
      invariant visited + rest == s
      invariant TailQueue(head, Kept(visited, keep) + rest)
      invariant v == if rest == [] then null else rest[0]
      decreases |rest|
    {
      OneVisited(head, visited, rest, keep);
      var e: Link := v;
      v := VisitSafely(head, e, keep, Kept(visited, keep), rest);
      visited := visited + [e];
      rest := rest[1..];
    }
    assert visited == s && Kept(visited, keep) + rest == Kept(visited, keep);
  }

  lemma OneVisited(head: Link, visited: seq<Link>, rest: seq<Link>, keep: set<Link>)
    requires rest != []
    ensures visited + [rest[0]] + rest[1..] == visited + rest
    ensures Kept(visited + [rest[0]], keep) == Kept(visited, keep) + Kept(rest[..1], keep)
    ensures var cell := Cell(head, Kept(visited, keep), |Kept(visited, keep)|);
            cell == head || cell in visited + rest
    ensures 1 < |rest| ==> rest[1] in visited + rest
  {
    MoveOne(visited, rest);
    KeptMembers(visited, keep);
    KeptAppend(visited, rest[..1], keep);
    assert rest[..1] == [rest[0]];
    var kept := Kept(visited, keep);
    assert kept != [] ==> kept[|kept| - 1] in kept;
    assert forall i :: 0 <= i < |visited| ==> visited[i] == (visited + rest)[i];
  }

  method RemoveFirst(head: Link, ghost s: seq<Link>) returns (e: Link)
    requires TailQueue(head, s) && s != []
    modifies head, if 1 < |s| then s[1] else head
    ensures TailQueue(head, s[1..]) && e == s[0]
  {
    assert head.next == Cell(head, s, 0).next;
    e := head.next;
    Remove(head, e, s, 0);
    assert Removed(s, 0) == s[1..];
  }

  /** The draining loop of the server's `cleanup`: take the first element off and free it,
      until the queue is empty. */
  method Drain(head: Link, ghost s: seq<Link>) returns (freed: seq<Link>)
    requires TailQueue(head, s)
    modifies head, s
    ensures TailQueue(head, []) && freed == s
  {
    freed := [];
    ghost var rest := s;
    assert Cell(head, rest, 0).next == if rest == [] then null else rest[0];
    while head.next != null
      invariant freed + rest == s
      invariant TailQueue(head, rest)
      invariant head.next == if rest == [] then null else rest[0]
      decreases |rest|
    {
      MoveOne(freed, rest);
      var e := RemoveFirst(head, rest);
      freed := freed + [e];
      rest := rest[1..];
      assert Cell(head, rest, 0).next == if rest == [] then null else rest[0];
    }
  }
}
