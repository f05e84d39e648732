/** The shapes of the intrusive queues.  A head and the entry inside an element are the same
    kind of object: a next cell, and a back pointer that names some next cell.  The address
    of a next cell is the link that holds it. */
module Queues {

  class Link {
    var next: Link?
    var back: Link?

    constructor ()
      ensures next == null && back == null
    {
      next, back := null, null;
    }
  }

  /** The link whose next cell points at element `i`; for `i == |s|`, the last next cell. */
  ghost function Cell(head: Link, s: seq<Link>, i: nat): Link
    requires i <= |s|
  {
    if i == 0 then head else s[i - 1]
  }

  ghost function First(s: seq<Link>): set<Link> {
    if s == [] then {} else {s[0]}
  }

  /** The elements are different from each other and from the head. */
  ghost predicate Distinct(head: Link, s: seq<Link>) {
    && (forall i :: 0 <= i < |s| ==> s[i] != head)
    && (forall i, j :: 0 <= i < j < |s| ==> s[i] != s[j])
  }

  /** Two queues without a common link. */
  ghost predicate Apart(head1: Link, s1: seq<Link>, head2: Link, s2: seq<Link>) {
    && head1 != head2
    && (forall i :: 0 <= i < |s1| ==> s1[i] != head2)
    && (forall j :: 0 <= j < |s2| ==> s2[j] != head1)
    && (forall i, j :: 0 <= i < |s1| && 0 <= j < |s2| ==> s1[i] != s2[j])
  }

  /** Following the next cells from the head visits `s` and ends with null. */
  ghost predicate Chain(head: Link, s: seq<Link>)
    reads head, s
  {
    && Distinct(head, s)
    && (forall i {:trigger Cell(head, s, i).next} :: 0 <= i < |s| ==> Cell(head, s, i).next == s[i])
    && Cell(head, s, |s|).next == null
  }

  /** Every element names the cell that points at it. */
  ghost predicate BackLinked(head: Link, s: seq<Link>)
    reads s
  {
    forall i {:trigger s[i].back} :: 0 <= i < |s| ==> s[i].back == Cell(head, s, i)
  }

  /** The head names the last next cell. */
  ghost predicate EndNamed(head: Link, s: seq<Link>)
    reads head
  {
    head.back == Cell(head, s, |s|)
  }

  ghost predicate TailQueue(head: Link, s: seq<Link>)
    reads head, s
  {
    Chain(head, s) && BackLinked(head, s) && EndNamed(head, s)
  }

  ghost predicate List(head: Link, s: seq<Link>)
    reads head, s
  {
    Chain(head, s) && BackLinked(head, s)
  }

  ghost predicate SinglyTailQueue(head: Link, s: seq<Link>)
    reads head, s
  {
    Chain(head, s) && EndNamed(head, s)
  }

  function Inserted<T>(s: seq<T>, k: nat, x: T): (t: seq<T>)
    requires k <= |s|
    ensures |t| == |s| + 1
    ensures forall i {:trigger t[i]} :: 0 <= i < |t| ==> t[i] == if i < k then s[i] else if i == k then x else s[i - 1]
  {
    s[..k] + [x] + s[k..]
  }

  function Removed<T>(s: seq<T>, k: nat): (t: seq<T>)
    requires k < |s|
    ensures |t| == |s| - 1
    ensures forall i {:trigger t[i]} :: 0 <= i < |t| ==> t[i] == if i < k then s[i] else s[i + 1]
  {
    s[..k] + s[k + 1..]
  }

  // How the shapes of longer, shorter, joined and handed-over queues follow from the links
  // around the place where they were changed.

  /** The element that the next cell number `i` points at. */
  ghost function Target(s: seq<Link>, i: nat): Link?
    requires i <= |s|
  {
    if i < |s| then s[i] else null
  }

  lemma ChainInserted(head: Link, s: seq<Link>, k: nat, elm: Link)
    requires Distinct(head, s) && k <= |s| && elm != head && elm !in s
    requires forall i {:trigger Cell(head, s, i)} :: 0 <= i <= |s| && i != k ==> Cell(head, s, i).next == Target(s, i)
    requires Cell(head, s, k).next == elm && elm.next == Target(s, k)
    ensures Chain(head, Inserted(s, k, elm))
  {
    var t := Inserted(s, k, elm);
    forall i: nat | i <= |t|
      ensures Cell(head, t, i).next == Target(t, i)
    {
      assert Cell(head, t, i) == if i <= k then Cell(head, s, i) else if i == k + 1 then elm else Cell(head, s, i - 1);
    }
  }

  lemma BackInserted(head: Link, s: seq<Link>, k: nat, elm: Link)
    requires k <= |s|
    requires forall i :: 0 <= i < |s| && i != k ==> s[i].back == Cell(head, s, i)
    requires elm.back == Cell(head, s, k) && (k < |s| ==> s[k].back == elm)
    ensures BackLinked(head, Inserted(s, k, elm))
  {
    var t := Inserted(s, k, elm);
    forall i: nat | i < |t|
      ensures t[i].back == Cell(head, t, i)
    {
      assert Cell(head, t, i) == if i <= k then Cell(head, s, i) else if i == k + 1 then elm else Cell(head, s, i - 1);
    }
  }

  lemma ChainRemoved(head: Link, s: seq<Link>, k: nat)
    requires Distinct(head, s) && k < |s|
    requires forall i {:trigger Cell(head, s, i)} :: 0 <= i <= |s| && i != k && i != k + 1 ==>
               Cell(head, s, i).next == Target(s, i)
    requires Cell(head, s, k).next == Target(s, k + 1)
    ensures Chain(head, Removed(s, k))
  {
    var t := Removed(s, k);
    forall i: nat | i <= |t|
      ensures Cell(head, t, i).next == Target(t, i)
    {
      assert Cell(head, t, i) == if i <= k then Cell(head, s, i) else Cell(head, s, i + 1);
    }
  }

  lemma BackRemoved(head: Link, s: seq<Link>, k: nat)
    requires k < |s|
    requires forall i :: 0 <= i < |s| && i != k && i != k + 1 ==> s[i].back == Cell(head, s, i)
    requires k + 1 < |s| ==> s[k + 1].back == Cell(head, s, k)
    ensures BackLinked(head, Removed(s, k))
  {
    var t := Removed(s, k);
    forall i: nat | i < |t|
      ensures t[i].back == Cell(head, t, i)
    {
      assert Cell(head, t, i) == if i <= k then Cell(head, s, i) else Cell(head, s, i + 1);
    }
  }

  lemma ChainJoined(head1: Link, head2: Link, s1: seq<Link>, s2: seq<Link>)
    requires Distinct(head1, s1) && Distinct(head2, s2) && Apart(head1, s1, head2, s2)
    requires forall i {:trigger Cell(head1, s1, i)} :: 0 <= i < |s1| ==> Cell(head1, s1, i).next == s1[i]
    requires Cell(head1, s1, |s1|).next == Target(s2, 0)
    requires forall i {:trigger Cell(head2, s2, i)} :: 0 < i <= |s2| ==> Cell(head2, s2, i).next == Target(s2, i)
    ensures Chain(head1, s1 + s2)
  {
    var t := s1 + s2;
    forall i: nat | i <= |t|
      ensures Cell(head1, t, i).next == Target(t, i)
    {
      assert Cell(head1, t, i) == if i <= |s1| then Cell(head1, s1, i) else Cell(head2, s2, i - |s1|);
    }
  }

  lemma BackJoined(head1: Link, head2: Link, s1: seq<Link>, s2: seq<Link>)
    requires BackLinked(head1, s1)
    requires s2 != [] ==> s2[0].back == Cell(head1, s1, |s1|)
    requires forall i :: 0 < i < |s2| ==> s2[i].back == Cell(head2, s2, i)
    ensures BackLinked(head1, s1 + s2)
  {
    var t := s1 + s2;
    forall i: nat | i < |t|
      ensures t[i].back == Cell(head1, t, i)
    {
      assert Cell(head1, t, i) == if i <= |s1| then Cell(head1, s1, i) else Cell(head2, s2, i - |s1|);
    }
  }

  lemma ChainMoved(from: Link, to: Link, s: seq<Link>)
    requires Distinct(to, s) && to.next == Target(s, 0)
    requires forall i {:trigger Cell(from, s, i)} :: 0 < i <= |s| ==> Cell(from, s, i).next == Target(s, i)
    ensures Chain(to, s)
  {
    forall i: nat | i <= |s|
      ensures Cell(to, s, i).next == Target(s, i)
    {
      assert i > 0 ==> Cell(to, s, i) == Cell(from, s, i);
    }
  }

  lemma BackMoved(from: Link, to: Link, s: seq<Link>)
    requires s != [] ==> s[0].back == to
    requires forall i :: 0 < i < |s| ==> s[i].back == Cell(from, s, i)
    ensures BackLinked(to, s)
  {
    forall i: nat | i < |s|
      ensures s[i].back == Cell(to, s, i)
    {
      assert i > 0 ==> Cell(to, s, i) == Cell(from, s, i);
    }
  }

  /** A head determines its queue: following the links can only give one sequence. */
  lemma {:induction false} ContentsUnique(head: Link, s: seq<Link>, t: seq<Link>)
    requires Chain(head, s) && Chain(head, t)
    ensures s == t
  {
    var n := if |s| < |t| then |s| else |t|;
    SamePrefix(head, s, t, n);
    assert n > 0 ==> s[..n][n - 1] == t[..n][n - 1];
    assert Cell(head, s, n) == Cell(head, t, n);
    assert Cell(head, s, n).next == Target(s, n) && Cell(head, t, n).next == Target(t, n);
    assert s[..n] == s && t[..n] == t;
  }

  lemma {:induction false} SamePrefix(head: Link, s: seq<Link>, t: seq<Link>, n: nat)
    requires Chain(head, s) && Chain(head, t) && n <= |s| && n <= |t|
    ensures s[..n] == t[..n]
  {
    if n > 0 {
      SamePrefix(head, s, t, n - 1);
      assert n > 1 ==> s[..n - 1][n - 2] == t[..n - 1][n - 2];
      assert Cell(head, s, n - 1).next == s[n - 1] && Cell(head, t, n - 1).next == t[n - 1];
    }
  }

  /** Back links alone keep queues apart: an element in two queues would lead back to a head
      that is an element, or to one head for both. */
  lemma BackLinksKeepApart(head1: Link, s1: seq<Link>, head2: Link, s2: seq<Link>)
    requires BackLinked(head1, s1) && BackLinked(head2, s2)
    requires head1 != head2 && head1 !in s2 && head2 !in s1
    ensures Apart(head1, s1, head2, s2)
  {
    forall i, j | 0 <= i < |s1| && 0 <= j < |s2|
      ensures s1[i] != s2[j]
    {
      NotShared(head1, s1, i, head2, s2, j);
    }
  }

  lemma {:induction false} NotShared(head1: Link, s1: seq<Link>, i: nat, head2: Link, s2: seq<Link>, j: nat)
    requires BackLinked(head1, s1) && BackLinked(head2, s2)
    requires head1 != head2 && head1 !in s2 && head2 !in s1
    requires i < |s1| && j < |s2|
    ensures s1[i] != s2[j]
  {
    assert s1[i].back == Cell(head1, s1, i) && s2[j].back == Cell(head2, s2, j);
    if i > 0 && j > 0 {
      NotShared(head1, s1, i - 1, head2, s2, j - 1);
    }
  }

  /** FOREACH: follow the next cells from the head. */
  method Foreach(head: Link, ghost s: seq<Link>) returns (visited: seq<Link>)
    requires Chain(head, s)
    ensures visited == s
  {
    visited := [];
    assert head.next == Cell(head, s, 0).next;
    var v := head.next;
    while v != null
      invariant |visited| <= |s| && visited == s[..|visited|]
      invariant v == Cell(head, s, |visited|).next
      decreases |s| - |visited|
    {
      visited := visited + [v];
      v := v.next;
    }
  }
}
