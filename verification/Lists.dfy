/** The LIST macros: doubly linked like a tail queue, but the head has no back link. */
module Lists {
  import opened Queues

  method Init(head: Link)
    modifies head`next
    ensures List(head, [])
  {
    head.next := null;
  }

  method InsertHead(head: Link, elm: Link, ghost s: seq<Link>)
    requires List(head, s) && elm != head && elm !in s
    modifies head`next, elm, First(s)
    ensures List(head, Inserted(s, 0, elm))
  {
    assert head.next == Cell(head, s, 0).next;
    elm.next := head.next;
    if elm.next != null {
      head.next.back := elm;
    }
    head.next := elm;
    elm.back := head;
    ChainInserted(head, s, 0, elm);
    BackInserted(head, s, 0, elm);
  }

  method InsertAfter(listelm: Link, elm: Link, ghost head: Link, ghost s: seq<Link>, ghost k: nat)
    requires List(head, s) && elm != head && elm !in s
    requires k < |s| && s[k] == listelm
    modifies elm, listelm, if k + 1 < |s| then {s[k + 1]} else {}
    ensures List(head, Inserted(s, k + 1, elm))
  {
    assert listelm.next == Cell(head, s, k + 1).next;
    elm.next := listelm.next;
    if elm.next != null {
      listelm.next.back := elm;
    }
    listelm.next := elm;
    elm.back := listelm;
    ChainInserted(head, s, k + 1, elm);
    BackInserted(head, s, k + 1, elm);
  }

  /** Works from the element alone: the cell to redirect is the one its back link names. */
  method InsertBefore(listelm: Link, elm: Link, ghost head: Link, ghost s: seq<Link>, ghost k: nat)
    requires List(head, s) && elm != head && elm !in s
    requires k < |s| && s[k] == listelm
    modifies elm, listelm, Cell(head, s, k)`next
    ensures List(head, Inserted(s, k, elm))
  {
    elm.back := listelm.back;
    elm.next := listelm;
    listelm.back.next := elm;
    listelm.back := elm;
    ChainInserted(head, s, k, elm);
    BackInserted(head, s, k, elm);
  }

  /** Works from the element alone, without the head. */
  method Remove(elm: Link, ghost head: Link, ghost s: seq<Link>, ghost k: nat)
    requires List(head, s) && k < |s| && s[k] == elm
    modifies Cell(head, s, k)`next, if k + 1 < |s| then {s[k + 1]} else {}
    ensures List(head, Removed(s, k))
  {
    assert elm.next == Cell(head, s, k + 1).next;
    if elm.next != null {
      elm.next.back := elm.back;
    }
    elm.back.next := elm.next;
    ChainRemoved(head, s, k);
    BackRemoved(head, s, k);
  }

  method Prev(elm: Link, head: Link, ghost s: seq<Link>, ghost k: nat) returns (r: Link?)
    requires List(head, s) && k < |s| && s[k] == elm
    ensures r == if k == 0 then null else s[k - 1]
  {
    r := if elm.back == head then null else elm.back;
  }

  /** The walk of LIST_CONCAT to the last element. */
  method WalkToLast(head: Link, ghost s: seq<Link>) returns (curelm: Link)
    requires List(head, s) && s != []
    ensures curelm == s[|s| - 1]
  {
    assert head.next == Cell(head, s, 0).next;
    curelm := head.next;
    ghost var i := 0;
    while curelm.next != null
      invariant i < |s| && curelm == s[i] == Cell(head, s, i + 1)
      invariant curelm.next == Cell(head, s, i + 1).next
      decreases |s| - i
    {
      curelm := curelm.next;
      i := i + 1;
    }
  }

  method Concat(head1: Link, head2: Link, ghost s1: seq<Link>, ghost s2: seq<Link>)
    requires List(head1, s1) && List(head2, s2)
    requires head1 != head2 && head1 !in s2 && head2 !in s1
    modifies head1, head2, s1, First(s2)
    ensures List(head1, s1 + s2) && List(head2, [])
  {
    BackLinksKeepApart(head1, s1, head2, s2);
    assert head1.next == Cell(head1, s1, 0).next && head2.next == Cell(head2, s2, 0).next;
    if head1.next == null {
      head1.next := head2.next;
      if head1.next != null {
        head2.next.back := head1;
        Init(head2);
      }
      assert s1 + s2 == s2;
      ChainMoved(head2, head1, s2);
      BackMoved(head2, head1, s2);
    } else if head2.next != null {
      var curelm := WalkToLast(head1, s1);
      curelm.next := head2.next;
      head2.next.back := curelm;
      Init(head2);
      ChainJoined(head1, head2, s1, s2);
      BackJoined(head1, head2, s1, s2);
    } else {
      assert s1 + s2 == s1;
    }
  }

  method Swap(head1: Link, head2: Link, ghost s1: seq<Link>, ghost s2: seq<Link>)
    requires List(head1, s1) && List(head2, s2)
    requires head1 != head2 && head1 !in s2 && head2 !in s1
    modifies head1, head2, First(s1), First(s2)
    ensures List(head1, s2) && List(head2, s1)
  {
    BackLinksKeepApart(head1, s1, head2, s2);
    assert head1.next == Cell(head1, s1, 0).next && head2.next == Cell(head2, s2, 0).next;
    var swapTmp := head1.next;
    head1.next := head2.next;
    head2.next := swapTmp;
    swapTmp := head1.next;
    if swapTmp != null {
      swapTmp.back := head1;
    }
    swapTmp := head2.next;
    if swapTmp != null {
      swapTmp.back := head2;
    }
    ChainMoved(head1, head2, s1);
    ChainMoved(head2, head1, s2);
    BackMoved(head1, head2, s1);
    BackMoved(head2, head1, s2);
  }
}
