/** The STAILQ macros: forward links only, and a head that names the last next cell. */
module SinglyTailQueues {
  import opened Queues

  method Init(head: Link)
    modifies head
    ensures SinglyTailQueue(head, [])
  {
    head.next := null;
    head.back := head;
  }

  method InsertHead(head: Link, elm: Link, ghost s: seq<Link>)
    requires SinglyTailQueue(head, s) && elm != head && elm !in s
    modifies head, elm
    ensures SinglyTailQueue(head, Inserted(s, 0, elm))
  {
    assert head.next == Cell(head, s, 0).next;
    elm.next := head.next;
    if elm.next == null {
      head.back := elm;
    }
    head.next := elm;
    ChainInserted(head, s, 0, elm);
  }

  method InsertTail(head: Link, elm: Link, ghost s: seq<Link>)
    requires SinglyTailQueue(head, s) && elm != head && elm !in s
    modifies head, elm, Cell(head, s, |s|)`next
    ensures SinglyTailQueue(head, Inserted(s, |s|, elm))
  {
    elm.next := null;
    head.back.next := elm;
    head.back := elm;
    ChainInserted(head, s, |s|, elm);
  }

  method InsertAfter(head: Link, tqelm: Link, elm: Link, ghost s: seq<Link>, ghost k: nat)
    requires SinglyTailQueue(head, s) && elm != head && elm !in s
    requires k < |s| && s[k] == tqelm
    modifies head`back, tqelm`next, elm
    ensures SinglyTailQueue(head, Inserted(s, k + 1, elm))
  {
    assert tqelm.next == Cell(head, s, k + 1).next;
    elm.next := tqelm.next;
    if elm.next == null {
      head.back := elm;
    }
    tqelm.next := elm;
    ChainInserted(head, s, k + 1, elm);
  }

  method RemoveHead(head: Link, ghost s: seq<Link>)
    requires SinglyTailQueue(head, s) && s != []
    modifies head
    ensures SinglyTailQueue(head, Removed(s, 0))
  {
    assert head.next == Cell(head, s, 0).next && head.next.next == Cell(head, s, 1).next;
    head.next := head.next.next;
    if head.next == null {
      head.back := head;
    }
    ChainRemoved(head, s, 0);
  }

  method RemoveAfter(head: Link, elm: Link, ghost s: seq<Link>, ghost k: nat)
    requires SinglyTailQueue(head, s) && k + 1 < |s| && s[k] == elm
    modifies head`back, elm`next
    ensures SinglyTailQueue(head, Removed(s, k + 1))
  {
    assert elm.next == Cell(head, s, k + 1).next && s[k + 1].next == Cell(head, s, k + 2).next;
    elm.next := elm.next.next;
    if elm.next == null {
      head.back := elm;
    }
    ChainRemoved(head, s, k + 1);
  }

  /** Without a back link the predecessor has to be searched for from the front. */
  method Remove(head: Link, elm: Link, ghost s: seq<Link>, ghost k: nat)
    requires SinglyTailQueue(head, s) && k < |s| && s[k] == elm
    modifies head, Cell(head, s, k)`next
    ensures SinglyTailQueue(head, Removed(s, k))
  {
    assert head.next == Cell(head, s, 0).next;
    if head.next == elm {
      RemoveHead(head, s);
    } else {
      var curelm: Link := head.next;
      ghost var i := 0;
      while curelm.next != elm
        invariant i < k && curelm == s[i] == Cell(head, s, i + 1)
        invariant curelm.next == Cell(head, s, i + 1).next
        decreases k - i
      {
        curelm := curelm.next;
        i := i + 1;
      }
      RemoveAfter(head, curelm, s, i);
    }
  }

  /** STAILQ_LAST: the element whose next cell the head names. */
  method Last(head: Link, ghost s: seq<Link>) returns (r: Link?)
    requires SinglyTailQueue(head, s)
    ensures r == if s == [] then null else s[|s| - 1]
  {
    assert head.next == Cell(head, s, 0).next;
    r := if head.next == null then null else head.back;
  }

  /** Here nothing leads back to a head, so that the queues are apart has to be asked for. */
  method Concat(head1: Link, head2: Link, ghost s1: seq<Link>, ghost s2: seq<Link>)
    requires SinglyTailQueue(head1, s1) && SinglyTailQueue(head2, s2)
    requires Apart(head1, s1, head2, s2)
    modifies head1, head2, Cell(head1, s1, |s1|)`next
    ensures SinglyTailQueue(head1, s1 + s2) && SinglyTailQueue(head2, [])
  {
    assert head2.next == Cell(head2, s2, 0).next;
    if head2.next != null {
      head1.back.next := head2.next;
      head1.back := head2.back;
      Init(head2);
      ChainJoined(head1, head2, s1, s2);
    } else {
      assert s1 + s2 == s1;
    }
  }

  method Swap(head1: Link, head2: Link, ghost s1: seq<Link>, ghost s2: seq<Link>)
    requires SinglyTailQueue(head1, s1) && SinglyTailQueue(head2, s2)
    requires head1 != head2 && head1 !in s2 && head2 !in s1
    modifies head1, head2
    ensures SinglyTailQueue(head1, s2) && SinglyTailQueue(head2, s1)
  {
    assert head1.next == Cell(head1, s1, 0).next && head2.next == Cell(head2, s2, 0).next;
    var swapFirst, swapLast := head1.next, head1.back;
    head1.next := head2.next;
    head1.back := head2.back;
    head2.next := swapFirst;
    head2.back := swapLast;
    if head1.next == null {
      head1.back := head1;
    }
    if head2.next == null {
      head2.back := head2;
    }
    ChainMoved(head1, head2, s1);
    ChainMoved(head2, head1, s2);
  }
}
