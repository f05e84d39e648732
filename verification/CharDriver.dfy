/** The character device: a pending entry that grows with every write, and the ring of
    the ten most recent records. */
module CharDriver {
  import opened Bytes
  import opened Framing
  import opened CircularBuffer

  datatype Option<T> = None | Some(value: T)

  datatype Errno = EINVAL | EFAULT | ERESTARTSYS

  datatype Result<T> = Ok(value: T) | Err(errno: Errno)

  /** The bytes an entry stands for. */
  ghost function Payload(e: Entry): seq<byte>
    reads e.buffptr
  {
    if e.buffptr == null || e.buffptr.Length < e.size then [] else e.buffptr[..e.size]
  }

  ghost function Blocks(es: seq<Entry>): set<array?<byte>> {
    set i | 0 <= i < |es| :: es[i].buffptr
  }

  lemma BlocksAppend(a: seq<Entry>, b: seq<Entry>)
    ensures Blocks(a + b) == Blocks(a) + Blocks(b)
  {
    forall i | 0 <= i < |a|
      ensures a[i].buffptr in Blocks(a + b)
    {
      assert (a + b)[i] == a[i];
    }
    forall i | 0 <= i < |b|
      ensures b[i].buffptr in Blocks(a + b)
    {
      assert (a + b)[|a| + i] == b[i];
    }
  }

  lemma BlocksSnoc(es: seq<Entry>, e: Entry)
    ensures Blocks(es + [e]) == Blocks(es) + {e.buffptr}
  {
    BlocksAppend(es, [e]);
    assert [e][0] == e;
  }

  lemma {:induction false} FewBlocks(es: seq<Entry>)
    ensures |Blocks(es)| <= |es|
  {
    if es != [] {
      var init := es[..|es| - 1];
      FewBlocks(init);
      BlocksSnoc(init, es[|es| - 1]);
      assert es == init + [es[|es| - 1]];
    }
  }

  ghost function Payloads(es: seq<Entry>): (r: seq<Record>)
    reads Blocks(es)
    ensures |r| == |es|
    ensures forall i :: 0 <= i < |es| ==> r[i] == Payload(es[i])
  {
    seq(|es|, i requires 0 <= i < |es| reads Blocks(es) => Payload(es[i]))
  }

  /** The entries own the live blocks: each entry has a block of its own that is live and
      large enough, and there are no further live blocks. */
  ghost predicate Owns(es: seq<Entry>, live: set<array?<byte>>) {
    && (forall i :: 0 <= i < |es| ==> es[i].buffptr != null && es[i].size <= es[i].buffptr.Length)
    && (forall i, j :: 0 <= i < j < |es| ==> es[i].buffptr != es[j].buffptr)
    && live == Blocks(es)
  }

  lemma OwnsAdd(es: seq<Entry>, e: Entry, live: set<array?<byte>>)
    requires Owns(es, live)
    requires e.buffptr != null && e.buffptr !in live && e.size <= e.buffptr.Length
    ensures Owns(es + [e], live + {e.buffptr})
  {
    BlocksSnoc(es, e);
    assert forall i :: 0 <= i < |es| ==> es[i].buffptr in Blocks(es);
  }

  lemma OwnsDropLast(es: seq<Entry>, e: Entry, live: set<array?<byte>>)
    requires Owns(es + [e], live)
    ensures Owns(es, live - {e.buffptr}) && e.buffptr in live
  {
    BlocksSnoc(es, e);
    assert (es + [e])[|es|] == e;
    forall i | 0 <= i < |es|
      ensures es[i] == (es + [e])[i] && es[i].buffptr != e.buffptr
    {
    }
  }

  /** When an eleventh entry arrives, the block of the oldest is the one given up. */
  lemma OwnsLastTen(es: seq<Entry>, live: set<array?<byte>>)
    requires Owns(es, live) && 0 < |es| <= CAPACITY + 1
    ensures es[0].buffptr != null && es[0].buffptr in live
    ensures Owns(LastTen(es), if |es| == CAPACITY + 1 then live - {es[0].buffptr} else live)
  {
    BlocksAppend(es[..1], es[1..]);
    assert es == es[..1] + es[1..];
    assert Blocks(es[..1]) == {es[0].buffptr};
    forall i | 0 <= i < |es[1..]|
      ensures es[1..][i] == es[i + 1] && es[i + 1].buffptr != es[0].buffptr
    {
    }
  }

  lemma OwnsResize(es: seq<Entry>, e: Entry, e': Entry, live: set<array?<byte>>)
    requires Owns(es + [e], live)
    requires e'.buffptr == e.buffptr && e'.buffptr != null && e'.size <= e'.buffptr.Length
    ensures Owns(es + [e'], live)
  {
    OwnsDropLast(es, e, live);
    OwnsAdd(es, e', live - {e.buffptr});
    assert live - {e.buffptr} + {e.buffptr} == live;
  }

  lemma PayloadsLastTen(es: seq<Entry>, e: Entry)
    ensures Payloads(LastTen(es + [e])) == LastTen(Payloads(es) + [Payload(e)])
  {
    var longer, all := es + [e], Payloads(es) + [Payload(e)];
    assert Payloads(longer) == all;
    forall i | 0 <= i < |LastTen(longer)|
      ensures Payload(LastTen(longer)[i]) == LastTen(all)[i]
    {
      assert LastTen(longer)[i] == longer[|longer| - |LastTen(longer)| + i];
    }
  }

  class Device {
    const ring: Ring
    var readBuf: Option<Entry>
    var locked: bool

    /** Payload blocks allocated and not yet freed. */
    ghost var live: set<array?<byte>>
    /** Entry structs allocated; the driver frees none of them. */
    ghost var structs: nat
    /** The chunks of all successful writes. */
    ghost var written: seq<seq<byte>>

    ghost function PendingEntries(): seq<Entry>
      reads this`readBuf
    {
      if readBuf.Some? && readBuf.value.buffptr != null then [readBuf.value] else []
    }

    ghost predicate Memory()
      reads this`readBuf, this`live, ring, ring.entry
    {
      && ring.Valid()
      && Owns(ring.Entries() + PendingEntries(), live)
      && (readBuf.Some? && readBuf.value.buffptr == null ==> readBuf.value.size == 0)
    }

    ghost function Records(): (r: seq<Record>)
      requires Memory()
      reads this`readBuf, this`live, ring, ring.entry, live
    {
      BlocksAppend(ring.Entries(), PendingEntries());
      Payloads(ring.Entries())
    }

    ghost function Pending(): seq<byte>
      requires Memory()
      reads this`readBuf, this`live, ring, ring.entry, live
    {
      BlocksAppend(ring.Entries(), PendingEntries());
      if PendingEntries() == [] then [] else Payload(PendingEntries()[0])
    }

    /** The ring holds the last ten messages, the pending entry the pending bytes. */
    ghost predicate Shows(f: Framed)
      reads this`readBuf, this`live, this`structs, ring, ring.entry, live
    {
      && Memory()
      && Records() == LastTen(f.messages)
      && Pending() == f.pending
      && structs == |f.messages| + (if readBuf.Some? then 1 else 0)
    }

    ghost predicate Valid()
      reads this`readBuf, this`live, this`structs, this`written, ring, ring.entry, live
    {
      Shows(Frame(written))
    }

    constructor ()
      ensures Valid() && !locked && written == [] && readBuf == Some(UNUSED)
      ensures fresh(ring) && fresh(ring.entry)
    {
      ring := new Ring();
      readBuf := Some(UNUSED);
      locked := false;
      live, structs, written := {}, 1, [];
    }

    method Kmalloc(n: nat) returns (p: array<byte>)
      modifies this`live
      ensures fresh(p) && p.Length == n && live == old(live) + {p}
    {
      p := new byte[n];
      live := live + {p};
    }

    method Kfree(p: array?<byte>)
      requires p != null ==> p in live
      modifies this`live
      ensures live == if p == null then old(live) else old(live) - {p}
    {
      if p != null {
        live := live - {p};
      }
    }

    method Krealloc(p: array<byte>, n: nat) returns (q: array<byte>)
      requires p in live
      modifies this`live
      ensures fresh(q) && q.Length == n
      ensures forall i :: 0 <= i < p.Length && i < n ==> q[i] == p[i]
      ensures live == old(live) - {p} + {q}
    {
      q := new byte[n];
      forall i | 0 <= i < p.Length && i < n {
        q[i] := p[i];
      }
      live := live - {p} + {q};
    }

    /** Never more than eleven payload blocks are allocated. */
    lemma AtMostElevenLive()
      requires Memory()
      ensures |live| <= CAPACITY + 1
    {
      FewBlocks(ring.Entries() + PendingEntries());
    }

    /** The sizes the ring searches by are the lengths of the records. */
    lemma RecordSizes()
      requires Memory()
      ensures Sizes(ring.Entries()) == Lengths(Records())
    {
      var es := ring.Entries() + PendingEntries();
      forall i | 0 <= i < |ring.Entries()|
        ensures ring.Entries()[i].size == |Records()[i]|
      {
        assert es[i] == ring.Entries()[i];
      }
    }

    /** The entry has a live block with exactly the record in its used part. */
    ghost predicate Holds(e: Entry, record: Record)
      reads this`live, e.buffptr
    {
      e.buffptr != null && e.buffptr in live && e.size <= e.buffptr.Length && e.buffptr[..e.size] == record
    }

    /** Behind the slot of a stored entry lies the record. */
    lemma EntryAt(i: nat)
      requires Memory() && i < |ring.Entries()|
      ensures Wrap(ring.outOffs + i) < CAPACITY
      ensures Holds(ring.entry[Wrap(ring.outOffs + i)], Records()[i])
    {
      var es := ring.Entries() + PendingEntries();
      assert es[i] == ring.entry[..][Wrap(ring.outOffs + i)];
    }

    /** Locating a position finds the slot of the record it lies in. */
    lemma PositionAt(p: nat, at: Position)
      requires Memory() && at == Locate(Lengths(Records()), p)
      ensures at.Nowhere? ==> p >= |Concat(Records())|
      ensures at.At? ==>
                && at.index < |Records()|
                && Wrap(ring.outOffs + at.index) < CAPACITY
                && Holds(ring.entry[Wrap(ring.outOffs + at.index)], Records()[at.index])
    {
      LocateSound(Lengths(Records()), p);
      ConcatLength(Records());
      if at.At? {
        EntryAt(at.index);
      }
    }

    /** The pending entry has a block with room for `n` more bytes, and nobody else has it. */
    ghost predicate Ready(n: nat)
      reads this`readBuf
    {
      readBuf.Some? && readBuf.value.buffptr != null && readBuf.value.size + n <= readBuf.value.buffptr.Length
    }

    method FirstBlock(n: nat)
      requires Memory() && readBuf.Some? && readBuf.value.buffptr == null
      modifies this`live, this`readBuf
      ensures Memory() && Ready(n) && fresh(readBuf.value.buffptr)
      ensures Records() == old(Records()) && Pending() == []
    {
      ghost var es := ring.Entries();
      assert es + PendingEntries() == es;
      var p := Kmalloc(n);
      readBuf := Some(Entry(p, 0));
      OwnsAdd(es, readBuf.value, old(live));
    }

    method LargerBlock(n: nat)
      requires Memory() && readBuf.Some? && readBuf.value.buffptr != null
      modifies this`live, this`readBuf
      ensures Memory() && Ready(n) && fresh(readBuf.value.buffptr)
      ensures Records() == old(Records()) && Pending() == old(Pending())
    {
      var e := readBuf.value;
      OwnsDropLast(ring.Entries(), e, live);
      var p := Krealloc(e.buffptr, e.size + n);
      readBuf := Some(Entry(p, e.size));
      OwnsAdd(ring.Entries(), readBuf.value, old(live) - {e.buffptr});
      assert p[..e.size] == e.buffptr[..e.size];
    }

    /** Make the pending entry able to take `n` more bytes. */
    method GrowPending(n: nat)
      requires Memory()
      modifies this`live, this`readBuf, this`structs
      ensures Memory() && Ready(n) && fresh(readBuf.value.buffptr)
      ensures Records() == old(Records()) && Pending() == old(Pending())
      ensures structs == old(structs) + (if old(readBuf).None? then 1 else 0)
    {
      if readBuf.None? {
        readBuf := Some(UNUSED);
        structs := structs + 1;
      }
      if readBuf.value.buffptr == null {
        FirstBlock(n);
      } else {
        LargerBlock(n);
      }
    }

    /** Copy user bytes behind the used part of the pending block. */
    method CopyFromUser(data: seq<byte>)
      requires Memory() && Ready(|data|)
      modifies readBuf.value.buffptr
      ensures Memory() && Records() == old(Records()) && Pending() == old(Pending())
      ensures var e := readBuf.value; e.buffptr[e.size..e.size + |data|] == data
    {
      var e := readBuf.value;
      ReadyApart(0);
      forall i | 0 <= i < |data| {
        e.buffptr[e.size + i] := data[i];
      }
      assert e.buffptr[..e.size] == old(e.buffptr[..e.size]);
      assert e.buffptr[e.size..e.size + |data|] == data;
      assert Payloads(ring.Entries()) == old(Payloads(ring.Entries()));
    }

    /** Walk over the new bytes, counting each into the pending entry. */
    method ScanNewBytes(chunk: seq<byte>) returns (terminated: bool)
      requires Memory() && Ready(|chunk|)
      requires var e := readBuf.value; e.buffptr[e.size..e.size + |chunk|] == chunk
      modifies this`readBuf
      ensures Memory() && Records() == old(Records()) && Pending() == old(Pending()) + chunk
      ensures PendingEntries() != []
      ensures terminated == (NEWLINE in chunk)
    {
      var e := readBuf.value;
      terminated := false;
      var i := 0;
      while i < |chunk|
        invariant i <= |chunk|
        invariant readBuf == Some(Entry(e.buffptr, e.size + i))
        invariant terminated == (NEWLINE in chunk[..i])
      {
        var c := e.buffptr[e.size + i];
        assert c == e.buffptr[e.size..e.size + |chunk|][i] == chunk[i];
        assert chunk[..i + 1] == chunk[..i] + [c];
        if c == NEWLINE {
          terminated := true;
        }
        readBuf := Some(readBuf.value.(size := readBuf.value.size + 1));
        i := i + 1;
      }
      assert chunk[..i] == chunk;
      OwnsResize(ring.Entries(), e, readBuf.value, live);
      assert e.buffptr[..e.size + |chunk|] == e.buffptr[..e.size] + e.buffptr[e.size..e.size + |chunk|];
    }

    lemma ReadyApart(n: nat)
      requires Memory() && Ready(n)
      ensures readBuf.value.buffptr !in Blocks(ring.Entries())
    {
      OwnsDropLast(ring.Entries(), readBuf.value, live);
    }

    method AddAndFree(e: Entry)
      requires ring.Valid() && Owns(ring.Entries() + [e], live)
      modifies this`live, ring, ring.entry
      ensures ring.Valid() && ring.Entries() == LastTen(old(ring.Entries()) + [e])
      ensures Owns(ring.Entries(), live)
    {
      ghost var es := ring.Entries();
      OwnsLastTen(es + [e], live);
      assert es != [] ==> (es + [e])[0] == es[0];
      var toFree := ring.AddEntry(e);
      if toFree != null {
        Kfree(toFree);
      }
    }

    /** Hand the pending entry to the ring and free the payload that leaves it. */
    method Publish()
      requires Memory() && PendingEntries() != []
      modifies this`live, this`readBuf, ring, ring.entry
      ensures Memory() && readBuf.None?
      ensures Records() == LastTen(old(Records()) + [old(Pending())])
    {
      ghost var kept := LastTen(ring.Entries() + [readBuf.value]);
      PayloadsLastTen(ring.Entries(), readBuf.value);
      AddAndFree(readBuf.value);
      readBuf := None;
      assert ring.Entries() + PendingEntries() == kept;
      assert Payloads(kept) == old(Payloads(kept));
    }

    /** Make room for a chunk of length `n` and copy what can be copied of it; as long as
        the bytes are not counted in, the device stands for the same contents. */
    method Accept(data: seq<byte>, n: nat, ghost f: Framed)
      requires Shows(f) && |data| <= n
      modifies this`live, this`readBuf, this`structs
      ensures Shows(f) && Ready(n) && fresh(readBuf.value.buffptr)
      ensures var e := readBuf.value; e.buffptr[e.size..e.size + |data|] == data
    {
      GrowPending(n);
      CopyFromUser(data);
    }

    /** Count the new bytes in, and publish the pending entry if they contain a newline. */
    method AddNewBytes(chunk: seq<byte>)
      requires Memory() && Ready(|chunk|)
      requires var e := readBuf.value; e.buffptr[e.size..e.size + |chunk|] == chunk
      modifies this`live, this`readBuf, ring, ring.entry
      ensures Memory() && (readBuf.None? <==> NEWLINE in chunk)
      ensures NEWLINE in chunk ==> Records() == LastTen(old(Records()) + [old(Pending()) + chunk]) && Pending() == []
      ensures NEWLINE !in chunk ==> Records() == old(Records()) && Pending() == old(Pending()) + chunk
    {
      var terminated := ScanNewBytes(chunk);
      if terminated {
        Publish();
      }
    }

    /** The new bytes are in place: one more chunk has been written. */
    method Commit(chunk: seq<byte>, ghost f: Framed)
      requires Shows(f) && Ready(|chunk|)
      requires var e := readBuf.value; e.buffptr[e.size..e.size + |chunk|] == chunk
      modifies this`live, this`readBuf, ring, ring.entry
      ensures Shows(AddChunk(f, chunk)) && (readBuf.None? <==> NEWLINE in chunk)
    {
      LastTenSnoc(f.messages, f.pending + chunk);
      AddNewBytes(chunk);
    }

    /** The part of `aesd_write` under the lock. */
    method WriteLocked(chunk: seq<byte>, uncopied: nat, ghost f: Framed) returns (copied: bool)
      requires Shows(f) && uncopied <= |chunk|
      modifies this`live, this`readBuf, this`structs, ring, ring.entry
      ensures Shows(if copied then AddChunk(f, chunk) else f)
      ensures copied <==> uncopied == 0
      ensures readBuf.None? <==> copied && NEWLINE in chunk
    {
      Accept(chunk[..|chunk| - uncopied], |chunk|, f);
      if uncopied != 0 {
        return false;
      }
      Commit(chunk, f);
      return true;
    }

    /** The device is valid after these writes. */
    ghost predicate IsAfter(chunks: seq<seq<byte>>)
      reads this`readBuf, this`live, this`structs, this`written, ring, ring.entry, live
    {
      Valid() && written == chunks
    }

    method WriteAndRecord(chunk: seq<byte>, uncopied: nat, ghost chunks: seq<seq<byte>>) returns (copied: bool)
      requires IsAfter(chunks) && uncopied <= |chunk|
      modifies this`live, this`readBuf, this`structs, this`written, ring, ring.entry
      ensures IsAfter(if copied then chunks + [chunk] else chunks)
      ensures copied <==> uncopied == 0
      ensures readBuf.None? <==> copied && NEWLINE in chunk
    {
      ghost var f := Frame(chunks);
      FrameSnoc(chunks, chunk);
      copied := WriteLocked(chunk, uncopied, f);
      if copied {
        written := chunks + [chunk];
      }
    }

    /** Take the lock, write, and give the lock back unless the copy has failed. */
    method WriteAndUnlock(chunk: seq<byte>, uncopied: nat, ghost chunks: seq<seq<byte>>) returns (copied: bool)
      requires IsAfter(chunks) && uncopied <= |chunk|
      modifies this, ring, ring.entry
      ensures IsAfter(if copied then chunks + [chunk] else chunks)
      ensures copied <==> uncopied == 0
      ensures readBuf.None? <==> copied && NEWLINE in chunk
      ensures locked <==> !copied
    {
      locked := true;
      copied := WriteAndRecord(chunk, uncopied, chunks);
      if copied {
        locked := false;
      }
    }

    /** `aesd_write`.  The outcome of taking the lock and of the copy from user space are
        the caller's: a held lock is only ever left by a signal, and `uncopied` bytes of
        the chunk could not be read.  The early return after a failed copy keeps the lock. */
    method Write(chunk: seq<byte>, interrupted: bool, uncopied: nat) returns (r: Result<nat>)
      requires Valid() && uncopied <= |chunk|
      requires locked ==> interrupted
      modifies this, ring, ring.entry
      ensures Valid()
      ensures r == if interrupted then Err(ERESTARTSYS) else if uncopied > 0 then Err(EFAULT) else Ok(|chunk|)
      ensures written == if r.Ok? then old(written) + [chunk] else old(written)
      ensures locked == (old(locked) || (!interrupted && uncopied > 0))
      ensures interrupted ==> unchanged(this, ring, ring.entry)
      ensures !interrupted ==> (readBuf.None? <==> uncopied == 0 && NEWLINE in chunk)
    {
      if interrupted {
        r := Err(ERESTARTSYS);
      } else {
        var copied := WriteAndUnlock(chunk, uncopied, written);
        r := if copied then Ok(|chunk|) else Err(EFAULT);
      }
    }

    /** Slot `i` of the array is either unused or the entry at its logical index. */
    lemma SlotIsEntry(i: nat)
      requires Memory() && i < CAPACITY && ring.entry[i].buffptr != null
      ensures LogicalIndex(i) < ring.Count() && ring.entry[i] == ring.Entries()[LogicalIndex(i)]
    {
      assert ring.entry[..][i] == ring.Slots()[LogicalIndex(i)];
    }

    /** Every payload pointer in the array is live and occurs in no other slot. */
    lemma SlotsApart(i: nat, j: nat)
      requires Memory() && i < CAPACITY && ring.entry[i].buffptr != null
      requires j < CAPACITY && i != j
      ensures ring.entry[i].buffptr in live && ring.entry[i].buffptr != ring.entry[j].buffptr
    {
      var es := ring.Entries() + PendingEntries();
      SlotIsEntry(i);
      assert es[LogicalIndex(i)].buffptr == ring.entry[i].buffptr;
      if ring.entry[j].buffptr != null {
        SlotIsEntry(j);
        assert es[LogicalIndex(j)].buffptr == ring.entry[j].buffptr;
      }
    }

    lemma AllSlotsApart()
      requires Memory()
      ensures forall i :: 0 <= i < CAPACITY && ring.entry[i].buffptr != null ==> ring.entry[i].buffptr in live
      ensures forall i, j :: 0 <= j < i < CAPACITY && ring.entry[i].buffptr != null ==>
                ring.entry[j].buffptr != ring.entry[i].buffptr
    {
      forall i | 0 <= i < CAPACITY && ring.entry[i].buffptr != null
        ensures ring.entry[i].buffptr in live
      {
        SlotsApart(i, if i == 0 then 1 else 0);
      }
      forall i, j | 0 <= j < i < CAPACITY && ring.entry[i].buffptr != null
        ensures ring.entry[j].buffptr != ring.entry[i].buffptr
      {
        SlotsApart(i, j);
      }
    }

    /** Apart from the payloads in the array, only the pending payload is allocated. */
    lemma SlotsAndPending()
      requires Memory()
      ensures live - Blocks(ring.entry[..]) == Blocks(PendingEntries())
    {
      BlocksAppend(ring.Entries(), PendingEntries());
      assert Blocks(ring.Entries()) <= Blocks(ring.entry[..]) by {
        forall k: nat | k < ring.Count()
          ensures ring.Entries()[k].buffptr in Blocks(ring.entry[..])
        {
          assert ring.Entries()[k] == ring.entry[..][Wrap(ring.outOffs + k)];
        }
      }
      if PendingEntries() != [] {
        var e := PendingEntries()[0];
        OwnsDropLast(ring.Entries(), e, live);
        forall i: nat | i < CAPACITY
          ensures ring.entry[..][i].buffptr != e.buffptr
        {
          if ring.entry[i].buffptr != null {
            SlotIsEntry(i);
          }
        }
      }
    }

    ghost function LogicalIndex(i: nat): nat
      requires i < CAPACITY && ring.outOffs < CAPACITY
      reads ring
    {
      if ring.outOffs <= i then i - ring.outOffs else i + CAPACITY - ring.outOffs
    }

    /** Free the payload of one slot after those of the slots before it. */
    method FreeSlot(index: nat, ghost blocks: set<array?<byte>>)
      requires null !in blocks && index < ring.entry.Length && live == blocks - Blocks(ring.entry[..index])
      requires ring.entry[index].buffptr != null ==>
                 && ring.entry[index].buffptr in blocks
                 && forall j :: 0 <= j < index ==> ring.entry[j].buffptr != ring.entry[index].buffptr
      modifies this`live
      ensures live == blocks - Blocks(ring.entry[..index + 1])
    {
      assert ring.entry[..index + 1] == ring.entry[..index] + [ring.entry[index]];
      BlocksSnoc(ring.entry[..index], ring.entry[index]);
      Kfree(ring.entry[index].buffptr);
    }

    /** `aesd_cleanup_module`: free the payload of every slot.  The slots keep their
        pointers, so afterwards only the pending payload is still allocated. */
    method Cleanup()
      requires Valid()
      modifies this`live
      ensures live == Blocks(PendingEntries())
    {
      ghost var blocks := live;
      SlotsAndPending();
      AllSlotsApart();
      var index := 0;
      while index < CAPACITY
        invariant index <= CAPACITY
        invariant live == blocks - Blocks(ring.entry[..index])
      {
        FreeSlot(index, blocks);
        index := index + 1;
      }
      assert ring.entry[..index] == ring.entry[..];
    }
  }
}
