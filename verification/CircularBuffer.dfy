/** The ring of the ten most recent entries.  The ring stores payload pointers and sizes
    and never looks behind a pointer. */
module CircularBuffer {
  import opened Bytes

  const CAPACITY: nat := 10

  /** A payload pointer, null when the slot was never used, and the bytes in use behind it. */
  datatype Entry = Entry(buffptr: array?<byte>, size: nat)

  const UNUSED: Entry := Entry(null, 0)

  /** The newest `CAPACITY` elements. */
  function LastTen<T>(s: seq<T>): seq<T> {
    if |s| <= CAPACITY then s else s[|s| - CAPACITY..]
  }

  lemma LastTenSnoc<T>(s: seq<T>, x: T)
    ensures LastTen(LastTen(s) + [x]) == LastTen(s + [x])
  {
  }

  function Sizes(es: seq<Entry>): (r: seq<nat>)
    ensures |r| == |es|
  {
    seq(|es|, i requires 0 <= i < |es| => es[i].size)
  }

  /** Slot `i` counted from slot 0 past the end of the array. */
  function Wrap(i: nat): nat {
    if i < CAPACITY then i else i - CAPACITY
  }

  /** The slots of the array, starting with slot `out`. */
  function Rotate(raw: seq<Entry>, out: nat): (r: seq<Entry>)
    requires |raw| == CAPACITY && out < CAPACITY
    ensures |r| == CAPACITY
    ensures forall i :: 0 <= i < CAPACITY ==> r[i] == raw[Wrap(out + i)]
  {
    raw[out..] + raw[..out]
  }

  /** Overwriting the oldest slot and starting one slot later drops the oldest entry. */
  lemma OverwriteOldest(raw: seq<Entry>, at: nat, e: Entry)
    requires |raw| == CAPACITY && at < CAPACITY
    ensures Rotate(raw[at := e], Wrap(at + 1)) == Rotate(raw, at)[1..] + [e]
  {
    var l, r := Rotate(raw[at := e], Wrap(at + 1)), Rotate(raw, at)[1..] + [e];
    forall i | 0 <= i < CAPACITY
      ensures l[i] == r[i]
    {
      assert l[i] == raw[at := e][Wrap(Wrap(at + 1) + i)];
    }
  }

  /** While the ring starts at slot 0, the next free slot extends what is stored. */
  lemma FillNext(raw: seq<Entry>, at: nat, e: Entry)
    requires |raw| == CAPACITY && at < CAPACITY
    ensures Rotate(raw[at := e], 0)[..at + 1] == Rotate(raw, 0)[..at] + [e]
  {
  }

  /** Either the ring has wrapped and both offsets agree, or reading starts at slot 0
      and the slots from `inOffs` on are unused. */
  ghost predicate WellFormed(raw: seq<Entry>, inOffs: nat, outOffs: nat, full: bool) {
    && |raw| == CAPACITY
    && inOffs < CAPACITY && outOffs < CAPACITY
    && (full ==> inOffs == outOffs)
    && (!full ==> outOffs == 0 && forall i :: inOffs <= i < CAPACITY ==> raw[i] == UNUSED)
  }

  /** The stored entries, oldest first. */
  ghost function Stored(raw: seq<Entry>, inOffs: nat, outOffs: nat, full: bool): seq<Entry>
    requires WellFormed(raw, inOffs, outOffs, full)
  {
    Rotate(raw, outOffs)[..if full then CAPACITY else inOffs]
  }

  /** The offset arithmetic of an insertion keeps the ring well formed and stores the
      entry as the newest, giving up the oldest one only when all slots are taken. */
  lemma InsertRefines(raw: seq<Entry>, inOffs: nat, outOffs: nat, full: bool, e: Entry)
    requires WellFormed(raw, inOffs, outOffs, full)
    ensures var out' := if full then Wrap(outOffs + 1) else outOffs;
            && WellFormed(raw[inOffs := e], Wrap(inOffs + 1), out', full || inOffs + 1 == CAPACITY)
            && Stored(raw[inOffs := e], Wrap(inOffs + 1), out', full || inOffs + 1 == CAPACITY)
               == LastTen(Stored(raw, inOffs, outOffs, full) + [e])
  {
    if full {
      OverwriteOldest(raw, inOffs, e);
    } else {
      FillNext(raw, inOffs, e);
    }
  }

  class Ring {
    const entry: array<Entry>
    var inOffs: nat
    var outOffs: nat
    var full: bool

    ghost predicate Valid()
      reads this, entry
    {
      WellFormed(entry[..], inOffs, outOffs, full)
    }

    /** All ten slots, starting with the one to read first. */
    ghost function Slots(): (r: seq<Entry>)
      requires Valid()
      reads this, entry
      ensures |r| == CAPACITY
    {
      Rotate(entry[..], outOffs)
    }

    ghost function Count(): nat
      reads this
    {
      if full then CAPACITY else inOffs
    }

    /** The stored entries, oldest first. */
    ghost function Entries(): (r: seq<Entry>)
      requires Valid()
      reads this, entry
    {
      Stored(entry[..], inOffs, outOffs, full)
    }

    constructor ()
      ensures Valid() && Entries() == [] && fresh(entry)
    {
      entry := new Entry[CAPACITY](_ => UNUSED);
      inOffs, outOffs, full := 0, 0, false;
    }

    /** Unused slots have size 0, so they add nothing to a sum. */
    lemma SlotsTotal()
      requires Valid()
      ensures Sum(Sizes(Slots())) == Sum(Sizes(Entries()))
    {
      var sizes := Sizes(Slots());
      SumZeros(sizes[Count()..]);
      SumAppend(sizes[..Count()], sizes[Count()..]);
      assert sizes == sizes[..Count()] + sizes[Count()..];
      assert sizes[..Count()] == Sizes(Entries());
    }

    /** Summation does not depend on where the ring starts. */
    lemma RawTotal()
      requires Valid()
      ensures Sum(Sizes(entry[..])) == Sum(Sizes(Entries()))
    {
      var a, b := Sizes(entry[..outOffs]), Sizes(entry[outOffs..]);
      assert Sizes(entry[..]) == a + b;
      assert Sizes(Slots()) == b + a;
      SumAppend(a, b);
      SumAppend(b, a);
      SlotsTotal();
    }

    method AddEntry(e: Entry) returns (evicted: array?<byte>)
      requires Valid()
      modifies this, entry
      ensures Valid()
      ensures Entries() == LastTen(old(Entries()) + [e])
      ensures evicted == if |old(Entries())| == CAPACITY then old(Entries())[0].buffptr else null
    {
      InsertRefines(entry[..], inOffs, outOffs, full, e);
      evicted := entry[inOffs].buffptr;
      entry[inOffs] := e;
      assert entry[..] == old(entry[..])[inOffs := e];
      if inOffs == outOffs && full {
        outOffs := outOffs + 1;
        if outOffs == CAPACITY {
          outOffs := 0;
        }
      }
      inOffs := inOffs + 1;
      if inOffs == CAPACITY {
        inOffs := 0;
        full := true;
      }
    }

    method FindEntryOffsetForFpos(charOffset: nat) returns (r: Position)
      requires Valid()
      ensures r == match Locate(Sizes(Entries()), charOffset)
                   case Nowhere => Nowhere
                   case At(i, o) => At(Wrap(outOffs + i), o)
    {
      ghost var sizes := Sizes(Slots());
      ghost var k := 0;
      var searched := 0;
      var at := outOffs;
      var firstRun := true;
      while inOffs != at || firstRun
        invariant k <= CAPACITY && at == Wrap(outOffs + k)
        invariant firstRun <==> k == 0
        invariant searched == Sum(sizes[..k]) <= charOffset
        invariant !full && 0 < inOffs ==> k <= inOffs
        decreases CAPACITY - k
      {
        firstRun := false;
        assert sizes[k] == entry[at].size;
        SumPrefix(sizes, k);
        if searched + entry[at].size > charOffset {
          LocateInEntries(charOffset, k, charOffset - searched);
          return At(at, charOffset - searched);
        }
        searched := searched + entry[at].size;
        at := if at + 1 != CAPACITY then at + 1 else 0;
        k := k + 1;
      }
      SlotsTotal();
      LocateSound(Sizes(Entries()), charOffset);
      if k == CAPACITY {
        assert sizes[..k] == sizes;
      } else {
        assert sizes[..k] == Sizes(Entries());
      }
      return Nowhere;
    }

    lemma LocateInEntries(p: nat, k: nat, o: nat)
      requires Valid() && k < CAPACITY
      requires o < Slots()[k].size && Sum(Sizes(Slots())[..k]) + o == p
      ensures Locate(Sizes(Entries()), p) == At(k, o)
    {
      assert k < Count();
      assert Sizes(Entries())[..k] == Sizes(Slots())[..k];
      LocateUnique(Sizes(Entries()), p, k, o);
    }

    method LengthOfAllEntries() returns (total: nat)
      requires Valid()
      ensures total == Sum(Sizes(Entries()))
    {
      total := 0;
      var index := 0;
      while index < CAPACITY
        invariant index <= CAPACITY
        invariant total == Sum(Sizes(entry[..])[..index])
      {
        SumPrefix(Sizes(entry[..]), index);
        total := total + entry[index].size;
        index := index + 1;
      }
      assert Sizes(entry[..])[..CAPACITY] == Sizes(entry[..]);
      RawTotal();
    }
  }
}
