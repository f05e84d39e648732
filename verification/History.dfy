/** What the device holds after any run of writes, and how that changes with one more. */
module History {
  import opened Bytes
  import opened Framing
  import opened CircularBuffer
  import opened CharDriver

  /** Messages that have already left a ring of ten. */
  function Evicted(messages: seq<Record>): seq<Record> {
    messages[..|messages| - |LastTen(messages)|]
  }

  lemma LastTenSuffix(messages: seq<Record>)
    ensures Concat(messages) == Concat(Evicted(messages)) + Concat(LastTen(messages))
    ensures IsSuffix(Concat(LastTen(messages)), Concat(messages))
  {
    ConcatAppend(Evicted(messages), LastTen(messages));
    assert messages == Evicted(messages) + LastTen(messages);
  }

  /** What was evicted, the last ten and the pending bytes are together what was written. */
  lemma HistoryConserves(written: seq<seq<byte>>, messages: seq<Record>)
    requires messages == Frame(written).messages
    ensures Concat(Evicted(messages)) + Concat(LastTen(messages)) + Frame(written).pending == Concat(written)
    ensures forall i :: 0 <= i < |LastTen(messages)| ==> NEWLINE in LastTen(messages)[i]
    ensures NEWLINE !in Frame(written).pending
    ensures |LastTen(messages)| == CAPACITY || Evicted(messages) == []
  {
    FrameConserves(written);
    FrameDelimited(written);
    LastTenSuffix(messages);
    forall i | 0 <= i < |LastTen(messages)|
      ensures NEWLINE in LastTen(messages)[i]
    {
      assert LastTen(messages)[i] == messages[|Evicted(messages)| + i];
    }
  }

  /** Over every run of writes: what was evicted, then the ring in logical order, then the
      pending bytes, are exactly the bytes written; every record has a newline and the
      pending bytes have none; the ring holds as many of the records as it can. */
  lemma DeviceConserves(dev: Device)
    requires dev.Valid()
    ensures Concat(Evicted(Frame(dev.written).messages)) + Concat(dev.Records()) + dev.Pending() == Concat(dev.written)
    ensures forall i :: 0 <= i < |dev.Records()| ==> NEWLINE in dev.Records()[i]
    ensures NEWLINE !in dev.Pending()
    ensures |dev.Records()| == CAPACITY || Evicted(Frame(dev.written).messages) == []
  {
    HistoryConserves(dev.written, Frame(dev.written).messages);
  }

  /** What the device holds is never more than what was written. */
  lemma HeldIsBounded(written: seq<seq<byte>>)
    ensures |Concat(LastTen(Frame(written).messages))| <= |Concat(written)|
  {
    FrameConserves(written);
    LastTenSuffix(Frame(written).messages);
  }

  /** A record arriving at a full ring shifts the concatenation by the length of the oldest
      record: a position finds what was found that much further before, one record later. */
  lemma FullRingShifts(records: seq<Record>, x: Record, p: nat)
    requires |records| == CAPACITY
    ensures Concat(LastTen(records + [x])) == Concat(records)[|records[0]|..] + x
    ensures p + |records[0]| < |Concat(records)| ==>
              var before := Locate(Lengths(records), p + |records[0]|);
              var after := Locate(Lengths(LastTen(records + [x])), p);
              before.At? && before.index > 0 && after == At(before.index - 1, before.offset)
              && Concat(LastTen(records + [x]))[p] == Concat(records)[p + |records[0]|]
  {
    assert LastTen(records + [x]) == records[1..] + [x];
    ConcatSnoc(records[1..], x);
    if p + |records[0]| < |Concat(records)| {
      assert Lengths(records)[1..] == Lengths(records[1..]);
      LocateExtends(records[1..], x, p);
    }
  }

  /** A record arriving at a ring with room leaves every earlier search result as it was. */
  lemma PartialRingKeeps(records: seq<Record>, x: Record, p: nat)
    requires |records| < CAPACITY && p < |Concat(records)|
    ensures Locate(Lengths(LastTen(records + [x])), p) == Locate(Lengths(records), p)
    ensures p < |Concat(LastTen(records + [x]))| && Concat(LastTen(records + [x]))[p] == Concat(records)[p]
  {
    ConcatSnoc(records, x);
    LocateExtends(records, x, p);
  }

  lemma LocateExtends(records: seq<Record>, x: Record, p: nat)
    requires p < |Concat(records)|
    ensures Locate(Lengths(records), p).At?
    ensures Locate(Lengths(records + [x]), p) == Locate(Lengths(records), p)
  {
    ConcatLength(records);
    LocateSound(Lengths(records), p);
    var r := Locate(Lengths(records), p);
    assert Lengths(records + [x])[..r.index] == Lengths(records)[..r.index];
    LocateUnique(Lengths(records + [x]), p, r.index, r.offset);
  }
}
