/** What the seek command outputs, and when that is what lies behind the place asked for. */
module SeekCommand {
  import opened Bytes
  import opened Reading
  import opened CircularBuffer

  function EmptySlots(n: nat): (r: seq<Record>)
    ensures |r| == n
  {
    seq(n, _ => [])
  }

  /** The ten slots of a ring holding `records`, from the one to read first. */
  function TenSlots(records: seq<Record>): (r: seq<Record>)
    requires |records| <= CAPACITY
    ensures |r| == CAPACITY
  {
    records + EmptySlots(CAPACITY - |records|)
  }

  lemma {:induction false} EmptySlotsAddNothing(records: seq<Record>, n: nat)
    ensures Concat(records + EmptySlots(n)) == Concat(records)
  {
    if n == 0 {
      assert records + EmptySlots(0) == records;
    } else {
      EmptySlotsAddNothing(records, n - 1);
      ConcatSnoc(records + EmptySlots(n - 1), []);
      assert records + EmptySlots(n) == (records + EmptySlots(n - 1)) + [[]];
    }
  }

  /** From a stored record on, the slots amount to the records. */
  lemma SlotsFrom(records: seq<Record>, c: nat)
    requires c <= |records| <= CAPACITY
    ensures TenSlots(records)[c..] == records[c..] + EmptySlots(CAPACITY - |records|)
    ensures Concat(TenSlots(records)[c..]) == Concat(records[c..])
  {
    EmptySlotsAddNothing(records[c..], CAPACITY - |records|);
  }

  /** What a seek command stages.  Command 10 wraps around to the slot of command 0. */
  function SeekOutput(records: seq<Record>, writeCmd: nat, offset: nat): seq<byte>
    requires |records| <= CAPACITY && writeCmd <= CAPACITY
  {
    var total := |Concat(records)|;
    Staged(TenSlots(records)[if writeCmd == CAPACITY then 0 else writeCmd..], offset, 0,
           if offset <= total then total - offset else 0)
  }

  /** From a stored record on, the slots amount to the rest of the concatenation. */
  lemma SlotsAreRest(records: seq<Record>, c: nat)
    requires c < |records| <= CAPACITY
    ensures var start := Sum(Lengths(records)[..c]);
            start + |records[c]| <= |Concat(records)| && Concat(TenSlots(records)[c..]) == Concat(records)[start..]
  {
    SlotsFrom(records, c);
    ConcatSplit(records, c);
    ConcatFrom(records, c);
  }

  /** Seeking into a stored record outputs everything from that byte to the end. */
  lemma SeekServes(records: seq<Record>, writeCmd: nat, offset: nat)
    requires |records| <= CAPACITY && writeCmd < |records| && offset <= |records[writeCmd]|
    ensures var start := Sum(Lengths(records)[..writeCmd]);
            && start + offset <= |Concat(records)|
            && SeekOutput(records, writeCmd, offset) == Concat(records)[start + offset..]
  {
    var start := Sum(Lengths(records)[..writeCmd]);
    SlotsAreRest(records, writeCmd);
    assert TenSlots(records)[writeCmd..][0] == records[writeCmd];
    StagedAll(TenSlots(records)[writeCmd..], offset, 0, |Concat(records)| - offset);
    assert Concat(records)[start..][offset..] == Concat(records)[start + offset..];
  }

  /** So the seek command and reading on from that position agree, for every read size. */
  lemma SeekAgreesWithReading(records: seq<Record>, writeCmd: nat, offset: nat, count: nat)
    requires |records| <= CAPACITY && writeCmd < |records| && offset <= |records[writeCmd]| && count > 0
    ensures SeekOutput(records, writeCmd, offset)
            == ReadOut(records, Sum(Lengths(records)[..writeCmd]) + offset, count)
  {
    SeekServes(records, writeCmd, offset);
    ReadOutIsRest(records, Sum(Lengths(records)[..writeCmd]) + offset, count);
  }

  /** Commands past the stored records output nothing, and command 10 is command 0. */
  lemma SeekPastRecords(records: seq<Record>, writeCmd: nat, offset: nat)
    requires |records| <= CAPACITY && writeCmd <= CAPACITY
    ensures |records| <= writeCmd < CAPACITY ==> SeekOutput(records, writeCmd, offset) == []
    ensures SeekOutput(records, CAPACITY, offset) == SeekOutput(records, 0, offset)
  {
    if |records| <= writeCmd < CAPACITY {
      var rest := TenSlots(records)[writeCmd..];
      EmptySlotsAddNothing([], |rest|);
      assert rest == [] + EmptySlots(|rest|);
      var total := |Concat(records)|;
      StagedBounded(rest, offset, 0, if offset <= total then total - offset else 0);
    }
  }

  /** An offset beyond the chosen record does not carry over into the following ones: the
      output starts with the record after it and consists of whole records, stopping at
      the first point where `total - offset` bytes are reached. */
  lemma SeekBeyondRecord(records: seq<Record>, writeCmd: nat, offset: nat) returns (k: nat)
    requires |records| <= CAPACITY && writeCmd < |records| && |records[writeCmd]| < offset
    ensures var following := records[writeCmd + 1..];
            && k <= |following|
            && SeekOutput(records, writeCmd, offset) == Concat(following[..k])
            && (k == |following| || offset + |Concat(following[..k])| >= |Concat(records)|)
            && (k > 0 ==> offset + |Concat(following[..k - 1])| < |Concat(records)|)
  {
    var following := records[writeCmd + 1..];
    var slots := TenSlots(records)[writeCmd..];
    var total := |Concat(records)|;
    if offset >= total {
      assert following[..0] == [];
      return 0;
    }
    SlotsFrom(records, writeCmd + 1);
    assert slots[0] == records[writeCmd] && slots[1..] == TenSlots(records)[writeCmd + 1..];
    k := StagedWhole(slots[1..], 0, total - offset);
    k := DropEmptySlots(following, CAPACITY - |records|, k, total - offset);
  }

  /** Where staging stops among records followed by empty slots, it also stops among the records. */
  lemma DropEmptySlots(following: seq<Record>, n: nat, k: nat, limit: nat) returns (k': nat)
    requires var slots := following + EmptySlots(n);
             && k <= |slots|
             && (k == |slots| || |Concat(slots[..k])| >= limit)
             && (k > 0 ==> |Concat(slots[..k - 1])| < limit)
    ensures k' <= |following| && Concat(following[..k']) == Concat((following + EmptySlots(n))[..k])
    ensures k' == |following| || |Concat(following[..k'])| >= limit
    ensures k' > 0 ==> |Concat(following[..k' - 1])| < limit
  {
    var slots := following + EmptySlots(n);
    if k <= |following| {
      assert slots[..k] == following[..k];
      assert k > 0 ==> slots[..k - 1] == following[..k - 1];
      return k;
    }
    k' := |following|;
    assert slots[..k] == following + EmptySlots(k - k') && slots[..k - 1] == following + EmptySlots(k - 1 - k');
    EmptySlotsAddNothing(following, k - k');
    EmptySlotsAddNothing(following, k - 1 - k');
    assert following[..k'] == following;
    if k' > 0 {
      ConcatSnoc(following[..k' - 1], following[k' - 1]);
      assert following == following[..k' - 1] + [following[k' - 1]];
    }
  }

  /** What lies behind the byte `offset` of the chosen record: the rest of the concatenation,
      empty past its end and for a command that names no stored record. */
  function Asked(records: seq<Record>, writeCmd: nat, offset: nat): seq<byte> {
    var start := Sum(Lengths(records)[..Min(writeCmd, |records|)]);
    if writeCmd < |records| && start + offset <= |Concat(records)| then Concat(records)[start + offset..] else []
  }

  /** A record ends exactly `left` bytes behind the end of the first one. */
  ghost predicate RecordEnds(records: seq<Record>, left: nat)
    requires records != []
  {
    exists k :: 0 <= k < |records| && |Concat(records[1..][..k])| == left
  }

  /** The bytes behind the first record and those from `offset` on are the same ones. */
  ghost predicate Repeats(records: seq<Record>, offset: nat)
    requires records != [] && |records[0]| <= offset <= |Concat(records)|
  {
    var all := Concat(records);
    all[|records[0]|..|records[0]| + |all| - offset] == all[offset..]
  }

  /** The commands that are served with as many bytes as were asked for. */
  ghost predicate RightCount(records: seq<Record>, writeCmd: nat, offset: nat)
    requires writeCmd <= CAPACITY
  {
    || offset >= |Concat(records)|
    || |records| <= writeCmd < CAPACITY
    || (writeCmd < |records| && offset <= |records[writeCmd]|)
    || (0 < writeCmd && writeCmd + 1 == |records|)
    || (writeCmd == 0 && RecordEnds(records, |Concat(records)| - offset))
  }

  /** The commands that are served with the bytes asked for. */
  ghost predicate ServedAsAsked(records: seq<Record>, writeCmd: nat, offset: nat)
    requires writeCmd <= CAPACITY
  {
    && RightCount(records, writeCmd, offset)
    && (writeCmd == 0 && records != [] && |records[0]| < offset < |Concat(records)| ==> Repeats(records, offset))
  }

  lemma PrefixesGrow(records: seq<Record>, i: nat, j: nat)
    requires i <= j <= |records|
    ensures |Concat(records[..i])| <= |Concat(records[..j])|
    ensures Concat(records[..j]) <= Concat(records)
  {
    ConcatAppend(records[..i], records[i..j]);
    assert records[..j] == records[..i] + records[i..j];
    ConcatAppend(records[..j], records[j..]);
    assert records == records[..j] + records[j..];
  }

  /** With an offset beyond a record that is neither the first nor the last, and below the
      total, too many bytes come out. */
  lemma LaterRecordMissed(records: seq<Record>, writeCmd: nat, offset: nat)
    requires |records| <= CAPACITY && 0 < writeCmd && writeCmd + 1 < |records|
    requires forall i :: 0 <= i < |records| ==> records[i] != []
    requires |records[writeCmd]| < offset < |Concat(records)|
    ensures |SeekOutput(records, writeCmd, offset)| > |Asked(records, writeCmd, offset)|
  {
    var following := records[writeCmd + 1..];
    var k := SeekBeyondRecord(records, writeCmd, offset);
    ConcatSplit(records, writeCmd);
    SumPrefixMonotone(Lengths(records), 1, writeCmd);
    assert Lengths(records)[..1] == [|records[0]|] && Sum([|records[0]|]) == |records[0]| + Sum([]);
    assert following[..0] == [];
    if k == |following| {
      assert following[..k] == following;
      assert following[0] == records[writeCmd + 1] && Concat(following) == following[0] + Concat(following[1..]);
    }
  }

  /** With an offset beyond the last record nothing is asked for and nothing comes out. */
  lemma LastRecordServed(records: seq<Record>, offset: nat)
    requires 0 < |records| <= CAPACITY && |records[|records| - 1]| < offset
    ensures SeekOutput(records, |records| - 1, offset) == Asked(records, |records| - 1, offset) == []
  {
    var k := SeekBeyondRecord(records, |records| - 1, offset);
    ConcatSplit(records, |records| - 1);
    assert records[|records| - 1 + 1..] == [];
  }

  /** With an offset beyond the first record and below the total, at least as many bytes as
      asked for come out, from the end of the first record on; exactly as many if a record
      ends there. */
  lemma FirstRecordOutput(records: seq<Record>, offset: nat)
    requires 0 < |records| <= CAPACITY && |records[0]| < offset < |Concat(records)|
    ensures var all, n := Concat(records), |SeekOutput(records, 0, offset)|;
            && n >= |all| - offset && |records[0]| + n <= |all|
            && SeekOutput(records, 0, offset) == all[|records[0]|..|records[0]| + n]
            && (n == |all| - offset <==> RecordEnds(records, |all| - offset))
  {
    var following := records[1..];
    var k := SeekBeyondRecord(records, 0, offset);
    var all, out := Concat(records), Concat(following[..k]);
    PrefixesGrow(following, k, k);
    assert all == records[0] + Concat(following);
    assert k == |following| ==> following[..k] == following;
    BoundaryReached(following, k, |all| - offset);
  }

  /** Then the right number of bytes comes out exactly if a record ends there, and the right
      bytes exactly if moreover they repeat. */
  lemma FirstRecordServed(records: seq<Record>, offset: nat)
    requires 0 < |records| <= CAPACITY && |records[0]| < offset < |Concat(records)|
    ensures var left := |Concat(records)| - offset;
            && (|SeekOutput(records, 0, offset)| == |Asked(records, 0, offset)| <==> RecordEnds(records, left))
            && (SeekOutput(records, 0, offset) == Asked(records, 0, offset)
                <==> RecordEnds(records, left) && Repeats(records, offset))
  {
    FirstRecordOutput(records, offset);
    assert Lengths(records)[..0] == [] && Asked(records, 0, offset) == Concat(records)[offset..];
  }

  /** The first boundary at or behind `left` bytes is at `left` if any boundary is. */
  lemma BoundaryReached(following: seq<Record>, k: nat, left: nat)
    requires k <= |following| && |Concat(following[..k])| >= left
    requires k > 0 ==> |Concat(following[..k - 1])| < left
    ensures |Concat(following[..k])| == left
            <==> exists j :: 0 <= j <= |following| && |Concat(following[..j])| == left
  {
    if j :| 0 <= j <= |following| && |Concat(following[..j])| == left {
      if k <= j {
        PrefixesGrow(following, k, j);
      } else {
        PrefixesGrow(following, j, k - 1);
      }
    }
  }

  /** Exactly when a seek command outputs what lies behind the place asked for: always from
      within a stored record, always for the last record and from the total on; never beyond
      any other record but the first, nor for command 10; and beyond the first record only if
      a record ends so many bytes behind it and the bytes there repeat. */
  lemma SeekExact(records: seq<Record>, writeCmd: nat, offset: nat)
    requires |records| <= CAPACITY && writeCmd <= CAPACITY
    requires forall i :: 0 <= i < |records| ==> records[i] != []
    ensures |SeekOutput(records, writeCmd, offset)| == |Asked(records, writeCmd, offset)|
            <==> RightCount(records, writeCmd, offset)
    ensures SeekOutput(records, writeCmd, offset) == Asked(records, writeCmd, offset)
            <==> ServedAsAsked(records, writeCmd, offset)
  {
    if offset >= |Concat(records)| {
      assert SeekOutput(records, writeCmd, offset) == [] == Asked(records, writeCmd, offset);
    } else if writeCmd == CAPACITY {
      SeekPastRecords(records, writeCmd, offset);
      SomethingComesOut(records, offset);
    } else if |records| <= writeCmd {
      SeekPastRecords(records, writeCmd, offset);
    } else if offset <= |records[writeCmd]| {
      SeekServes(records, writeCmd, offset);
    } else if writeCmd == 0 {
      FirstRecordServed(records, offset);
    } else if writeCmd + 1 == |records| {
      LastRecordServed(records, offset);
    } else {
      LaterRecordMissed(records, writeCmd, offset);
    }
  }

  /** Below the total, command 0 always outputs something. */
  lemma SomethingComesOut(records: seq<Record>, offset: nat)
    requires |records| <= CAPACITY && offset < |Concat(records)|
    ensures SeekOutput(records, 0, offset) != []
  {
    assert Lengths(records)[..0] == [];
    if offset <= |records[0]| {
      SeekServes(records, 0, offset);
    } else {
      var k := SeekBeyondRecord(records, 0, offset);
      assert records[1..][..|records| - 1] == records[1..];
    }
  }

  /** A command for which the output is not what lies behind position start + offset. */
  lemma SeekMissesFarOffset()
    ensures var records: seq<Record> := [[10], [10], [1, 10]];
            SeekOutput(records, 0, 2) == [10, 1, 10] && Concat(records)[2..] == [1, 10]
  {
    var records: seq<Record> := [[10], [10], [1, 10]];
    assert Concat(records[2..]) == [1, 10] + Concat(records[3..]);
    assert records[1..][1..] == records[2..] && records[2..][1..] == records[3..];
    assert Concat(records) == [10, 10, 1, 10];
    var slots := TenSlots(records);
    assert slots[1..][1..][1..] == slots[3..];
    assert Staged(slots[3..], 0, 3, 2) == [];
    assert Staged(slots[1..][1..], 0, 1, 2) == [1, 10];
  }

  lemma TailBounded(slots: seq<Record>, i: nat)
    requires i <= |slots|
    ensures |Concat(slots[i..])| <= |Concat(slots)|
  {
    ConcatAppend(slots[..i], slots[i..]);
    assert slots == slots[..i] + slots[i..];
  }

  /** However the command is chosen, no more bytes are staged than the ring holds. */
  lemma SeekBounded(records: seq<Record>, writeCmd: nat, offset: nat)
    requires |records| <= CAPACITY && writeCmd <= CAPACITY
    ensures |SeekOutput(records, writeCmd, offset)| <= |Concat(records)|
  {
    var first := if writeCmd == CAPACITY then 0 else writeCmd;
    var total := |Concat(records)|;
    StagedBounded(TenSlots(records)[first..], offset, 0, if offset <= total then total - offset else 0);
    TailBounded(TenSlots(records), first);
    EmptySlotsAddNothing(records, CAPACITY - |records|);
  }
}
