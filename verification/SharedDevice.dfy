/** Several clients writing to one device.  The driver frames what arrives in the order it
    arrives, whoever sent it; file-mode workers frame each client's chunks separately. */
module SharedDevice {
  import opened Bytes
  import opened Framing
  import opened CircularBuffer
  import opened CharDriver

  datatype Arrival = Arrival(client: nat, chunk: seq<byte>)

  function Chunks(arrivals: seq<Arrival>): (r: seq<seq<byte>>)
    ensures |r| == |arrivals|
  {
    seq(|arrivals|, i requires 0 <= i < |arrivals| => arrivals[i].chunk)
  }

  /** The chunks of one client. */
  function ChunksOf(arrivals: seq<Arrival>, c: nat): seq<seq<byte>> {
    if arrivals == [] then []
    else
      var last := arrivals[|arrivals| - 1];
      ChunksOf(arrivals[..|arrivals| - 1], c) + if last.client == c then [last.chunk] else []
  }

  /** What a worker of its own would have pending for a client. */
  function PendingOf(arrivals: seq<Arrival>, c: nat): seq<byte> {
    Frame(ChunksOf(arrivals, c)).pending
  }

  /** The messages of workers of their own, in the order in which they are completed. */
  function SeparateMessages(arrivals: seq<Arrival>): seq<Record> {
    if arrivals == [] then []
    else
      var init, last := arrivals[..|arrivals| - 1], arrivals[|arrivals| - 1];
      SeparateMessages(init) + if NEWLINE in last.chunk then [PendingOf(init, last.client) + last.chunk] else []
  }

  /** No other client has bytes pending. */
  ghost predicate Alone(arrivals: seq<Arrival>, c: nat) {
    forall d: nat :: d != c ==> PendingOf(arrivals, d) == []
  }

  /** Every chunk that completes a message arrives while no other client is in the middle of one. */
  ghost predicate NeverInterrupting(arrivals: seq<Arrival>) {
    forall i :: 0 <= i < |arrivals| && NEWLINE in arrivals[i].chunk ==> Alone(arrivals[..i], arrivals[i].client)
  }

  ghost predicate SameMessages(arrivals: seq<Arrival>) {
    Frame(Chunks(arrivals)).messages == SeparateMessages(arrivals)
  }

  /** What a device can hold of them is the same. */
  ghost predicate SameRecords(arrivals: seq<Arrival>) {
    LastTen(Frame(Chunks(arrivals)).messages) == LastTen(SeparateMessages(arrivals))
  }

  lemma ArrivalSnoc(arrivals: seq<Arrival>, a: Arrival, c: nat)
    ensures Frame(Chunks(arrivals + [a])) == AddChunk(Frame(Chunks(arrivals)), a.chunk)
    ensures ChunksOf(arrivals + [a], c) == ChunksOf(arrivals, c) + if a.client == c then [a.chunk] else []
    ensures PendingOf(arrivals + [a], c)
            == if a.client != c then PendingOf(arrivals, c)
               else if NEWLINE in a.chunk then [] else PendingOf(arrivals, c) + a.chunk
    ensures SeparateMessages(arrivals + [a])
            == SeparateMessages(arrivals) + if NEWLINE in a.chunk then [PendingOf(arrivals, a.client) + a.chunk] else []
  {
    assert (arrivals + [a])[..|arrivals|] == arrivals;
    assert Chunks(arrivals + [a]) == Chunks(arrivals) + [a.chunk];
    FrameSnoc(Chunks(arrivals), a.chunk);
    FrameSnoc(ChunksOf(arrivals, c), a.chunk);
    assert a.client != c ==> ChunksOf(arrivals + [a], c) == ChunksOf(arrivals, c);
  }

  /** The device's pending bytes are one client's exactly if no other client has any; if
      another has some, the device has more bytes pending than that client. */
  ghost predicate PendingMatches(arrivals: seq<Arrival>, c: nat) {
    var p := Frame(Chunks(arrivals)).pending;
    && (Alone(arrivals, c) ==> p == PendingOf(arrivals, c))
    && (!Alone(arrivals, c) ==> |p| > |PendingOf(arrivals, c)|)
  }

  /** How being alone and the pending bytes change with one more arrival. */
  lemma PendingMatchesStep(init: seq<Arrival>, a: Arrival, c: nat)
    requires PendingMatches(init, c) && PendingMatches(init, a.client)
    requires NEWLINE in a.chunk ==> Alone(init, a.client)
    ensures PendingMatches(init + [a], c)
  {
    forall d: nat {
      ArrivalSnoc(init, a, d);
    }
  }

  lemma {:induction false} PendingMatchesAlways(arrivals: seq<Arrival>, c: nat)
    requires NeverInterrupting(arrivals)
    ensures PendingMatches(arrivals, c)
  {
    if arrivals == [] {
      assert forall d: nat :: PendingOf([], d) == [];
    } else {
      var init, a := arrivals[..|arrivals| - 1], arrivals[|arrivals| - 1];
      assert arrivals == init + [a];
      NeverInterruptingSnoc(init, a);
      PendingMatchesAlways(init, c);
      PendingMatchesAlways(init, a.client);
      PendingMatchesStep(init, a, c);
    }
  }

  /** One more arrival keeps the messages, and the last ten of them, the same exactly if it
      does not complete a message in the middle of another client's. */
  lemma SameAfterArrival(init: seq<Arrival>, a: Arrival)
    requires NeverInterrupting(init) && SameMessages(init)
    ensures SameMessages(init + [a]) <==> (NEWLINE in a.chunk ==> Alone(init, a.client))
    ensures SameRecords(init + [a]) <==> (NEWLINE in a.chunk ==> Alone(init, a.client))
  {
    ArrivalSnoc(init, a, a.client);
    PendingMatchesAlways(init, a.client);
    if NEWLINE in a.chunk {
      var device, own := Frame(Chunks(init)).pending + a.chunk, PendingOf(init, a.client) + a.chunk;
      LastOfLastTen(Frame(Chunks(init)).messages, device);
      LastOfLastTen(SeparateMessages(init), own);
      assert !Alone(init, a.client) ==> |device| > |own|;
    }
  }

  lemma LastOfLastTen<T>(s: seq<T>, x: T)
    ensures var r := LastTen(s + [x]); r != [] && r[|r| - 1] == x
  {
  }

  lemma NeverInterruptingSnoc(init: seq<Arrival>, a: Arrival)
    ensures NeverInterrupting(init + [a])
            <==> NeverInterrupting(init) && (NEWLINE in a.chunk ==> Alone(init, a.client))
  {
    var arrivals := init + [a];
    forall i | 0 <= i <= |init|
      ensures arrivals[..i] == init[..i]
    {
    }
    assert init[..|init|] == init;
    assert NeverInterrupting(arrivals) && NEWLINE in a.chunk ==> Alone(arrivals[..|init|], arrivals[|init|].client);
  }

  ghost predicate AtEveryPoint(p: seq<Arrival> -> bool, arrivals: seq<Arrival>) {
    forall n :: 0 <= n <= |arrivals| ==> p(arrivals[..n])
  }

  lemma AtEveryPointSnoc(p: seq<Arrival> -> bool, init: seq<Arrival>, a: Arrival)
    ensures AtEveryPoint(p, init + [a]) <==> AtEveryPoint(p, init) && p(init + [a])
  {
    var arrivals := init + [a];
    forall n | 0 <= n <= |init|
      ensures arrivals[..n] == init[..n]
    {
    }
    assert arrivals[..|arrivals|] == arrivals;
  }

  lemma AtLastPoint(p: seq<Arrival> -> bool, arrivals: seq<Arrival>)
    requires AtEveryPoint(p, arrivals)
    ensures p(arrivals)
  {
    assert arrivals[..|arrivals|] == arrivals;
  }

  /** The condition is exact for the messages and for the ten of them that can be held. */
  ghost predicate ConditionIsExact(arrivals: seq<Arrival>) {
    && (AtEveryPoint(SameMessages, arrivals) <==> NeverInterrupting(arrivals))
    && (AtEveryPoint(SameRecords, arrivals) <==> NeverInterrupting(arrivals))
  }

  lemma ExactStep(init: seq<Arrival>, a: Arrival)
    requires ConditionIsExact(init)
    ensures ConditionIsExact(init + [a])
  {
    AtEveryPointSnoc(SameMessages, init, a);
    AtEveryPointSnoc(SameRecords, init, a);
    NeverInterruptingSnoc(init, a);
    if NeverInterrupting(init) {
      AtLastPoint(SameMessages, init);
      SameAfterArrival(init, a);
    }
  }

  /** What holds at the start and is kept by every arrival holds always. */
  lemma {:induction false} ArrivalInduction(p: seq<Arrival> -> bool, arrivals: seq<Arrival>)
    requires p([]) && forall init, a :: p(init) ==> p(init + [a])
    ensures p(arrivals)
  {
    if arrivals != [] {
      var init, a := arrivals[..|arrivals| - 1], arrivals[|arrivals| - 1];
      ArrivalInduction(p, init);
      assert arrivals == init + [a];
    }
  }

  /** In device mode the messages, and the ten of them that can be held, are at every point
      those that workers of their own would have made, if and only if no chunk ever completes
      a message while another client is in the middle of one. */
  lemma SharedDeviceFrames(arrivals: seq<Arrival>)
    ensures AtEveryPoint(SameMessages, arrivals) <==> NeverInterrupting(arrivals)
    ensures AtEveryPoint(SameRecords, arrivals) <==> NeverInterrupting(arrivals)
  {
    assert Chunks([]) == [];
    forall init, a | ConditionIsExact(init)
      ensures ConditionIsExact(init + [a])
    {
      ExactStep(init, a);
    }
    ArrivalInduction(ConditionIsExact, arrivals);
    assert ConditionIsExact(arrivals);
  }

  /** So a device that was written to without such interruptions holds the last ten of the
      messages of separate workers; and what it has pending is a client's own exactly if no
      other client has anything pending. */
  lemma SharedDeviceHolds(dev: Device, arrivals: seq<Arrival>, c: nat)
    requires dev.Valid() && dev.written == Chunks(arrivals) && NeverInterrupting(arrivals)
    ensures dev.Records() == LastTen(SeparateMessages(arrivals))
    ensures Alone(arrivals, c) <==> dev.Pending() == PendingOf(arrivals, c)
  {
    SharedDeviceFrames(arrivals);
    AtLastPoint(SameRecords, arrivals);
    assert SameRecords(arrivals);
    PendingMatchesAlways(arrivals, c);
    assert PendingMatches(arrivals, c);
  }

  /** Two clients for which it fails: a partial message of the first ends up in front of the
      message of the second. */
  lemma MergedMessage()
    ensures var arrivals := [Arrival(0, [1]), Arrival(1, [2, 10])];
            && Frame(Chunks(arrivals)).messages == [[1, 2, 10]]
            && SeparateMessages(arrivals) == [[2, 10]]
  {
    var first, second := Arrival(0, [1]), Arrival(1, [2, 10]);
    ArrivalSnoc([], first, 1);
    ArrivalSnoc([first], second, 1);
    assert [] + [first] == [first] && [first] + [second] == [first, second];
    assert NEWLINE !in first.chunk && second.chunk[1] == NEWLINE;
    assert Frame(Chunks([])) == Framed([], []) && PendingOf([], 1) == [];
    assert Frame(Chunks([first])) == Framed([], [1]) && PendingOf([first], 1) == [];
    assert SeparateMessages([]) == [] && SeparateMessages([first]) == [];
    assert [1] + second.chunk == [1, 2, 10] && [] + second.chunk == [2, 10];
  }
}
