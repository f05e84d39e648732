/** A dump of the device while other clients write to it.  In device mode the sending loop
    takes no lock: between two of its reads any number of chunks may arrive, and every record
    they push out of the ring moves the bytes behind it forward. */
module InterleavedDump {
  import opened Bytes
  import opened Framing
  import opened Reading
  import opened CircularBuffer
  import opened History
  import opened CharDriver
  import opened FileOperations

  /** The records a device holds after these writes. */
  function Held(written: seq<seq<byte>>): seq<Record> {
    LastTen(Frame(written).messages)
  }

  /** The bytes of all messages ever completed, and how many of them the ring has lost. */
  function Stream(written: seq<seq<byte>>): seq<byte> {
    Concat(Frame(written).messages)
  }

  function Gone(written: seq<seq<byte>>): nat {
    |Concat(Evicted(Frame(written).messages))|
  }

  /** A sending pass: what has been written to the device so far, and what the pass has sent.
      The loop reads on at the number of bytes sent. */
  datatype Pass = Pass(written: seq<seq<byte>>, sent: seq<byte>)

  function NextRead(p: Pass): seq<byte> {
    ReadAt(Held(p.written), |p.sent|, 100)
  }

  /** The loop ends at the first read that gives nothing. */
  predicate Done(p: Pass) {
    NextRead(p) == []
  }

  /** One round of the loop: a read that gives something, and any writes of others before
      the next one. */
  predicate Follows(p: Pass, p': Pass) {
    !Done(p) && p.written <= p'.written && p'.sent == p.sent + NextRead(p)
  }

  /** The states of a pass before each of its reads. */
  ghost predicate IsPass(ps: seq<Pass>) {
    && ps != [] && ps[0].sent == []
    && forall i :: 0 <= i < |ps| - 1 ==> Follows(ps[i], ps[i + 1])
  }

  lemma IsPassInit(ps: seq<Pass>, n: nat)
    requires IsPass(ps) && |ps| == n + 1 > 1
    ensures IsPass(ps[..n]) && ps[..n][n - 1] == ps[n - 1] && ps[..n][0] == ps[0]
    ensures Follows(ps[n - 1], ps[n]) && ps == ps[..n] + [ps[n]]
  {
    assert Follows(ps[n - 1], ps[n - 1 + 1]);
  }

  /** Where in the stream the next read starts. */
  function Reached(p: Pass): nat {
    Gone(p.written) + |p.sent|
  }

  /** Writes extend the stream at its end; what is lost stays lost. */
  lemma StreamGrows(written: seq<seq<byte>>, written': seq<seq<byte>>)
    requires written <= written'
    ensures Stream(written) <= Stream(written')
    ensures Gone(written) <= Gone(written')
  {
    FrameMonotone(written, written'[|written|..]);
    assert written' == written + written'[|written|..];
    var before, after := Frame(written).messages, Frame(written').messages;
    ConcatMonotone(before, after);
    ConcatMonotone(Evicted(before), Evicted(after));
  }

  /** What is held is the end of the stream. */
  lemma HeldInStream(written: seq<seq<byte>>)
    ensures |Stream(written)| == Gone(written) + |Concat(Held(written))|
    ensures Concat(Held(written)) == Stream(written)[Gone(written)..]
  {
    LastTenSuffix(Frame(written).messages);
  }

  /** What a read gives is the next part of the stream behind the bytes that are lost. */
  lemma ReadInStream(p: Pass)
    ensures Done(p) <==> Reached(p) >= |Stream(p.written)|
    ensures !Done(p) ==>
              var from, data := Reached(p), NextRead(p);
              from + |data| <= |Stream(p.written)| && data == Stream(p.written)[from..from + |data|]
  {
    HeldInStream(p.written);
    ReadBehind(Held(p.written), Stream(p.written), Gone(p.written), |p.sent|);
  }

  lemma SliceOfTail(s: seq<byte>, from: nat, offset: nat, data: seq<byte>)
    requires from + offset < |s| && data <= s[from..][offset..]
    ensures from + offset + |data| <= |s| && data == s[from + offset..from + offset + |data|]
  {
  }

  /** A read of records that are the end of a stream. */
  lemma ReadBehind(records: seq<Record>, stream: seq<byte>, gone: nat, offset: nat)
    requires gone <= |stream| && Concat(records) == stream[gone..]
    ensures var from, data := gone + offset, ReadAt(records, offset, 100);
            && (data == [] <==> from >= |stream|)
            && (data != [] ==> from + |data| <= |stream| && data == stream[from..from + |data|])
  {
    ReadAtIsPrefix(records, offset, 100);
    if offset < |Concat(records)| {
      SliceOfTail(stream, gone, offset, ReadAt(records, offset, 100));
    }
  }

  /** The next read starts where the last one ended, shifted by the bytes lost in between. */
  lemma RoundContinues(p: Pass, p': Pass)
    requires Follows(p, p')
    ensures var from, to := Reached(p), Reached(p) + |NextRead(p)|;
            && to <= |Stream(p.written)| && Stream(p.written) <= Stream(p'.written)
            && NextRead(p) == Stream(p'.written)[from..to]
            && Gone(p.written) <= Gone(p'.written)
            && Reached(p') == to + (Gone(p'.written) - Gone(p.written))
  {
    ReadInStream(p);
    StreamGrows(p.written, p'.written);
  }

  // No record lost during the pass.

  /** As long as no record is lost, what has been sent is the beginning of what is held. */
  ghost predicate SentIsHeld(first: Pass, p: Pass) {
    && Gone(first.written) <= Gone(p.written)
    && (Gone(p.written) == Gone(first.written) ==>
          Reached(p) <= |Stream(p.written)| && p.sent == Stream(p.written)[Gone(first.written)..Reached(p)])
  }

  lemma SentIsHeldStep(first: Pass, p: Pass, p': Pass)
    requires SentIsHeld(first, p) && Follows(p, p')
    ensures SentIsHeld(first, p')
  {
    RoundContinues(p, p');
    if Gone(p'.written) == Gone(first.written) {
      SliceUpTo(Stream(p.written), Stream(p'.written), Gone(first.written), Reached(p), Reached(p'));
    }
  }

  lemma SliceUpTo(s: seq<byte>, s': seq<byte>, i: nat, j: nat, k: nat)
    requires s <= s' && i <= j <= |s| && j <= k <= |s'|
    ensures s[i..j] + s'[j..k] == s'[i..k]
  {
  }

  lemma {:induction false} SentIsHeldAlways(ps: seq<Pass>)
    requires IsPass(ps)
    ensures SentIsHeld(ps[0], ps[|ps| - 1])
  {
    var n := |ps| - 1;
    if n == 0 {
      HeldInStream(ps[0].written);
    } else {
      SentIsHeldAlways(ps[..n]);
      IsPassInit(ps, n);
      SentIsHeldStep(ps[0], ps[n - 1], ps[n]);
    }
  }

  /** A finished pass during which no record was lost has sent exactly what the device holds
      at its end, including what others completed while it was running. */
  lemma UndisturbedPass(ps: seq<Pass>, first: Pass, last: Pass)
    requires IsPass(ps) && first == ps[0] && last == ps[|ps| - 1]
    requires Done(last) && Gone(last.written) == Gone(first.written)
    ensures last.sent == Concat(Held(last.written))
  {
    SentIsHeldAlways(ps);
    ReadInStream(last);
    HeldInStream(last.written);
  }

  /** A stream that does not grow loses nothing, as no message is empty. */
  lemma StreamStays(written: seq<seq<byte>>, written': seq<seq<byte>>)
    requires written <= written' && |Stream(written')| <= |Stream(written)|
    ensures Gone(written') == Gone(written)
  {
    FrameMonotone(written, written'[|written|..]);
    FrameDelimited(written');
    assert written' == written + written'[|written|..];
    MoreIsLonger(Frame(written).messages, Frame(written').messages);
  }

  lemma MoreIsLonger(a: seq<Record>, b: seq<Record>)
    requires a <= b && forall i :: 0 <= i < |b| ==> NEWLINE in b[i]
    ensures a != b ==> |Concat(a)| < |Concat(b)|
  {
    var more := b[|a|..];
    ConcatAppend(a, more);
    assert b == a + more;
    if more != [] {
      assert NEWLINE in b[|a|] && more[0] == b[|a|];
    }
  }

  /** A finished pass has sent everything from the first byte held at its start to the last
      byte completed at its end if and only if no record was lost while it was running. */
  lemma CompletePass(ps: seq<Pass>, first: Pass, last: Pass)
    requires IsPass(ps) && first == ps[0] && last == ps[|ps| - 1] && Done(last)
    ensures Gone(first.written) <= |Stream(last.written)|
    ensures last.sent == Stream(last.written)[Gone(first.written)..] <==> Gone(last.written) == Gone(first.written)
  {
    SentIsHeldAlways(ps);
    HeldInStream(last.written);
    if Gone(last.written) == Gone(first.written) {
      UndisturbedPass(ps, first, last);
    } else {
      var n := |ps| - 1;
      var p := ps[n - 1];
      IsPassInit(ps, n);
      SentIsHeldAlways(ps[..n]);
      RoundContinues(p, last);
      if |Stream(last.written)| <= |Stream(p.written)| {
        StreamStays(p.written, last.written);
      }
    }
  }

  // Records lost during the pass.

  /** Pieces and the gaps behind them, in turn. */
  function Weave(pieces: seq<seq<byte>>, gaps: seq<seq<byte>>): seq<byte>
    requires |pieces| == |gaps|
  {
    if pieces == [] then []
    else
      var n := |pieces| - 1;
      Weave(pieces[..n], gaps[..n]) + pieces[n] + gaps[n]
  }

  lemma WeaveSnoc(pieces: seq<seq<byte>>, gaps: seq<seq<byte>>, piece: seq<byte>, gap: seq<byte>)
    requires |pieces| == |gaps|
    ensures Weave(pieces + [piece], gaps + [gap]) == Weave(pieces, gaps) + piece + gap
  {
    assert (pieces + [piece])[..|pieces|] == pieces && (gaps + [gap])[..|gaps|] == gaps;
  }

  /** Each step of the list is related to its item. */
  ghost predicate StepByStep<P, G>(rel: (P, P, G) -> bool, ps: seq<P>, items: seq<G>) {
    && |items| + 1 == |ps|
    && forall i :: 0 <= i < |items| ==> rel(ps[i], ps[i + 1], items[i])
  }

  lemma StepByStepSnoc<P, G>(rel: (P, P, G) -> bool, ps: seq<P>, items: seq<G>, p: P, item: G)
    requires StepByStep(rel, ps, items) && rel(ps[|ps| - 1], p, item)
    ensures StepByStep(rel, ps + [p], items + [item])
  {
  }

  /** The gap is as long as what was lost between one read and the next. */
  predicate IsLoss(p: Pass, p': Pass, gap: seq<byte>) {
    |gap| == Gone(p'.written) - Gone(p.written)
  }

  /** The piece is what the read gave. */
  predicate IsRead(p: Pass, p': Pass, piece: seq<byte>) {
    piece == NextRead(p)
  }

  /** Put together again, the pieces and gaps are a part of the stream. */
  ghost predicate IsWoven(from: nat, last: Pass, pieces: seq<seq<byte>>, gaps: seq<seq<byte>>) {
    && |pieces| == |gaps| && last.sent == Concat(pieces)
    && from <= Reached(last) <= |Stream(last.written)|
    && Weave(pieces, gaps) == Stream(last.written)[from..Reached(last)]
  }

  lemma WovenStart(p: Pass)
    requires p.sent == [] && Reached(p) <= |Stream(p.written)|
    ensures IsWoven(Gone(p.written), p, [], [])
  {
  }

  /** If the pieces and gaps so far make up s up to j, one more of each go on from there. */
  lemma WeaveOn(s: seq<byte>, s': seq<byte>, i: nat, j: nat, k: nat, l: nat,
                pieces: seq<seq<byte>>, gaps: seq<seq<byte>>)
    requires s <= s' && i <= j <= |s| && j <= k <= l <= |s'|
    requires |pieces| == |gaps| && Weave(pieces, gaps) == s[i..j]
    ensures Weave(pieces + [s'[j..k]], gaps + [s'[k..l]]) == s'[i..l]
  {
    WeaveSnoc(pieces, gaps, s'[j..k], s'[k..l]);
    SliceOn(s, s', i, j, k, l);
  }

  lemma WovenStep(from: nat, p: Pass, p': Pass, pieces: seq<seq<byte>>, gaps: seq<seq<byte>>)
    returns (gap: seq<byte>)
    requires IsWoven(from, p, pieces, gaps) && Follows(p, p') && Reached(p') <= |Stream(p'.written)|
    ensures IsLoss(p, p', gap)
    ensures IsWoven(from, p', pieces + [NextRead(p)], gaps + [gap])
  {
    RoundContinues(p, p');
    var to := Reached(p) + |NextRead(p)|;
    gap := Stream(p'.written)[to..Reached(p')];
    ConcatSnoc(pieces, NextRead(p));
    WeaveOn(Stream(p.written), Stream(p'.written), from, Reached(p), to, Reached(p'), pieces, gaps);
  }

  /** What a pass sends, read by read, is the stream from the first byte held at its start to the place it
      has reached, less exactly the bytes that its position skips: after each read as many
      as were lost before the next one. */
  lemma {:induction false} PassSkips(ps: seq<Pass>, first: Pass, last: Pass)
    returns (pieces: seq<seq<byte>>, gaps: seq<seq<byte>>)
    requires IsPass(ps) && first == ps[0] && last == ps[|ps| - 1]
    requires Reached(last) <= |Stream(last.written)|
    ensures IsWoven(Gone(first.written), last, pieces, gaps)
    ensures StepByStep(IsRead, ps, pieces) && StepByStep(IsLoss, ps, gaps)
    decreases |ps|
  {
    if |ps| == 1 {
      WovenStart(first);
      return [], [];
    }
    var n := |ps| - 1;
    IsPassInit(ps, n);
    ReadInStream(ps[n - 1]);
    pieces, gaps := PassSkips(ps[..n], first, ps[n - 1]);
    var gap := WovenStep(Gone(first.written), ps[n - 1], last, pieces, gaps);
    StepByStepSnoc(IsLoss, ps[..n], gaps, last, gap);
    StepByStepSnoc(IsRead, ps[..n], pieces, last, NextRead(ps[n - 1]));
    pieces, gaps := pieces + [NextRead(ps[n - 1])], gaps + [gap];
  }

  lemma LastRound(from: nat, p: Pass, last: Pass, pieces: seq<seq<byte>>, gaps: seq<seq<byte>>)
    returns (missed: seq<byte>)
    requires IsWoven(from, p, pieces, gaps) && Follows(p, last) && Done(last)
    ensures last.sent == Concat(pieces) + NextRead(p)
    ensures |missed| <= Gone(last.written) - Gone(p.written)
    ensures from <= |Stream(last.written)|
    ensures Weave(pieces, gaps) + NextRead(p) + missed == Stream(last.written)[from..]
  {
    RoundContinues(p, last);
    ReadInStream(last);
    var to, stream := Reached(p) + |NextRead(p)|, Stream(last.written);
    missed := stream[to..];
    SliceToEnd(Stream(p.written), stream, from, Reached(p), to);
  }

  lemma SliceToEnd(s: seq<byte>, s': seq<byte>, i: nat, j: nat, k: nat)
    requires s <= s' && i <= j <= |s| && j <= k <= |s'|
    ensures s[i..j] + s'[j..k] + s'[k..] == s'[i..]
  {
  }

  /** A finished pass: its pieces, the gaps between them, and what the last loss has put out
      of its reach are together all of the stream from the first byte held at its start. */
  lemma PassEnds(ps: seq<Pass>, first: Pass, p: Pass, last: Pass)
    returns (pieces: seq<seq<byte>>, gaps: seq<seq<byte>>, missed: seq<byte>)
    requires |ps| > 1 && IsPass(ps) && first == ps[0] && p == ps[|ps| - 2] && last == ps[|ps| - 1]
    requires Done(last)
    ensures StepByStep(IsRead, ps[..|ps| - 1], pieces) && StepByStep(IsLoss, ps[..|ps| - 1], gaps)
    ensures last.sent == Concat(pieces) + NextRead(p)
    ensures |missed| <= Gone(last.written) - Gone(p.written)
    ensures Gone(first.written) <= |Stream(last.written)|
            && Weave(pieces, gaps) + NextRead(p) + missed == Stream(last.written)[Gone(first.written)..]
  {
    var n := |ps| - 1;
    IsPassInit(ps, n);
    ReadInStream(p);
    pieces, gaps := PassSkips(ps[..n], first, p);
    missed := LastRound(Gone(first.written), p, last, pieces, gaps);
  }

  lemma SliceOn(s: seq<byte>, s': seq<byte>, i: nat, j: nat, k: nat, l: nat)
    requires s <= s' && i <= j <= |s| && j <= k <= l <= |s'|
    ensures s[i..j] + s'[j..k] + s'[k..l] == s'[i..l]
  {
  }

  /** Ten records, the second as long as the first: with one more, what follows the length
      of the first is the third. */
  lemma SkippedInRing(r: seq<Record>, x: Record)
    requires |r| == CAPACITY && forall i :: 0 <= i < |r| ==> r[i] != []
    requires |r[0]| == |r[1]| <= 100
    ensures ReadAt(r, 0, 100) == r[0]
    ensures ReadAt(LastTen(r + [x]), |r[0]|, 100) == ReadAt(r[2..], 0, 100) != []
  {
    var after := LastTen(r + [x]);
    assert after == r[1..] + [x];
    assert after[1..][0] == r[2] == r[2..][0];
    assert ReadAt(after, |r[0]|, 100) == ReadAt(after[1..], 0, 100);
  }

  /** A pass that misses a whole record: ten records are held, the second as long as the
      first; after the first was sent another message arrives, and the pass goes on with
      the third. */
  lemma SkippedRecord(before: seq<seq<byte>>, x: seq<byte>, second: Pass)
    requires Frame(before).pending == [] && |Held(before)| == CAPACITY && NEWLINE in x
    requires |Held(before)[0]| == |Held(before)[1]| <= 100
    requires second == Pass(before + [x], Held(before)[0])
    ensures Follows(Pass(before, []), second)
    ensures NextRead(second) == ReadAt(Held(before)[2..], 0, 100) != []
  {
    var messages := Frame(before).messages;
    FrameDelimited(before);
    FrameSnoc(before, x);
    LastTenSnoc(messages, [] + x);
    forall i | 0 <= i < CAPACITY
      ensures Held(before)[i] != []
    {
      assert NEWLINE in messages[|messages| - CAPACITY + i];
    }
    assert [] + x == x;
    SkippedInRing(Held(before), x);
  }

  // On the device.

  ghost predicate Ready(dev: Device, written: seq<seq<byte>>)
    reads dev, dev.ring, dev.ring.entry, dev.live
  {
    dev.Valid() && !dev.locked && dev.written == written
  }

  method OtherWrites(dev: Device, chunk: seq<byte>, ghost written: seq<seq<byte>>)
    requires Ready(dev, written)
    modifies dev, dev.ring, dev.ring.entry
    ensures Ready(dev, written + [chunk])
  {
    var r := dev.Write(chunk, false, 0);
  }

  lemma FirstMoved<T>(a: seq<T>, b: seq<T>)
    requires b != []
    ensures (a + [b[0]]) + b[1..] == a + b
  {
  }

  /** Others write to the device. */
  method OthersWrite(dev: Device, writes: seq<seq<byte>>, ghost before: seq<seq<byte>>)
    requires Ready(dev, before)
    modifies dev, dev.ring, dev.ring.entry
    ensures Ready(dev, before + writes)
    decreases |writes|
  {
    if |writes| == 0 {
      assert before + writes == before;
    } else {
      OtherWrites(dev, writes[0], before);
      FirstMoved(before, writes);
      OthersWrite(dev, writes[1..], before + [writes[0]]);
    }
  }

  /** The pass has come to this state on the device, whose writes are the first of `total`. */
  ghost predicate IsAt(file: OpenFile, p: Pass, total: seq<seq<byte>>)
    reads file`fpos, file.dev, file.dev.ring, file.dev.ring.entry, file.dev.live
  {
    && Ready(file.dev, p.written) && -TWO63 <= file.fpos < TWO63
    && p.written <= total && |p.sent| <= |Concat(total)| < TWO63
  }

  lemma StreamIsBounded(written: seq<seq<byte>>, total: seq<seq<byte>>)
    requires written <= total
    ensures |Concat(Held(written))| <= |Stream(written)| <= |Concat(total)|
  {
    FrameConserves(written);
    HeldInStream(written);
    ConcatMonotone(written, total);
  }

  lemma IsReadable(file: OpenFile, p: Pass, total: seq<seq<byte>>)
    requires IsAt(file, p, total)
    ensures file.Reads(Held(p.written))
  {
    StreamIsBounded(p.written, total);
  }

  /** The reading half of a round: seek to where the pass left off, and read. */
  method PassRead(file: OpenFile, offset: nat, ghost p: Pass, ghost total: seq<seq<byte>>) returns (data: seq<byte>)
    requires IsAt(file, p, total) && offset == |p.sent|
    modifies file`fpos
    ensures IsAt(file, p, total)
    ensures data == NextRead(p)
  {
    IsReadable(file, p, total);
    data := file.SeekAndRead(offset, Held(p.written));
  }

  lemma RoomForMore(p: Pass, total: seq<seq<byte>>)
    requires p.written <= total && !Done(p)
    ensures |p.sent + NextRead(p)| <= |Concat(total)|
  {
    StreamIsBounded(p.written, total);
    ReadInStream(p);
  }

  /** The first `n` groups of writes have been made. */
  ghost predicate IsUpTo(before: seq<seq<byte>>, rounds: seq<seq<seq<byte>>>, n: nat, written: seq<seq<byte>>) {
    n <= |rounds| && written == before + Concat(rounds[..n])
  }

  lemma UpToNext(before: seq<seq<byte>>, rounds: seq<seq<seq<byte>>>, n: nat, written: seq<seq<byte>>)
    requires n < |rounds| && IsUpTo(before, rounds, n, written)
    ensures IsUpTo(before, rounds, n + 1, written + rounds[n])
    ensures written + rounds[n] <= before + Concat(rounds)
  {
    ConcatPrefix(rounds, n);
    AppendMonotone(before, Concat(rounds[..n]), rounds[n], Concat(rounds));
  }

  lemma AppendMonotone<T>(a: seq<T>, b: seq<T>, c: seq<T>, d: seq<T>)
    requires b + c <= d
    ensures (a + b) + c == a + (b + c) <= a + d
  {
  }

  /** What others write in round `i`; nothing once all have made their writes. */
  function WritesOf(rounds: seq<seq<seq<byte>>>, i: nat): seq<seq<byte>> {
    if i < |rounds| then rounds[i] else []
  }

  /** Between one read of the pass and the next, the writes of that round have been made. */
  ghost predicate WritesAreMade(ps: seq<Pass>, rounds: seq<seq<seq<byte>>>) {
    forall i :: 0 <= i < |ps| - 1 ==> ps[i + 1].written == ps[i].written + WritesOf(rounds, i)
  }

  lemma WritesAreMadeSnoc(ps: seq<Pass>, rounds: seq<seq<seq<byte>>>, p: Pass, p': Pass)
    requires WritesAreMade(ps, rounds) && ps != [] && ps[|ps| - 1] == p
    requires p'.written == p.written + WritesOf(rounds, |ps| - 1)
    ensures WritesAreMade(ps + [p'], rounds)
  {
  }

  lemma IsPassSnoc(ps: seq<Pass>, p: Pass, p': Pass)
    requires IsPass(ps) && ps[|ps| - 1] == p && Follows(p, p')
    ensures IsPass(ps + [p'])
  {
  }

  /** The other half: after a read that gave something, others make their writes. */
  method OthersTurn(file: OpenFile, rounds: seq<seq<seq<byte>>>, i: nat, ghost p: Pass,
                    ghost before: seq<seq<byte>>, ghost total: seq<seq<byte>>) returns (n: nat, ghost p': Pass)
    requires IsAt(file, p, total) && !Done(p)
    requires IsUpTo(before, rounds, i, p.written) && total == before + Concat(rounds)
    modifies file.dev, file.dev.ring, file.dev.ring.entry
    ensures IsAt(file, p', total) && Follows(p, p')
    ensures n == (if i < |rounds| then i + 1 else i) && p'.written == p.written + WritesOf(rounds, i)
    ensures IsUpTo(before, rounds, n, p'.written)
  {
    RoomForMore(p, total);
    n, p' := i, Pass(p.written, p.sent + NextRead(p));
    if i < |rounds| {
      UpToNext(before, rounds, i, p.written);
      OthersWrite(file.dev, rounds[i], p.written);
      n, p' := i + 1, p'.(written := p.written + rounds[i]);
    }
  }

  /** After these states the pass has sent this much, and others have made `n` of their writes,
      one before each further read. */
  ghost predicate HasCome(file: OpenFile, rounds: seq<seq<seq<byte>>>, before: seq<seq<byte>>,
                          ps: seq<Pass>, sent: seq<byte>, n: nat, limit: nat)
    reads file`fpos, file.dev, file.dev.ring, file.dev.ring.entry, file.dev.live
  {
    && IsPass(ps) && ps[0] == Pass(before, []) && ps[|ps| - 1].sent == sent
    && IsAt(file, ps[|ps| - 1], before + Concat(rounds))
    && |sent| <= limit == |Concat(before + Concat(rounds))|
    && n == (if |ps| - 1 < |rounds| then |ps| - 1 else |rounds|) && WritesAreMade(ps, rounds)
    && IsUpTo(before, rounds, n, ps[|ps| - 1].written)
  }

  lemma HasComeStart(file: OpenFile, rounds: seq<seq<seq<byte>>>, before: seq<seq<byte>>) returns (limit: nat)
    requires IsAt(file, Pass(before, []), before + Concat(rounds))
    ensures HasCome(file, rounds, before, [Pass(before, [])], [], 0, limit)
  {
    limit := |Concat(before + Concat(rounds))|;
    assert before + Concat(rounds[..0]) == before;
  }

  /** A read of the pass and, if it gave something, the writes of others behind it. */
  method NextTurn(file: OpenFile, rounds: seq<seq<seq<byte>>>, sent: seq<byte>, i: nat,
                  ghost before: seq<seq<byte>>, ghost ps: seq<Pass>, ghost limit: nat)
    returns (done: bool, sent': seq<byte>, n: nat, ghost ps': seq<Pass>)
    requires HasCome(file, rounds, before, ps, sent, i, limit)
    modifies file`fpos, file.dev, file.dev.ring, file.dev.ring.entry
    ensures HasCome(file, rounds, before, ps', sent', n, limit)
    ensures done ==> Done(ps'[|ps'| - 1])
    ensures !done ==> |sent'| > |sent|
  {
    ghost var p := ps[|ps| - 1];
    var data := PassRead(file, |sent|, p, before + Concat(rounds));
    done, sent', n, ps' := |data| == 0, sent + data, i, ps;
    if done {
      assert sent' == sent;
    } else {
      ghost var p': Pass;
      n, p' := OthersTurn(file, rounds, i, p, before, before + Concat(rounds));
      IsPassSnoc(ps, p, p');
      WritesAreMadeSnoc(ps, rounds, p, p');
      ps' := ps + [p'];
    }
  }

  /** The reading loop of the server on the device, while others make these writes between
      its reads, one group after each read that gave something: a pass that comes to its end. */
  method DumpAmongWrites(file: OpenFile, rounds: seq<seq<seq<byte>>>, ghost before: seq<seq<byte>>)
    returns (sent: seq<byte>, n: nat, ghost ps: seq<Pass>, ghost limit: nat)
    requires IsAt(file, Pass(before, []), before + Concat(rounds))
    modifies file`fpos, file.dev, file.dev.ring, file.dev.ring.entry
    ensures HasCome(file, rounds, before, ps, sent, n, limit) && Done(ps[|ps| - 1])
  {
    limit := HasComeStart(file, rounds, before);
    ps, n, sent := [Pass(before, [])], 0, [];
    var done := false;
    while !done
      invariant HasCome(file, rounds, before, ps, sent, n, limit)
      invariant done ==> Done(ps[|ps| - 1])
      decreases if done then 0 else 1 + limit - |sent|
    {
      done, sent, n, ps := NextTurn(file, rounds, sent, n, before, ps, limit);
    }
  }
}
