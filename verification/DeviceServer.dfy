/** The connection worker of the socket server in device mode: every chunk is written to the
    character device as it comes, and the driver does the framing. */
module DeviceServer {
  import opened Bytes
  import opened Framing
  import opened CircularBuffer
  import opened CharDriver
  import opened FileOperations
  import opened History
  import opened FileServer

  /** The text AESDCHAR_IOCSEEKTO: as bytes. */
  const SEEK_COMMAND: seq<byte> := [65, 69, 83, 68, 67, 72, 65, 82, 95, 73, 79, 67, 83, 69, 69, 75, 84, 79, 58]

  /** A chunk is taken for a seek command by its length and by containing the command text
      before any zero byte. */
  predicate IsSeekCommand(chunk: seq<byte>) {
    23 <= |chunk| <= 27 && exists i :: 0 <= i <= |chunk| - |SEEK_COMMAND| && CommandAt(chunk, i)
  }

  predicate CommandAt(chunk: seq<byte>, i: nat)
    requires i + |SEEK_COMMAND| <= |chunk|
  {
    chunk[i..i + |SEEK_COMMAND|] == SEEK_COMMAND && 0 !in chunk[..i]
  }

  /** The command text with at least a digit, a comma, a digit and a newline behind it is
      taken for a seek command. */
  lemma CommandIsTaken(arguments: seq<byte>)
    requires 4 <= |arguments| <= 8
    ensures IsSeekCommand(SEEK_COMMAND + arguments)
  {
    var chunk := SEEK_COMMAND + arguments;
    assert CommandAt(chunk, 0);
  }

  lemma CommandHasColon(chunk: seq<byte>)
    requires IsSeekCommand(chunk)
    ensures 58 in chunk
  {
    var i :| 0 <= i <= |chunk| - |SEEK_COMMAND| && CommandAt(chunk, i);
    assert chunk[i + 18] == chunk[i..i + |SEEK_COMMAND|][18] == 58;
  }

  /** Every chunk of another length and every chunk without a colon is ordinary. */
  lemma OtherTextIsOrdinary(chunk: seq<byte>)
    requires 0 < |chunk| <= BUFFER_SIZE && (|chunk| < 23 || |chunk| > 27 || 58 !in chunk)
    ensures IsOrdinary(chunk)
  {
    if IsSeekCommand(chunk) {
      CommandHasColon(chunk);
    }
  }

  /** From message number `base` on, each echo is what the device holds right after the
      message it answers. */
  ghost predicate DeviceEchoesMatch(echoes: seq<seq<byte>>, base: nat, messages: seq<Record>) {
    && |messages| == base + |echoes|
    && forall i :: 0 <= i < |echoes| ==> echoes[i] == Concat(LastTen(messages[..base + i + 1]))
  }

  lemma DeviceEchoSnoc(echoes: seq<seq<byte>>, base: nat, messages: seq<Record>, message: Record)
    requires DeviceEchoesMatch(echoes, base, messages)
    ensures DeviceEchoesMatch(echoes + [Concat(LastTen(messages + [message]))], base, messages + [message])
  {
    var longer := messages + [message];
    assert longer[..|messages| + 1] == longer;
    forall i | 0 <= i <= |echoes|
      ensures (echoes + [Concat(LastTen(longer))])[i] == Concat(LastTen(longer[..base + i + 1]))
    {
      assert i < |echoes| ==> longer[..base + i + 1] == messages[..base + i + 1];
    }
  }

  /** After these writes the total length fits a signed 64-bit number. */
  ghost predicate Measurable(written: seq<seq<byte>>) {
    |Concat(LastTen(Frame(written).messages))| < TWO63
  }

  lemma AlwaysMeasurable(written: seq<seq<byte>>, total: seq<seq<byte>>)
    requires written <= total && |Concat(total)| < TWO63
    ensures Measurable(written)
  {
    HeldIsBounded(written);
    ConcatMonotone(written, total);
  }

  /** What one more chunk does to the echoes. */
  lemma Round(before: seq<seq<byte>>, chunk: seq<byte>, echoes: seq<seq<byte>>, base: nat)
    requires DeviceEchoesMatch(echoes, base, Frame(before).messages)
    ensures var messages := Frame(before + [chunk]).messages;
            var echoes' := if NEWLINE in chunk then echoes + [Concat(LastTen(messages))] else echoes;
            DeviceEchoesMatch(echoes', base, messages)
  {
    var f := Frame(before);
    FrameSnoc(before, chunk);
    DeviceEchoSnoc(echoes, base, f.messages, f.pending + chunk);
  }

  /** `dump_file_to_socket` with the device as the file. */
  method DumpDevice(dev: Device) returns (sent: seq<byte>)
    requires dev.Valid() && Measurable(dev.written)
    ensures dev.Valid() && sent == Concat(LastTen(Frame(dev.written).messages))
  {
    var file := new OpenFile(dev);
    var pieces: nat;
    sent, pieces := file.Dump();
  }

  /** Dump the device if the chunk just written has a newline. */
  method EchoIfDelimited(dev: Device, chunk: seq<byte>) returns (delimited: bool, echo: seq<byte>)
    requires dev.Valid() && Measurable(dev.written)
    ensures dev.Valid() && delimited == (NEWLINE in chunk)
    ensures echo == if delimited then Concat(LastTen(Frame(dev.written).messages)) else []
  {
    var delimiterPosition := FindDelimiterPosition(chunk, 0, |chunk|);
    assert chunk[0..|chunk|] == chunk;
    if delimiterPosition != -1 {
      echo := DumpDevice(dev);
      delimited := true;
    } else {
      delimited, echo := false, [];
    }
  }

  /** A chunk as a receive delivers it that is no seek command. */
  predicate IsOrdinary(chunk: seq<byte>) {
    0 < |chunk| <= BUFFER_SIZE && !IsSeekCommand(chunk)
  }

  /** The device is ready for the next chunk after these writes, and this is what was echoed. */
  ghost predicate Serving(dev: Device, written: seq<seq<byte>>, base: nat, echoes: seq<seq<byte>>)
    reads dev, dev.ring, dev.ring.entry, dev.live
  {
    && dev.Valid() && !dev.locked && dev.written == written
    && DeviceEchoesMatch(echoes, base, Frame(written).messages)
  }

  /** A connection has been served up to its chunk number `n`; `total` is what is written to
      the device before it and by it. */
  ghost predicate ServedUpTo(dev: Device, chunks: seq<seq<byte>>, base: nat, total: seq<seq<byte>>,
                             n: nat, echoes: seq<seq<byte>>)
    reads dev, dev.ring, dev.ring.entry, dev.live
  {
    && n <= |chunks| <= |total| && |Concat(total)| < TWO63
    && (forall i :: 0 <= i < |chunks| ==> total[|total| - |chunks| + i] == chunks[i] && IsOrdinary(chunks[i]))
    && Serving(dev, total[..|total| - |chunks| + n], base, echoes)
  }

  /** One round of the worker's loop: write the chunk and echo if it has a newline. */
  method OnChunk(dev: Device, chunks: seq<seq<byte>>, n: nat, echoes: seq<seq<byte>>,
                 ghost base: nat, ghost total: seq<seq<byte>>) returns (echoes': seq<seq<byte>>)
    requires ServedUpTo(dev, chunks, base, total, n, echoes) && n < |chunks|
    modifies dev, dev.ring, dev.ring.entry
    ensures ServedUpTo(dev, chunks, base, total, n + 1, echoes')
  {
    ghost var k := |total| - |chunks| + n;
    assert total[..k + 1] == total[..k] + [chunks[n]];
    AlwaysMeasurable(total[..k + 1], total);
    Round(dev.written, chunks[n], echoes, base);
    var r := dev.Write(chunks[n], false, 0);
    var delimited, echo := EchoIfDelimited(dev, chunks[n]);
    echoes' := if delimited then echoes + [echo] else echoes;
  }

  /** The worker's loop over its chunks. */
  method Serve(dev: Device, chunks: seq<seq<byte>>, ghost base: nat, ghost total: seq<seq<byte>>)
    returns (echoes: seq<seq<byte>>)
    requires ServedUpTo(dev, chunks, base, total, 0, [])
    modifies dev, dev.ring, dev.ring.entry
    ensures ServedUpTo(dev, chunks, base, total, |chunks|, echoes)
  {
    echoes := [];
    var n := 0;
    while n < |chunks|
      invariant n <= |chunks| && ServedUpTo(dev, chunks, base, total, n, echoes)
    {
      echoes := OnChunk(dev, chunks, n, echoes, base, total);
      n := n + 1;
    }
  }

  lemma ServedNone(dev: Device, chunks: seq<seq<byte>>, total: seq<seq<byte>>)
    requires dev.Valid() && !dev.locked && total == dev.written + chunks && |Concat(total)| < TWO63
    requires forall i :: 0 <= i < |chunks| ==> IsOrdinary(chunks[i])
    ensures ServedUpTo(dev, chunks, |Frame(dev.written).messages|, total, 0, [])
  {
    assert total[..|total| - |chunks| + 0] == dev.written;
  }

  /** `connection_worker` in device mode, for chunks none of which is a seek command, on a
      device to which earlier connections may have written. */
  method ConnectionWorker(dev: Device, chunks: seq<seq<byte>>) returns (echoes: seq<seq<byte>>)
    requires dev.Valid() && !dev.locked && |Concat(dev.written + chunks)| < TWO63
    requires forall i :: 0 <= i < |chunks| ==> IsOrdinary(chunks[i])
    modifies dev, dev.ring, dev.ring.entry
    ensures dev.Valid() && !dev.locked && dev.written == old(dev.written) + chunks
    ensures DeviceEchoesMatch(echoes, |Frame(old(dev.written)).messages|, Frame(dev.written).messages)
  {
    ghost var total := dev.written + chunks;
    ServedNone(dev, chunks, total);
    assert total[..|total|] == total;
    echoes := Serve(dev, chunks, |Frame(dev.written).messages|, total);
  }

  /** The two modes agree.  Take a device and a file with the same messages before a
      connection.  After the same further chunks they have the same pending bytes, and the
      device the last ten of the messages in the file, if and only if earlier connections
      left nothing pending on the device; then what it serves is the end of the file. */
  lemma ModesAgree(w: FileWorker, dev: Device, before: seq<seq<byte>>)
    requires w.Valid() && dev.Valid() && dev.written == before + w.received
    requires w.prior == Concat(Frame(before).messages)
    ensures dev.Pending() == w.buffer[..w.totalBytesReceived]
            && w.file == Concat(Evicted(Frame(dev.written).messages)) + Concat(dev.Records())
            <==> Frame(before).pending == []
    ensures w.file + w.buffer[..w.totalBytesReceived] == Concat(dev.written) <==> Frame(before).pending == []
    ensures Frame(before).pending == [] ==> IsSuffix(Concat(dev.Records()), w.file)
  {
    LastTenSuffix(Frame(dev.written).messages);
    StreamsAgree(before, w.received);
  }

  /** The stream of the file mode lacks exactly what was pending. */
  lemma StreamsAgree(before: seq<seq<byte>>, chunks: seq<seq<byte>>)
    ensures var f, d, earlier := Frame(chunks), Frame(before + chunks), Concat(Frame(before).messages);
            && Concat(d.messages) + d.pending == Concat(before + chunks)
            && (earlier + Concat(f.messages) + f.pending == Concat(before + chunks) <==> Frame(before).pending == [])
            && (Frame(before).pending == [] ==>
                  d.pending == f.pending && Concat(d.messages) == earlier + Concat(f.messages))
  {
    var f, b := Frame(chunks), Frame(before);
    FrameConserves(before + chunks);
    FrameConserves(before);
    FrameConserves(chunks);
    ConcatAppend(before, chunks);
    LeftOut(Concat(b.messages), b.pending, Concat(f.messages), f.pending);
    if b.pending == [] {
      FrameResumes(before, chunks);
      ConcatAppend(b.messages, f.messages);
    }
  }

  lemma LeftOut(a: seq<byte>, gap: seq<byte>, b: seq<byte>, c: seq<byte>)
    ensures a + b + c == (a + gap) + (b + c) <==> gap == []
  {
    if gap == [] {
      assert a + b + c == (a + gap) + (b + c);
    } else {
      assert |a + b + c| < |(a + gap) + (b + c)|;
    }
  }

  /** Message by message, the echo in device mode is the end of the echo in file mode, and
      all of it up to the tenth message written to the device. */
  lemma EchoesAgree(fileEchoes: seq<seq<byte>>, deviceEchoes: seq<seq<byte>>, messages: seq<Record>, base: nat)
    requires base <= |messages| && EchoesMatch(fileEchoes, Concat(messages[..base]), messages[base..])
    requires DeviceEchoesMatch(deviceEchoes, base, messages)
    ensures |fileEchoes| == |deviceEchoes|
    ensures forall i :: 0 <= i < |fileEchoes| ==> IsSuffix(deviceEchoes[i], fileEchoes[i])
    ensures forall i :: 0 <= i < |fileEchoes| && base + i < CAPACITY ==> deviceEchoes[i] == fileEchoes[i]
  {
    forall i | 0 <= i < |fileEchoes|
      ensures IsSuffix(deviceEchoes[i], fileEchoes[i])
      ensures base + i < CAPACITY ==> deviceEchoes[i] == fileEchoes[i]
    {
      EchoAgrees(messages[..base], messages[base..][..i + 1], messages[..base + i + 1]);
    }
  }

  lemma EchoAgrees(earlier: seq<Record>, own: seq<Record>, all: seq<Record>)
    requires all == earlier + own
    ensures IsSuffix(Concat(LastTen(all)), Concat(earlier) + Concat(own))
    ensures |all| <= CAPACITY ==> Concat(LastTen(all)) == Concat(earlier) + Concat(own)
  {
    ConcatAppend(earlier, own);
    LastTenSuffix(all);
  }

  /** The echoes of the two modes for the same chunks after the same messages. */
  lemma SameChunks(fileEchoes: seq<seq<byte>>, deviceEchoes: seq<seq<byte>>,
                   before: seq<seq<byte>>, chunks: seq<seq<byte>>)
    requires Frame(before).pending == []
    requires EchoesMatch(fileEchoes, Concat(Frame(before).messages), Frame(chunks).messages)
    requires DeviceEchoesMatch(deviceEchoes, |Frame(before).messages|, Frame(before + chunks).messages)
    ensures |fileEchoes| == |deviceEchoes|
    ensures forall i :: 0 <= i < |fileEchoes| ==> IsSuffix(deviceEchoes[i], fileEchoes[i])
    ensures forall i :: 0 <= i < |fileEchoes| && |Frame(before).messages| + i < CAPACITY ==>
              deviceEchoes[i] == fileEchoes[i]
  {
    FrameResumes(before, chunks);
    var earlier, later := Frame(before).messages, Frame(chunks).messages;
    assert (earlier + later)[..|earlier|] == earlier && (earlier + later)[|earlier|..] == later;
    EchoesAgree(fileEchoes, deviceEchoes, earlier + later, |earlier|);
  }

  /** The same connection served in both modes, with the same messages before it. */
  method BothModes(w: FileWorker, dev: Device, chunks: seq<seq<byte>>)
    returns (fileEchoes: seq<seq<byte>>, deviceEchoes: seq<seq<byte>>)
    requires w.Valid() && w.received == [] && w.CurrentRoom() == START && FitAll(START, chunks)
    requires dev.Valid() && !dev.locked && |Concat(dev.written + chunks)| < TWO63 && w.buffer !in dev.live
    requires forall i :: 0 <= i < |chunks| ==> IsOrdinary(chunks[i])
    requires Frame(dev.written).pending == [] && w.prior == Concat(Frame(dev.written).messages)
    modifies w, w.buffer, dev, dev.ring, dev.ring.entry
    ensures w.Valid() && w.received == chunks && EchoesMatch(fileEchoes, w.prior, Frame(chunks).messages)
    ensures dev.Valid() && !dev.locked && dev.written == old(dev.written) + chunks
    ensures DeviceEchoesMatch(deviceEchoes, |Frame(old(dev.written)).messages|, Frame(dev.written).messages)
    ensures |fileEchoes| == |deviceEchoes|
    ensures forall i :: 0 <= i < |fileEchoes| ==> IsSuffix(deviceEchoes[i], fileEchoes[i])
    ensures forall i :: 0 <= i < |fileEchoes| && |Frame(old(dev.written)).messages| + i < CAPACITY ==>
              deviceEchoes[i] == fileEchoes[i]
  {
    ghost var before := dev.written;
    fileEchoes := FileServer.ConnectionWorker(w, chunks);
    deviceEchoes := ConnectionWorker(dev, chunks);
    SameChunks(fileEchoes, deviceEchoes, before, chunks);
  }
}
