/** The connection worker of the socket server in file mode: messages are framed in user
    space and appended to the output file, and after each the whole file is sent back. */
module FileServer {
  import opened Bytes
  import opened Framing
  import opened Reading

  const BUFFER_SIZE: nat := 2000

  /** The buffer bookkeeping of a worker: real capacity, the size it believes to have, what it
      offers to the next receive, and the bytes in use. */
  datatype Room = Room(capacity: nat, bufferSize: nat, available: int, total: nat)

  const START: Room := Room(BUFFER_SIZE, BUFFER_SIZE, BUFFER_SIZE, 0)

  predicate Fits(room: Room, chunk: seq<byte>) {
    0 < |chunk| <= room.available && room.total + |chunk| <= room.capacity
  }

  function After(room: Room, chunk: seq<byte>): Room {
    var total := room.total + |chunk|;
    if NEWLINE in chunk then Room(BUFFER_SIZE, room.bufferSize, BUFFER_SIZE, 0)
    else if total == room.bufferSize then
      Room(room.bufferSize + BUFFER_SIZE, room.bufferSize + BUFFER_SIZE, room.bufferSize + BUFFER_SIZE - total, total)
    else Room(room.capacity, room.bufferSize, room.bufferSize - |chunk|, total)
  }

  predicate FitAll(room: Room, chunks: seq<seq<byte>>)
    decreases |chunks|
  {
    chunks == [] || (Fits(room, chunks[0]) && FitAll(After(room, chunks[0]), chunks[1..]))
  }

  /** The room offered is computed from the last chunk only, so it is never too small, and
      it is the real room exactly if the buffer was just reset or just enlarged, or if the
      chunk was the first one and the worker's idea of the buffer size is up to date. */
  lemma RoomOffered(room: Room, chunk: seq<byte>)
    requires Fits(room, chunk) && room.capacity <= room.bufferSize && BUFFER_SIZE <= room.bufferSize
    ensures var next := After(room, chunk);
            && next.capacity <= next.bufferSize
            && next.capacity - next.total <= next.available
            && (next.available == next.capacity - next.total
                <==> NEWLINE in chunk || room.total + |chunk| == room.bufferSize
                     || (room.total == 0 && room.bufferSize == room.capacity))
  {
  }

  /** The offered room is indeed too large after two short chunks without a newline. */
  lemma RoomOverstated(a: byte, b: byte)
    requires a != NEWLINE && b != NEWLINE
    ensures Fits(START, [a]) && Fits(After(START, [a]), [b])
    ensures var room := After(After(START, [a]), [b]);
            room.available == BUFFER_SIZE - 1 && room.capacity - room.total == BUFFER_SIZE - 2
  {
    assert NEWLINE !in [a] && NEWLINE !in [b];
  }

  /** And after a message that needed a larger buffer: the worker goes on with the initial
      buffer but keeps the larger size, so filling the buffer does not enlarge it, and the
      room offered next is all of its initial size with nothing behind it. */
  lemma SizeStaysLarge(message: seq<byte>, chunk: seq<byte>)
    requires |message| == |chunk| == BUFFER_SIZE && NEWLINE !in message && NEWLINE !in chunk
    ensures var room := After(After(START, message), [NEWLINE]);
            && room == Room(BUFFER_SIZE, 2 * BUFFER_SIZE, BUFFER_SIZE, 0) && Fits(room, chunk)
            && After(room, chunk).available == BUFFER_SIZE
            && After(room, chunk).capacity == After(room, chunk).total
  {
    assert [NEWLINE][0] == NEWLINE;
  }

  /** No message ever fills a buffer of the initial size. */
  predicate AllShort(pending: nat, chunks: seq<seq<byte>>)
    decreases |chunks|
  {
    chunks == [] ||
    (0 < |chunks[0]| < BUFFER_SIZE - pending
     && AllShort(if NEWLINE in chunks[0] then 0 else pending + |chunks[0]|, chunks[1..]))
  }

  /** Messages shorter than the initial buffer always fit, however they are cut. */
  lemma {:induction false} ShortMessagesFit(room: Room, chunks: seq<seq<byte>>)
    requires AllShort(room.total, chunks)
    requires room.capacity == room.bufferSize == BUFFER_SIZE && room.available >= BUFFER_SIZE - room.total
    ensures FitAll(room, chunks)
    decreases |chunks|
  {
    if chunks != [] {
      ShortMessagesFit(After(room, chunks[0]), chunks[1..]);
    }
  }

  /** Every message and what is left pending are shorter than the initial buffer. */
  ghost predicate IsShort(f: Framed) {
    |f.pending| < BUFFER_SIZE && forall i :: 0 <= i < |f.messages| ==> |f.messages[i]| < BUFFER_SIZE
  }

  lemma {:induction false} ShortFrom(before: seq<seq<byte>>, chunks: seq<seq<byte>>)
    requires IsShort(Frame(before + chunks)) && forall i :: 0 <= i < |chunks| ==> chunks[i] != []
    ensures AllShort(|Frame(before).pending|, chunks)
    decreases |chunks|
  {
    if chunks != [] {
      var f, first := Frame(before), chunks[0];
      FrameSnoc(before, first);
      assert before + [first] + chunks[1..] == before + chunks;
      ShortFrom(before + [first], chunks[1..]);
      if NEWLINE in first {
        FrameMonotone(before + [first], chunks[1..]);
        assert Frame(before + chunks).messages[|f.messages|] == f.pending + first;
      } else if |chunks| == 1 {
        assert before + [first] == before + chunks;
      }
    }
  }

  /** So a connection with short messages is served, however they are cut into chunks. */
  lemma ShortMessagesServed(chunks: seq<seq<byte>>)
    requires IsShort(Frame(chunks)) && forall i :: 0 <= i < |chunks| ==> chunks[i] != []
    ensures FitAll(START, chunks)
  {
    assert [] + chunks == chunks;
    ShortFrom([], chunks);
    ShortMessagesFit(START, chunks);
  }

  /** `find_delimter_position`: the first newline among the `n` bytes at `pos`, or -1. */
  method FindDelimiterPosition(buffer: seq<byte>, pos: nat, n: nat) returns (r: int)
    requires pos + n <= |buffer|
    ensures r == -1 <==> NEWLINE !in buffer[pos..pos + n]
    ensures r != -1 ==> pos <= r < pos + n && buffer[r] == NEWLINE && NEWLINE !in buffer[pos..r]
  {
    var i := pos;
    while i < pos + n
      invariant pos <= i <= pos + n
      invariant NEWLINE !in buffer[pos..i]
    {
      if buffer[i] == NEWLINE {
        assert buffer[i] in buffer[pos..pos + n];
        return i;
      }
      i := i + 1;
    }
    return -1;
  }

  class FileWorker {
    var buffer: array<byte>
    var bufferSize: nat
    var availableBuffer: int
    var totalBytesReceived: nat
    var bufferPosition: nat
    /** The contents of the output file. */
    var file: seq<byte>
    /** What the file held when the connection was accepted. */
    ghost const prior: seq<byte>
    /** The chunks received so far. */
    ghost var received: seq<seq<byte>>

    /** The buffer holds the pending bytes, and the file the messages behind what it held. */
    ghost predicate Shows(f: Framed)
      reads this`buffer, this`bufferSize, this`totalBytesReceived, this`bufferPosition, this`file, buffer
    {
      && bufferPosition == totalBytesReceived <= buffer.Length <= bufferSize && BUFFER_SIZE <= bufferSize
      && buffer[..totalBytesReceived] == f.pending
      && file == prior + Concat(f.messages)
    }

    ghost predicate Valid()
      reads this, buffer
    {
      Shows(Frame(received))
    }

    ghost function CurrentRoom(): Room
      reads this
    {
      Room(buffer.Length, bufferSize, availableBuffer, totalBytesReceived)
    }

    constructor (file: seq<byte>)
      ensures Valid() && received == [] && prior == this.file == file
      ensures CurrentRoom() == START && fresh(buffer)
    {
      buffer := new byte[BUFFER_SIZE];
      bufferSize, availableBuffer := BUFFER_SIZE, BUFFER_SIZE;
      totalBytesReceived, bufferPosition := 0, 0;
      this.file, prior, received := file, file, [];
    }

    method Realloc(n: nat)
      modifies this`buffer
      ensures fresh(buffer) && buffer.Length == n
      ensures forall i :: 0 <= i < n && i < old(buffer.Length) ==> buffer[i] == old(buffer[i])
    {
      var larger := new byte[n];
      forall i | 0 <= i < n && i < buffer.Length {
        larger[i] := buffer[i];
      }
      buffer := larger;
    }

    method Recv(chunk: seq<byte>)
      requires totalBytesReceived + |chunk| <= buffer.Length
      modifies buffer
      ensures buffer[..totalBytesReceived + |chunk|] == old(buffer[..totalBytesReceived]) + chunk
    {
      forall i | 0 <= i < |chunk| {
        buffer[totalBytesReceived + i] := chunk[i];
      }
    }

    /** `dump_buffer_to_file` */
    method DumpBufferToFile(length: nat)
      requires length <= buffer.Length
      modifies this`file
      ensures file == old(file) + buffer[..length]
    {
      file := file + buffer[..length];
    }

    /** `dump_file_to_socket` */
    method DumpFileToSocket() returns (sent: seq<byte>, pieces: nat)
      ensures sent == file && pieces == Pieces(|file|)
    {
      sent, pieces := [], 0;
      var offset := 0;
      while true
        invariant offset <= |file| && sent == file[..offset]
        invariant pieces + Pieces(|file| - offset) == Pieces(|file|)
        decreases |file| - offset
      {
        var data := ReadFile(file, offset, 100);
        if |data| > 0 {
          sent := sent + data;
          offset := offset + |data|;
          pieces := pieces + 1;
        } else {
          break;
        }
      }
    }

    /** No newline yet: keep accumulating, with a larger buffer once this one is full. */
    method KeepAccumulating(n: nat)
      requires bufferPosition + n == totalBytesReceived <= buffer.Length <= bufferSize
      modifies this`buffer, this`bufferSize, this`availableBuffer, this`bufferPosition
      ensures bufferPosition == totalBytesReceived <= buffer.Length <= bufferSize
      ensures buffer == old(buffer) || fresh(buffer)
      ensures buffer[..totalBytesReceived] == old(buffer[..totalBytesReceived])
      ensures CurrentRoom() == if totalBytesReceived == old(bufferSize)
                               then Room(old(bufferSize) + BUFFER_SIZE, old(bufferSize) + BUFFER_SIZE,
                                         old(bufferSize) + BUFFER_SIZE - totalBytesReceived, totalBytesReceived)
                               else Room(old(buffer.Length), old(bufferSize), old(bufferSize) - n, totalBytesReceived)
    {
      bufferPosition := bufferPosition + n;
      availableBuffer := bufferSize - n;
      if bufferPosition == bufferSize {
        Realloc(bufferSize + BUFFER_SIZE);
        bufferSize := bufferSize + BUFFER_SIZE;
        availableBuffer := bufferSize - totalBytesReceived;
      }
    }

    /** Back to an empty buffer of the initial size; `bufferSize` keeps its old value. */
    method Restart()
      requires BUFFER_SIZE <= bufferSize
      modifies this`buffer, this`totalBytesReceived, this`bufferPosition, this`availableBuffer
      ensures CurrentRoom() == Room(BUFFER_SIZE, bufferSize, BUFFER_SIZE, 0)
      ensures bufferPosition == 0 && fresh(buffer)
    {
      Realloc(BUFFER_SIZE);
      totalBytesReceived, bufferPosition := 0, 0;
      availableBuffer := BUFFER_SIZE;
    }

    /** Receive a chunk behind the bytes in use and look for a newline in it. */
    method ReceiveAndSearch(chunk: seq<byte>) returns (delimiterPosition: int)
      requires bufferPosition == totalBytesReceived && totalBytesReceived + |chunk| <= buffer.Length
      modifies this`totalBytesReceived, buffer
      ensures totalBytesReceived == old(totalBytesReceived) + |chunk|
      ensures buffer[..totalBytesReceived] == old(buffer[..totalBytesReceived]) + chunk
      ensures delimiterPosition == -1 <==> NEWLINE !in chunk
    {
      Recv(chunk);
      totalBytesReceived := totalBytesReceived + |chunk|;
      delimiterPosition := FindDelimiterPosition(buffer[..], bufferPosition, |chunk|);
      assert buffer[bufferPosition..bufferPosition + |chunk|]
             == buffer[..totalBytesReceived][bufferPosition..] == chunk;
    }

    /** Append the accumulated message to the file, send the file back, and start over. */
    method Deliver() returns (echo: seq<byte>)
      requires totalBytesReceived <= buffer.Length && BUFFER_SIZE <= bufferSize
      modifies this`file, this`buffer, this`totalBytesReceived, this`bufferPosition, this`availableBuffer
      ensures file == old(file) + old(buffer[..totalBytesReceived])
      ensures echo == file
      ensures CurrentRoom() == Room(BUFFER_SIZE, bufferSize, BUFFER_SIZE, 0)
      ensures bufferPosition == 0 && fresh(buffer)
    {
      DumpBufferToFile(totalBytesReceived);
      var pieces: nat;
      echo, pieces := DumpFileToSocket();
      Restart();
    }

    /** Take in a chunk.  If it contains a newline, the accumulated message is appended to
        the file and the whole file is sent back. */
    method TakeIn(chunk: seq<byte>, ghost f: Framed) returns (delimited: bool, echo: seq<byte>)
      requires Shows(f) && Fits(CurrentRoom(), chunk)
      modifies this`buffer, this`bufferSize, this`availableBuffer, this`totalBytesReceived, this`bufferPosition
      modifies this`file, buffer
      ensures Shows(AddChunk(f, chunk))
      ensures CurrentRoom() == After(old(CurrentRoom()), chunk)
      ensures buffer == old(buffer) || fresh(buffer)
      ensures delimited == (NEWLINE in chunk)
      ensures echo == if delimited then file else []
    {
      ConcatSnoc(f.messages, f.pending + chunk);
      var delimiterPosition := ReceiveAndSearch(chunk);
      if delimiterPosition == -1 {
        KeepAccumulating(|chunk|);
        return false, [];
      } else {
        echo := Deliver();
        return true, echo;
      }
    }

    /** One round of the worker's loop for a received chunk. */
    method OnChunk(chunk: seq<byte>) returns (delimited: bool, echo: seq<byte>)
      requires Valid() && Fits(CurrentRoom(), chunk)
      modifies this, buffer
      ensures Valid() && received == old(received) + [chunk]
      ensures CurrentRoom() == After(old(CurrentRoom()), chunk)
      ensures var filled := NEWLINE !in chunk && old(totalBytesReceived) + |chunk| == old(bufferSize);
              && bufferSize == (if filled then old(bufferSize) + BUFFER_SIZE else old(bufferSize))
              && buffer.Length == (if NEWLINE in chunk then BUFFER_SIZE else if filled then bufferSize
                                   else old(buffer.Length))
              && availableBuffer == (if NEWLINE in chunk then BUFFER_SIZE
                                     else if filled then bufferSize - totalBytesReceived
                                     else bufferSize - |chunk|)
      ensures buffer == old(buffer) || fresh(buffer)
      ensures delimited == (NEWLINE in chunk)
      ensures echo == if delimited then file else []
    {
      FrameSnoc(received, chunk);
      delimited, echo := TakeIn(chunk, Frame(received));
      received := received + [chunk];
    }
  }

  /** Each echo is the file up to and including the message it answers. */
  ghost predicate EchoesMatch(echoes: seq<seq<byte>>, prior: seq<byte>, messages: seq<Record>) {
    && |echoes| == |messages|
    && forall i :: 0 <= i < |echoes| ==> echoes[i] == prior + Concat(messages[..i + 1])
  }

  lemma EchoSnoc(echoes: seq<seq<byte>>, prior: seq<byte>, messages: seq<Record>, message: Record)
    requires EchoesMatch(echoes, prior, messages)
    ensures EchoesMatch(echoes + [prior + Concat(messages + [message])], prior, messages + [message])
  {
    var longer := messages + [message];
    assert longer[..|messages| + 1] == longer;
    forall i | 0 <= i < |longer|
      ensures (echoes + [prior + Concat(longer)])[i] == prior + Concat(longer[..i + 1])
    {
      assert i < |messages| ==> longer[..i + 1] == messages[..i + 1];
    }
  }

  /** `connection_worker` in file mode, serving the chunks of one connection: the messages are
      appended to the file, and the echo for each message is the file up to it. */
  method ConnectionWorker(w: FileWorker, chunks: seq<seq<byte>>) returns (echoes: seq<seq<byte>>)
    requires w.Valid() && w.received == [] && w.CurrentRoom() == START && FitAll(START, chunks)
    modifies w, w.buffer
    ensures w.Valid() && w.received == chunks
    ensures EchoesMatch(echoes, w.prior, Frame(chunks).messages)
  {
    echoes := [];
    var n := 0;
    while n < |chunks|
      invariant n <= |chunks| && w.received == chunks[..n]
      invariant w.Valid()
      invariant w.buffer == old(w.buffer) || fresh(w.buffer)
      invariant FitAll(w.CurrentRoom(), chunks[n..])
      invariant EchoesMatch(echoes, w.prior, Frame(chunks[..n]).messages)
    {
      ghost var f := Frame(chunks[..n]);
      FrameSnoc(chunks[..n], chunks[n]);
      EchoSnoc(echoes, w.prior, f.messages, f.pending + chunks[n]);
      assert chunks[..n + 1] == chunks[..n] + [chunks[n]];
      var delimited, echo := w.OnChunk(chunks[n]);
      if delimited {
        echoes := echoes + [echo];
      }
      assert chunks[n..][1..] == chunks[n + 1..];
      n := n + 1;
    }
    assert chunks[..n] == chunks;
  }
}
