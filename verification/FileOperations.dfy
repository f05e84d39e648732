/** The file operations of the character device that work on a position. */
module FileOperations {
  import opened Bytes
  import opened CircularBuffer
  import opened CharDriver
  import opened Reading
  import opened SeekCommand
  import opened History

  const TWO63: int := 0x8000_0000_0000_0000
  const TWO64: int := 0x1_0000_0000_0000_0000

  /** The value a number in the range of a 64-bit sum has when stored as unsigned. */
  function AsUnsigned(x: int): (r: nat)
    requires -TWO64 <= x < TWO64
    ensures r < TWO64
  {
    if x < 0 then x + TWO64 else x
  }

  /** The value an unsigned 64-bit number has when read as signed. */
  function AsSigned(x: nat): (r: int)
    requires x < TWO64
    ensures -TWO63 <= r < TWO63
  {
    if x < TWO63 then x else x - TWO64
  }

  /** Storing a number as unsigned and reading it as signed moves it into the signed range by a
      multiple of 2^64, and leaves it alone if it lies there. */
  lemma Wraps(x: int)
    requires -TWO64 <= x < TWO64
    ensures AsSigned(AsUnsigned(x)) - x in {-TWO64, 0, TWO64}
    ensures -TWO63 <= x < TWO63 ==> AsSigned(AsUnsigned(x)) == x
  {
  }

  const STAGING_SIZE: nat := 500

  /** Replacing a count above the total by what is left from the position changes nothing,
      and neither does reading the position as an unsigned number, except that a negative
      one then lies past the end. */
  lemma ClampedRead(records: seq<Record>, fpos: int, count: nat, n: nat)
    requires |Concat(records)| < TWO63 && -TWO63 <= fpos < TWO63 && count < TWO64
    requires n == if count > |Concat(records)| then AsUnsigned(|Concat(records)| - fpos) else count
    ensures ReadAt(records, AsUnsigned(fpos), n) == if fpos < 0 then [] else ReadAt(records, fpos, count)
    ensures n == 0 && fpos >= 0 ==> ReadAt(records, fpos, count) == []
    ensures |ReadAt(records, AsUnsigned(fpos), n)| + fpos < TWO63
  {
    ReadAtIsPrefix(records, AsUnsigned(fpos), n);
    if fpos >= 0 {
      ReadAtIsPrefix(records, fpos, count);
      if fpos < |Concat(records)| < count {
        ReadAtSaturates(records, fpos, count, n);
      }
    }
  }

  /** Asking for more than what is left is asking for all that is left. */
  lemma {:induction false} ReadAtSaturates(records: seq<Record>, p: nat, count: nat, n: nat)
    requires p < |Concat(records)|
    requires count >= |Concat(records)| - p && n >= |Concat(records)| - p
    ensures ReadAt(records, p, count) == ReadAt(records, p, n)
  {
    if p >= |records[0]| {
      ReadAtSaturates(records[1..], p - |records[0]|, count, n);
    }
  }

  class OpenFile {
    const dev: Device
    var fpos: int

    constructor (dev: Device)
      ensures this.dev == dev && fpos == 0
    {
      this.dev := dev;
      fpos := 0;
    }

    /** The device is valid and its total length fits a signed 64-bit number. */
    ghost predicate Sound()
      reads dev`readBuf, dev`live, dev`structs, dev`written, dev.ring, dev.ring.entry, dev.live
    {
      dev.Valid() && |Concat(dev.Records())| < TWO63
    }

    /** Moreover, the position is a signed 64-bit number. */
    ghost predicate Valid()
      reads this`fpos, dev`readBuf, dev`live, dev`structs, dev`written, dev.ring, dev.ring.entry, dev.live
    {
      Sound() && -TWO63 <= fpos < TWO63
    }

    method TotalLength() returns (total: nat)
      requires dev.Memory()
      ensures total == |Concat(dev.Records())|
    {
      total := dev.ring.LengthOfAllEntries();
      dev.RecordSizes();
      ConcatLength(dev.Records());
    }

    /** The position a seek asks for, as the unsigned number the code computes. */
    method SeekTarget(off: int, whence: int) returns (newpos: Option<nat>)
      requires Valid() && -TWO63 <= off < TWO63
      ensures newpos.None? <==> whence !in {0, 1, 2}
      ensures whence == 0 ==> newpos == Some(AsUnsigned(off))
      ensures whence == 1 ==> newpos == Some(AsUnsigned(fpos + off))
      ensures whence == 2 ==> newpos == Some(AsUnsigned(|Concat(dev.Records())| + off))
    {
      if whence == 0 {
        return Some(AsUnsigned(off));
      } else if whence == 1 {
        return Some(AsUnsigned(fpos + off));
      } else if whence == 2 {
        var total := TotalLength();
        return Some(AsUnsigned(total + off));
      } else {
        return None;
      }
    }

    /** `aesd_llseek`: the position becomes the offset counted from the start, the position or
        the end, wrapped around into the range of the position if it lies outside.  The
        rejection of negative positions tests an unsigned number and never fires: a negative
        target is stored and returned. */
    method LlSeek(off: int, whence: int) returns (r: Result<int>)
      requires Valid() && -TWO63 <= off < TWO63
      modifies this`fpos
      ensures Valid()
      ensures whence !in {0, 1, 2} ==> r == Err(EINVAL) && fpos == old(fpos)
      ensures whence in {0, 1, 2} ==> r == Ok(fpos)
      ensures whence == 0 ==> fpos == off
      ensures whence == 1 ==> fpos - (old(fpos) + off) in {-TWO64, 0, TWO64}
      ensures whence == 2 ==> fpos - (old(|Concat(dev.Records())|) + off) in {-TWO64, 0, TWO64}
    {
      var newpos := SeekTarget(off, whence);
      if newpos.None? {
        return Err(EINVAL);
      }
      if newpos.value < 0 {
        return Err(EINVAL);
      }
      Wraps(if whence == 0 then off else if whence == 1 then fpos + off else |Concat(dev.Records())| + off);
      fpos := AsSigned(newpos.value);
      return Ok(fpos);
    }

    /** The slot found for a position, by the sizes of the records. */
    method FindPosition(p: nat, ghost at: Position) returns (found: Position)
      requires dev.Memory() && at == Locate(Lengths(dev.Records()), p)
      ensures found.Nowhere? <==> at.Nowhere?
      ensures found.At? ==> found == At(Wrap(dev.ring.outOffs + at.index), at.offset)
    {
      dev.RecordSizes();
      found := dev.ring.FindEntryOffsetForFpos(p);
    }

    /** Find the slot for a position and copy from the payload behind it. */
    method ServeFrom(p: nat, n: nat, ghost records: seq<Record>) returns (data: seq<byte>)
      requires dev.Memory() && records == dev.Records()
      ensures data == ReadAt(records, p, n)
    {
      ghost var at := Locate(Lengths(records), p);
      dev.PositionAt(p, at);
      var found := FindPosition(p, at);
      if found.Nowhere? {
        ReadAtIsPrefix(records, p, n);
        data := [];
      } else {
        ReadAtLocated(records, p, n, at.index, at.offset);
        data := CopyFromEntry(dev.ring.entry[found.index], found.offset, n, records[at.index]);
      }
    }

    /** `aesd_read`: the bytes asked for at the file position, or those up to the end of the
        record they lie in.  A negative position counts as past the end. */
    method Read(count: nat) returns (data: seq<byte>)
      requires Valid() && count < TWO64
      modifies this`fpos
      ensures Valid() && fpos == old(fpos) + |data|
      ensures data == if old(fpos) < 0 then [] else ReadAt(dev.Records(), old(fpos), count)
      ensures IsPartAt(dev.Records(), old(fpos), count, data)
    {
      ReadAtExact(dev.Records(), fpos, count);
      data := CopyToUser(count);
      fpos := fpos + |data|;
    }

    method CopyToUser(count: nat) returns (data: seq<byte>)
      requires Valid() && count < TWO64
      ensures data == if fpos < 0 then [] else ReadAt(dev.Records(), fpos, count)
      ensures fpos + |data| < TWO63
    {
      var total := TotalLength();
      var n := if count > total then AsUnsigned(total - fpos) else count;
      ClampedRead(dev.Records(), fpos, count, n);
      if n == 0 {
        return [];
      }
      data := ServeFrom(AsUnsigned(fpos), n, dev.Records());
    }

    /** Copy what the caller still wants, or what the entry still has, whichever is less. */
    method CopyFromEntry(e: Entry, offset: nat, n: nat, ghost record: Record) returns (data: seq<byte>)
      requires dev.Holds(e, record) && offset < e.size
      ensures data == record[offset..offset + Min(n, |record| - offset)]
    {
      var bytesToCopy := n;
      if e.size - offset < n {
        bytesToCopy := e.size - offset;
      }
      if e.size - offset > n {
        bytesToCopy := n;
      }
      data := e.buffptr[offset..offset + bytesToCopy];
    }

    /** The device holds these records. */
    ghost predicate Serves(records: seq<Record>)
      reads dev`readBuf, dev`live, dev.ring, dev.ring.entry, dev.live
    {
      dev.Memory() && dev.Records() == records && |records| <= CAPACITY
    }

    /** Behind a slot lies its record; behind an unused slot lies nothing. */
    lemma SlotRecord(records: seq<Record>, k: nat)
      requires Serves(records) && k < CAPACITY
      ensures Wrap(dev.ring.outOffs + k) < CAPACITY
      ensures Carries(dev.ring.entry[Wrap(dev.ring.outOffs + k)], TenSlots(records)[k])
    {
      if k < |records| {
        dev.EntryAt(k);
      } else {
        assert dev.ring.entry[..][Wrap(dev.ring.outOffs + k)] == UNUSED;
      }
    }

    ghost predicate Carries(e: Entry, record: Record)
      reads dev`live, e.buffptr
    {
      |record| == e.size && (record == [] || dev.Holds(e, record))
    }

    /** The inner copy loop: append the bytes of one slot from `offset` on to the staging
        buffer.  An offset beyond the slot copies nothing. */
    method CopySlot(mybuffer: array<byte>, position: nat, e: Entry, offset: nat, ghost record: Record)
      returns (newPosition: nat)
      requires Carries(e, record) && mybuffer !in dev.live
      requires position + |Piece(record, offset)| <= mybuffer.Length
      modifies mybuffer
      ensures newPosition == position + |Piece(record, offset)|
      ensures mybuffer[..newPosition] == old(mybuffer[..position]) + Piece(record, offset)
    {
      ghost var before, piece := mybuffer[..position], Piece(record, offset);
      newPosition := position;
      var i := 0;
      var left: int := e.size - offset;
      while left > 0
        invariant i == newPosition - position && i + left == e.size - offset
        invariant if offset < |record| then left >= 0 else i == 0
        invariant newPosition <= mybuffer.Length
        invariant Carries(e, record)
        invariant mybuffer[..newPosition] == before + piece[..i]
      {
        assert e.buffptr[i + offset] == e.buffptr[..e.size][i + offset] == piece[i];
        mybuffer[newPosition] := e.buffptr[i + offset];
        i := i + 1;
        newPosition := newPosition + 1;
        left := left - 1;
      }
    }

    /** With slot number `k` next, what is staged and what is still to come are the output. */
    ghost predicate IsStaged(mybuffer: array<byte>, position: nat, offset: nat,
                             records: seq<Record>, k: nat, limit: nat, output: seq<byte>)
      reads mybuffer, dev`readBuf, dev`live, dev.ring, dev.ring.entry, dev.live
    {
      && Serves(records) && mybuffer !in dev.live
      && k <= CAPACITY && position <= mybuffer.Length && |output| <= mybuffer.Length
      && mybuffer[..position] + Staged(TenSlots(records)[k..], offset, position, limit) == output
    }

    /** One round of the outer copy loop, for slot number `k` counted from the one to read first. */
    method StageSlot(mybuffer: array<byte>, position: nat, at: nat, offset: nat,
                     ghost records: seq<Record>, ghost k: nat, ghost limit: nat, ghost output: seq<byte>)
      returns (newPosition: nat)
      requires IsStaged(mybuffer, position, offset, records, k, limit, output)
      requires k < CAPACITY && at == Wrap(dev.ring.outOffs + k) && position < limit
      modifies mybuffer
      ensures IsStaged(mybuffer, newPosition, 0, records, k + 1, limit, output)
    {
      StagedStep(mybuffer[..position], TenSlots(records), k, offset, limit);
      SlotRecord(records, k);
      newPosition := CopySlot(mybuffer, position, dev.ring.entry[at], offset, TenSlots(records)[k]);
    }

    /** Nothing is still to come once enough is staged or no slot is left. */
    lemma StagingEnds(mybuffer: array<byte>, position: nat, offset: nat,
                      records: seq<Record>, k: nat, limit: nat, output: seq<byte>)
      requires IsStaged(mybuffer, position, offset, records, k, limit, output)
      requires position >= limit || k == CAPACITY
      ensures mybuffer[..position] == output
    {
      assert k == CAPACITY ==> TenSlots(records)[k..] == [];
    }

    /** The outer copy loop, from slot number `first` (counted from the one to read first)
        until enough is sent or the loop comes back to where reading starts. */
    method StageSlots(mybuffer: array<byte>, buffToRead: nat, writeCmdOffset: nat, limit: nat,
                      ghost records: seq<Record>, ghost first: nat, ghost output: seq<byte>) returns (position: nat)
      requires Serves(records) && mybuffer !in dev.live
      requires first < CAPACITY && buffToRead == Wrap(dev.ring.outOffs + first)
      requires output == Staged(TenSlots(records)[first..], writeCmdOffset, 0, limit) && |output| <= mybuffer.Length
      modifies mybuffer
      ensures position <= mybuffer.Length && mybuffer[..position] == output
    {
      ghost var k := first;
      var at := buffToRead;
      var offset := writeCmdOffset;
      position := 0;
      while position < limit
        invariant k < CAPACITY && at == Wrap(dev.ring.outOffs + k)
        invariant IsStaged(mybuffer, position, offset, records, k, limit, output)
        decreases CAPACITY - k
      {
        position := StageSlot(mybuffer, position, at, offset, records, k, limit, output);
        offset := 0;
        at := at + 1;
        if at == CAPACITY {
          at := 0;
        }
        k := k + 1;
        if at == dev.ring.outOffs {
          break;
        }
      }
      StagingEnds(mybuffer, position, offset, records, k, limit, output);
    }

    /** The bytes to send at most: the total less the offset, or nothing. */
    method SeekLimit(writeCmdOffset: nat) returns (limit: nat)
      requires dev.Memory()
      ensures var total := |Concat(dev.Records())|;
              limit == if writeCmdOffset <= total then total - writeCmdOffset else 0
    {
      var total: int := TotalLength();
      total := total - writeCmdOffset;
      if total < 1 {
        total := 0;
      }
      limit := total;
    }

    /** The slot of a command, counted from the one to read first. */
    method SeekSlot(writeCmd: nat) returns (buffToRead: nat)
      requires dev.ring.Valid() && writeCmd <= CAPACITY
      ensures buffToRead == Wrap(dev.ring.outOffs + if writeCmd == CAPACITY then 0 else writeCmd)
    {
      buffToRead := dev.ring.outOffs + writeCmd;
      if buffToRead > 9 {
        buffToRead := buffToRead - 10;
      }
    }

    /** Stage the output of an accepted command. */
    method StageCommand(mybuffer: array<byte>, writeCmd: nat, writeCmdOffset: nat,
                        ghost records: seq<Record>, ghost output: seq<byte>) returns (position: nat)
      requires Serves(records) && writeCmd <= CAPACITY && mybuffer !in dev.live
      requires output == SeekOutput(records, writeCmd, writeCmdOffset) && |output| <= mybuffer.Length
      modifies mybuffer
      ensures position <= mybuffer.Length && mybuffer[..position] == output
    {
      var limit := SeekLimit(writeCmdOffset);
      var buffToRead := SeekSlot(writeCmd);
      ghost var first := if writeCmd == CAPACITY then 0 else writeCmd;
      position := StageSlots(mybuffer, buffToRead, writeCmdOffset, limit, records, first, output);
    }

    /** Every record of the device has a newline, so the condition for being served as asked
        is exact for it. */
    lemma DeviceSeekExact(writeCmd: nat, writeCmdOffset: nat)
      requires dev.Valid() && writeCmd <= CAPACITY
      ensures var records := dev.Records();
              |records| <= CAPACITY
              && (SeekOutput(records, writeCmd, writeCmdOffset) == Asked(records, writeCmd, writeCmdOffset)
                  <==> ServedAsAsked(records, writeCmd, writeCmdOffset))
    {
      DeviceConserves(dev);
      SeekExact(dev.Records(), writeCmd, writeCmdOffset);
    }

    /** The part of `aesd_ioctl` under the lock. */
    method SeekLocked(writeCmd: nat, writeCmdOffset: nat, ghost records: seq<Record>) returns (r: Result<seq<byte>>)
      requires Serves(records)
      requires writeCmd <= CAPACITY ==> |SeekOutput(records, writeCmd, writeCmdOffset)| <= STAGING_SIZE
      ensures r == if writeCmd > CAPACITY then Err(EINVAL) else Ok(SeekOutput(records, writeCmd, writeCmdOffset))
    {
      var mybuffer := new byte[STAGING_SIZE];
      if writeCmd > 10 {
        return Err(EINVAL);
      }
      ghost var output := SeekOutput(records, writeCmd, writeCmdOffset);
      var position := StageCommand(mybuffer, writeCmd, writeCmdOffset, records, output);
      return Ok(mybuffer[..position]);
    }

    /** Take the lock, run the command, and give the lock back unless the command is rejected. */
    method SeekAndUnlock(writeCmd: nat, writeCmdOffset: nat, ghost records: seq<Record>)
      returns (r: Result<seq<byte>>)
      requires Serves(records)
      requires writeCmd <= CAPACITY ==> |SeekOutput(records, writeCmd, writeCmdOffset)| <= STAGING_SIZE
      modifies dev`locked
      ensures r == if writeCmd > CAPACITY then Err(EINVAL) else Ok(SeekOutput(records, writeCmd, writeCmdOffset))
      ensures dev.locked == (writeCmd > CAPACITY)
    {
      dev.locked := true;
      r := SeekLocked(writeCmd, writeCmdOffset, records);
      if r.Err? {
        return;
      }
      dev.locked := false;
    }

    /** `aesd_ioctl` with AESDCHAR_IOCSEEKTO: the bytes handed to the caller's buffer.  The
        staging buffer has a fixed size that the output has to fit.  The rejection of a
        command above 10 keeps the lock. */
    method SeekTo(writeCmd: nat, writeCmdOffset: nat, interrupted: bool) returns (r: Result<seq<byte>>)
      requires Valid()
      requires dev.locked ==> interrupted
      requires writeCmd <= CAPACITY ==> |SeekOutput(dev.Records(), writeCmd, writeCmdOffset)| <= STAGING_SIZE
      modifies dev`locked
      ensures Valid()
      ensures r == if interrupted then Err(ERESTARTSYS)
                   else if writeCmd > CAPACITY then Err(EINVAL)
                   else Ok(SeekOutput(dev.Records(), writeCmd, writeCmdOffset))
      ensures dev.locked == (old(dev.locked) || (!interrupted && writeCmd > CAPACITY))
    {
      if interrupted {
        return Err(ERESTARTSYS);
      }
      r := SeekAndUnlock(writeCmd, writeCmdOffset, dev.Records());
    }

    /** A position to read from is a valid one, and the device holds these records. */
    ghost predicate Reads(records: seq<Record>)
      reads this`fpos, dev`readBuf, dev`live, dev`structs, dev`written, dev.ring, dev.ring.entry, dev.live
    {
      Valid() && dev.Records() == records
    }

    /** One round of the server's reading loop. */
    method SeekAndRead(offset: nat, ghost records: seq<Record>) returns (data: seq<byte>)
      requires Reads(records) && offset < TWO63
      modifies this`fpos
      ensures Reads(records) && data == ReadAt(records, offset, 100)
    {
      var position := LlSeek(offset, 0);
      data := Read(100);
    }

    /** The reading loop of the server: seek to where it left off, read at most 100 bytes,
        and stop at the first read that gives nothing.  `pieces` counts the reads that gave
        something. */
    method ReadLoop(ghost records: seq<Record>) returns (sent: seq<byte>, pieces: nat)
      requires Reads(records)
      modifies this`fpos
      ensures Reads(records)
      ensures sent == Concat(records)
      ensures pieces == Sum(PieceCounts(records))
    {
      var offset := 0;
      sent, pieces := [], 0;
      ReadsFromStart(records);
      while true
        invariant Reads(records)
        invariant offset <= |Concat(records)| && sent == Concat(records)[..offset]
        invariant pieces + ReadsFrom(records, offset) == Sum(PieceCounts(records))
        decreases |Concat(records)| - offset
      {
        var data := SeekAndRead(offset, records);
        ReadRound(records, offset);
        if |data| > 0 {
          sent := sent + data;
          offset := offset + |data|;
          pieces := pieces + 1;
        } else {
          return;
        }
      }
    }

    /** `dump_file_to_socket` on the device: everything the device holds is sent. */
    method Dump() returns (sent: seq<byte>, pieces: nat)
      requires Valid()
      modifies this`fpos
      ensures Valid()
      ensures sent == Concat(dev.Records())
      ensures pieces == Sum(PieceCounts(dev.Records()))
    {
      sent, pieces := ReadLoop(dev.Records());
    }
  }
}
