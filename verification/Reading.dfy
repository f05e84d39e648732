/** What reading a list of records piece by piece amounts to. */
module Reading {
  import opened Bytes

  function Min(a: nat, b: nat): nat {
    if a < b then a else b
  }

  /** A read of a regular file at an offset. */
  function ReadFile(file: seq<byte>, offset: nat, count: nat): seq<byte> {
    if offset < |file| then file[offset..offset + Min(count, |file| - offset)] else []
  }

  /** It gives as many bytes as were asked for, or all that are left. */
  lemma ReadFileExact(file: seq<byte>, offset: nat, count: nat)
    ensures ReadFile(file, offset, count)
            == if offset >= |file| then [] else if count <= |file| - offset then file[offset..offset + count]
               else file[offset..]
  {
  }

  /** A read of the device, at most `count` bytes at `p`: it stops at the end of the record. */
  function ReadAt(records: seq<Record>, p: nat, count: nat): seq<byte> {
    if records == [] then []
    else if p < |records[0]| then records[0][p..p + Min(count, |records[0]| - p)]
    else ReadAt(records[1..], p - |records[0]|, count)
  }

  lemma {:induction false} ReadAtLocated(records: seq<Record>, p: nat, count: nat, i: nat, o: nat)
    requires Locate(Lengths(records), p) == At(i, o)
    ensures i < |records| && o < |records[i]|
    ensures ReadAt(records, p, count) == records[i][o..o + Min(count, |records[i]| - o)]
  {
    if p >= |records[0]| {
      assert Lengths(records)[1..] == Lengths(records[1..]);
      ReadAtLocated(records[1..], p - |records[0]|, count, i - 1, o);
    }
  }

  /** The record and offset in it that a position names. */
  ghost predicate IsPlace(records: seq<Record>, p: int, i: nat, o: nat) {
    i < |records| && o < |records[i]| && |Concat(records[..i])| + o == p
  }

  /** As many bytes as were asked for, or all that the record at the position has left; and
      nothing exactly if no record is there or nothing was asked for. */
  ghost predicate IsPartAt(records: seq<Record>, p: int, count: nat, data: seq<byte>) {
    && (data == [] <==> p < 0 || p >= |Concat(records)| || count == 0)
    && forall i: nat, o: nat :: IsPlace(records, p, i, o) ==>
         data == if count <= |records[i]| - o then records[i][o..o + count] else records[i][o..]
  }

  lemma ReadAtExact(records: seq<Record>, p: int, count: nat)
    ensures IsPartAt(records, p, count, if p < 0 then [] else ReadAt(records, p, count))
  {
    if p >= 0 {
      ReadAtIsPrefix(records, p, count);
      forall i: nat, o: nat | IsPlace(records, p, i, o)
        ensures ReadAt(records, p, count)
                == if count <= |records[i]| - o then records[i][o..o + count] else records[i][o..]
      {
        ReadAtPlace(records, p, count, i, o);
      }
    }
  }

  lemma ReadAtPlace(records: seq<Record>, p: nat, count: nat, i: nat, o: nat)
    requires IsPlace(records, p, i, o)
    ensures ReadAt(records, p, count)
            == if count <= |records[i]| - o then records[i][o..o + count] else records[i][o..]
  {
    ConcatLength(records[..i]);
    assert Lengths(records[..i]) == Lengths(records)[..i];
    LocateUnique(Lengths(records), p, i, o);
    ReadAtLocated(records, p, count, i, o);
  }

  /** A read past the end gives nothing; below the end it gives the next bytes of the
      concatenation, and at least one of them if any are asked for. */
  lemma {:induction false} ReadAtIsPrefix(records: seq<Record>, p: nat, count: nat)
    ensures p >= |Concat(records)| ==> ReadAt(records, p, count) == []
    ensures p < |Concat(records)| ==> ReadAt(records, p, count) <= Concat(records)[p..]
    ensures |ReadAt(records, p, count)| <= count
    ensures p < |Concat(records)| && count > 0 ==> ReadAt(records, p, count) != []
  {
    if records != [] && p >= |records[0]| {
      ReadAtIsPrefix(records[1..], p - |records[0]|, count);
      assert p < |Concat(records)| ==> Concat(records)[p..] == Concat(records[1..])[p - |records[0]|..];
    }
  }

  /** Reads of at most 100 bytes needed for `n` bytes. */
  function Pieces(n: nat): nat {
    (n + 99) / 100
  }

  function PieceCounts(records: seq<Record>): (r: seq<nat>)
    ensures |r| == |records|
  {
    seq(|records|, i requires 0 <= i < |records| => Pieces(|records[i]|))
  }

  /** Non-empty 100-byte reads still to come from position `p` on. */
  function ReadsFrom(records: seq<Record>, p: nat): nat {
    if records == [] then 0
    else if p < |records[0]| then Pieces(|records[0]| - p) + Sum(PieceCounts(records[1..]))
    else ReadsFrom(records[1..], p - |records[0]|)
  }

  lemma {:induction false} ReadsFromStart(records: seq<Record>)
    ensures ReadsFrom(records, 0) == Sum(PieceCounts(records))
  {
    if records != [] {
      ReadsFromStart(records[1..]);
      assert PieceCounts(records)[1..] == PieceCounts(records[1..]);
    }
  }

  lemma {:induction false} ReadsFromEnd(records: seq<Record>, p: nat)
    requires p >= |Concat(records)|
    ensures ReadsFrom(records, p) == 0
  {
    if records != [] {
      ReadsFromEnd(records[1..], p - |records[0]|);
    }
  }

  /** Each non-empty read brings the end one read closer. */
  lemma {:induction false} ReadsFromStep(records: seq<Record>, p: nat)
    requires p < |Concat(records)|
    ensures ReadsFrom(records, p) == 1 + ReadsFrom(records, p + |ReadAt(records, p, 100)|)
  {
    if p >= |records[0]| {
      ReadsFromStep(records[1..], p - |records[0]|);
    } else if |records[0]| - p <= 100 {
      ReadsFromStart(records[1..]);
    }
  }

  /** One round of a reading loop: it extends what was sent by the read data, or it is
      the last one and everything has been sent. */
  lemma ReadRound(records: seq<Record>, p: nat)
    requires p <= |Concat(records)|
    ensures var data := ReadAt(records, p, 100);
            && p + |data| <= |Concat(records)|
            && Concat(records)[..p + |data|] == Concat(records)[..p] + data
            && (data != [] ==> ReadsFrom(records, p) == 1 + ReadsFrom(records, p + |data|))
            && (data == [] ==> p == |Concat(records)| && ReadsFrom(records, p) == 0)
  {
    ReadAtIsPrefix(records, p, 100);
    if p < |Concat(records)| {
      ReadsFromStep(records, p);
    } else {
      ReadsFromEnd(records, p);
    }
  }

  /** The bytes of a slot from `off` on; none if the offset lies beyond it. */
  function Piece(slot: Record, off: nat): seq<byte> {
    if off < |slot| then slot[off..] else []
  }

  /** The bytes from `off` on of the first slot, then whole slots; a further slot is only
      begun while fewer than `limit` bytes have been sent. */
  function Staged(slots: seq<Record>, off: nat, sent: nat, limit: nat): seq<byte> {
    if slots == [] || sent >= limit then []
    else
      var piece := Piece(slots[0], off);
      piece + Staged(slots[1..], 0, sent + |piece|, limit)
  }

  /** Appending the piece of the next slot leaves the foreseen output as it was. */
  lemma StagedStep(sent: seq<byte>, slots: seq<Record>, k: nat, off: nat, limit: nat)
    requires k < |slots| && |sent| < limit
    ensures var sent' := sent + Piece(slots[k], off);
            sent' + Staged(slots[k + 1..], 0, |sent'|, limit) == sent + Staged(slots[k..], off, |sent|, limit)
  {
    assert slots[k..][0] == slots[k] && slots[k..][1..] == slots[k + 1..];
  }

  /** With a limit that is not below what is left, nothing is cut off. */
  lemma {:induction false} StagedAll(slots: seq<Record>, off: nat, sent: nat, limit: nat)
    requires off <= |Concat(slots)|
    requires slots != [] ==> off <= |slots[0]|
    requires sent + |Concat(slots)| - off <= limit
    ensures Staged(slots, off, sent, limit) == Concat(slots)[off..]
  {
    if slots != [] {
      if sent >= limit {
        assert Concat(slots)[off..] == [];
      } else {
        StagedAll(slots[1..], 0, sent + |slots[0]| - off, limit);
        assert Concat(slots)[off..] == slots[0][off..] + Concat(slots[1..]);
      }
    }
  }

  /** Staging stops between records: what is sent is a run of whole slots, which ends
      where the slots end or where the limit is first reached. */
  lemma {:induction false} StagedWhole(slots: seq<Record>, sent: nat, limit: nat) returns (k: nat)
    ensures k <= |slots| && Staged(slots, 0, sent, limit) == Concat(slots[..k])
    ensures k == |slots| || sent + |Concat(slots[..k])| >= limit
    ensures k > 0 ==> sent + |Concat(slots[..k - 1])| < limit
  {
    if slots == [] || sent >= limit {
      return 0;
    }
    var k' := StagedWhole(slots[1..], sent + |slots[0]|, limit);
    assert slots[..k' + 1][1..] == slots[1..][..k'];
    if k' > 0 {
      assert slots[..k'][1..] == slots[1..][..k' - 1];
    } else {
      assert slots[..0] == [];
    }
    return k' + 1;
  }

  lemma {:induction false} StagedBounded(slots: seq<Record>, off: nat, sent: nat, limit: nat)
    ensures |Staged(slots, off, sent, limit)| <= |Concat(slots)|
  {
    if slots != [] && sent < limit {
      var piece := Piece(slots[0], off);
      StagedBounded(slots[1..], 0, sent + |piece|, limit);
    }
  }

  /** Reading on from `p`, at most `count` bytes at a time, until a read gives nothing. */
  function ReadOut(records: seq<Record>, p: nat, count: nat): seq<byte>
    decreases |Concat(records)| - p
  {
    ReadAtIsPrefix(records, p, count);
    var data := ReadAt(records, p, count);
    if data == [] then [] else data + ReadOut(records, p + |data|, count)
  }

  lemma PrefixAndRest(s: seq<byte>, p: nat, data: seq<byte>)
    requires p <= |s| && data <= s[p..]
    ensures p + |data| <= |s| && s[p..] == data + s[p + |data|..]
  {
  }

  /** Reading on to the end yields the rest of the concatenation, whatever the read size. */
  lemma {:induction false} ReadOutIsRest(records: seq<Record>, p: nat, count: nat)
    requires count > 0 && p <= |Concat(records)|
    ensures ReadOut(records, p, count) == Concat(records)[p..]
    decreases |Concat(records)| - p
  {
    ReadAtIsPrefix(records, p, count);
    var data := ReadAt(records, p, count);
    if data != [] {
      ReadOutIsRest(records, p + |data|, count);
      PrefixAndRest(Concat(records), p, data);
    }
  }
}
