/** How a stream of chunks is cut into messages.  Both the driver and the file-mode
    server accumulate chunks until one of them contains a newline, and then emit
    everything accumulated, including what follows the newline in that chunk. */
module Framing {
  import opened Bytes

  datatype Framed = Framed(messages: seq<Record>, pending: seq<byte>)

  function AddChunk(f: Framed, chunk: seq<byte>): Framed {
    if NEWLINE in chunk then Framed(f.messages + [f.pending + chunk], [])
    else Framed(f.messages, f.pending + chunk)
  }

  function Frame(chunks: seq<seq<byte>>): Framed {
    if chunks == [] then Framed([], [])
    else AddChunk(Frame(chunks[..|chunks| - 1]), chunks[|chunks| - 1])
  }

  lemma FrameSnoc(chunks: seq<seq<byte>>, chunk: seq<byte>)
    ensures Frame(chunks + [chunk]) == AddChunk(Frame(chunks), chunk)
  {
    assert (chunks + [chunk])[..|chunks|] == chunks;
  }

  /** Nothing is lost, duplicated or reordered. */
  lemma {:induction false} FrameConserves(chunks: seq<seq<byte>>)
    ensures Concat(Frame(chunks).messages) + Frame(chunks).pending == Concat(chunks)
  {
    if chunks != [] {
      var init, last := chunks[..|chunks| - 1], chunks[|chunks| - 1];
      FrameConserves(init);
      var f := Frame(init);
      ConcatSnoc(f.messages, f.pending + last);
      ConcatSnoc(init, last);
      assert init + [last] == chunks;
      assert Concat(f.messages) + (f.pending + last) == (Concat(f.messages) + f.pending) + last;
    }
  }

  /** Every message contains a newline; what is pending contains none. */
  lemma {:induction false} FrameDelimited(chunks: seq<seq<byte>>)
    ensures forall i :: 0 <= i < |Frame(chunks).messages| ==> NEWLINE in Frame(chunks).messages[i]
    ensures NEWLINE !in Frame(chunks).pending
  {
    if chunks != [] {
      FrameDelimited(chunks[..|chunks| - 1]);
    }
  }

  /** Messages are only ever added at the end. */
  lemma {:induction false} FrameMonotone(chunks: seq<seq<byte>>, more: seq<seq<byte>>)
    ensures Frame(chunks).messages <= Frame(chunks + more).messages
  {
    if more == [] {
      assert chunks + more == chunks;
    } else {
      var init, last := more[..|more| - 1], more[|more| - 1];
      FrameMonotone(chunks, init);
      FrameSnoc(chunks + init, last);
      assert chunks + more == (chunks + init) + [last];
    }
  }

  /** After a complete message framing starts afresh. */
  lemma {:induction false} FrameResumes(before: seq<seq<byte>>, chunks: seq<seq<byte>>)
    requires Frame(before).pending == []
    ensures Frame(before + chunks)
            == Framed(Frame(before).messages + Frame(chunks).messages, Frame(chunks).pending)
  {
    if chunks == [] {
      assert before + chunks == before;
    } else {
      var init, last := chunks[..|chunks| - 1], chunks[|chunks| - 1];
      FrameResumes(before, init);
      FrameSnoc(before + init, last);
      assert before + chunks == (before + init) + [last];
    }
  }

  /** The declarative reading of framing: the chunks fall into consecutive groups, each
      closed by its only chunk with a newline, and a rest without any newline. */
  ghost predicate IsGrouping(groups: seq<seq<seq<byte>>>, rest: seq<seq<byte>>, chunks: seq<seq<byte>>) {
    && Concat(groups) + rest == chunks
    && (forall g :: g in groups ==> IsGroup(g))
    && (forall c :: c in rest ==> NEWLINE !in c)
  }

  ghost predicate IsGroup(g: seq<seq<byte>>) {
    && g != []
    && NEWLINE in g[|g| - 1]
    && forall c :: c in g[..|g| - 1] ==> NEWLINE !in c
  }

  function Joined(groups: seq<seq<seq<byte>>>): (r: seq<Record>)
    ensures |r| == |groups|
  {
    seq(|groups|, i requires 0 <= i < |groups| => Concat(groups[i]))
  }

  lemma JoinedSnoc(groups: seq<seq<seq<byte>>>, g: seq<seq<byte>>)
    ensures Joined(groups + [g]) == Joined(groups) + [Concat(g)]
  {
  }

  /** One more chunk behind an open group either extends or closes it. */
  lemma GroupSnoc(before: seq<seq<byte>>, messages: seq<Record>, open: seq<seq<byte>>, chunk: seq<byte>)
    requires Frame(before + open) == Framed(messages, Concat(open))
    ensures Frame(before + (open + [chunk]))
            == if NEWLINE in chunk then Framed(messages + [Concat(open + [chunk])], [])
               else Framed(messages, Concat(open + [chunk]))
  {
    FrameSnoc(before + open, chunk);
    ConcatSnoc(open, chunk);
    assert before + (open + [chunk]) == (before + open) + [chunk];
  }

  /** Framing is the only such grouping: any grouping gives the messages and the rest. */
  lemma {:induction false} FrameUnique(groups: seq<seq<seq<byte>>>, rest: seq<seq<byte>>, chunks: seq<seq<byte>>)
    requires IsGrouping(groups, rest, chunks)
    ensures Frame(chunks) == Framed(Joined(groups), Concat(rest))
    decreases |chunks|
  {
    if rest != [] {
      var rest', last := rest[..|rest| - 1], rest[|rest| - 1];
      assert rest == rest' + [last];
      FrameUnique(groups, rest', Concat(groups) + rest');
      GroupSnoc(Concat(groups), Joined(groups), rest', last);
    } else if groups != [] {
      var groups', g := groups[..|groups| - 1], groups[|groups| - 1];
      assert IsGroup(g);
      var open, last := g[..|g| - 1], g[|g| - 1];
      assert groups == groups' + [g] && g == open + [last];
      ConcatSnoc(groups', g);
      JoinedSnoc(groups', g);
      FrameUnique(groups', open, Concat(groups') + open);
      GroupSnoc(Concat(groups'), Joined(groups'), open, last);
      assert Concat(groups) + rest == Concat(groups);
    }
  }

  /** Every list of chunks has such a grouping. */
  lemma {:induction false} FrameExists(chunks: seq<seq<byte>>)
    returns (groups: seq<seq<seq<byte>>>, rest: seq<seq<byte>>)
    ensures IsGrouping(groups, rest, chunks)
  {
    if chunks == [] {
      return [], [];
    }
    var init, last := chunks[..|chunks| - 1], chunks[|chunks| - 1];
    var before, open := FrameExists(init);
    groups, rest := CloseGroup(before, open, init, last);
    assert init + [last] == chunks;
  }

  /** One more chunk closes the open group or joins it. */
  lemma CloseGroup(before: seq<seq<seq<byte>>>, open: seq<seq<byte>>, chunks: seq<seq<byte>>, chunk: seq<byte>)
    returns (groups: seq<seq<seq<byte>>>, rest: seq<seq<byte>>)
    requires IsGrouping(before, open, chunks)
    ensures IsGrouping(groups, rest, chunks + [chunk])
  {
    if NEWLINE in chunk {
      var g := open + [chunk];
      groups, rest := before + [g], [];
      ConcatSnoc(before, g);
      assert g[..|g| - 1] == open;
      assert Concat(groups) + rest == Concat(before) + g == (Concat(before) + open) + [chunk];
    } else {
      groups, rest := before, open + [chunk];
      assert Concat(before) + rest == (Concat(before) + open) + [chunk];
    }
  }
}
