/** Byte strings and lists of byte strings: concatenation, lengths, positions. */
module Bytes {

  newtype byte = x: int | 0 <= x < 256

  const NEWLINE: byte := 10

  type Record = seq<byte>

  function Concat<T>(parts: seq<seq<T>>): seq<T> {
    if parts == [] then [] else parts[0] + Concat(parts[1..])
  }

  function Sum(ns: seq<nat>): nat {
    if ns == [] then 0 else ns[0] + Sum(ns[1..])
  }

  function Lengths(records: seq<Record>): (r: seq<nat>)
    ensures |r| == |records|
  {
    seq(|records|, i requires 0 <= i < |records| => |records[i]|)
  }

  ghost predicate IsSuffix<T>(s: seq<T>, t: seq<T>) {
    |s| <= |t| && s == t[|t| - |s|..]
  }

  lemma {:induction false} ConcatAppend<T>(a: seq<seq<T>>, b: seq<seq<T>>)
    ensures Concat(a + b) == Concat(a) + Concat(b)
  {
    if a == [] {
      assert a + b == b;
    } else {
      ConcatAppend(a[1..], b);
      assert (a + b)[0] == a[0] && (a + b)[1..] == a[1..] + b;
    }
  }

  lemma ConcatSnoc<T>(a: seq<seq<T>>, x: seq<T>)
    ensures Concat(a + [x]) == Concat(a) + x
  {
    ConcatAppend(a, [x]);
    assert Concat([x]) == x + Concat<T>([]) == x;
  }

  /** Extending a prefix by one more part. */
  lemma {:induction false} ConcatPrefix<T>(parts: seq<seq<T>>, k: nat)
    requires k < |parts|
    ensures Concat(parts[..k + 1]) == Concat(parts[..k]) + parts[k]
    ensures Concat(parts[..k + 1]) <= Concat(parts)
  {
    assert parts[..k + 1][1..] == parts[1..][..k];
    if k == 0 {
      assert parts[..0] == [] && parts[..1][1..] == [];
    } else {
      assert parts[..k][1..] == parts[1..][..k - 1];
      ConcatPrefix(parts[1..], k - 1);
    }
  }

  lemma ConcatMonotone<T>(a: seq<seq<T>>, b: seq<seq<T>>)
    requires a <= b
    ensures Concat(a) <= Concat(b)
  {
    ConcatAppend(a, b[|a|..]);
    assert b == a + b[|a|..];
  }

  lemma {:induction false} SumAppend(a: seq<nat>, b: seq<nat>)
    ensures Sum(a + b) == Sum(a) + Sum(b)
  {
    if a == [] {
      assert a + b == b;
    } else {
      SumAppend(a[1..], b);
      assert (a + b)[0] == a[0] && (a + b)[1..] == a[1..] + b;
    }
  }

  lemma SumSnoc(a: seq<nat>, x: nat)
    ensures Sum(a + [x]) == Sum(a) + x
  {
    SumAppend(a, [x]);
    assert Sum([x]) == x + Sum([]) == x;
  }

  /** Extending a prefix by one more summand. */
  lemma SumPrefix(ns: seq<nat>, k: nat)
    requires k < |ns|
    ensures Sum(ns[..k + 1]) == Sum(ns[..k]) + ns[k]
  {
    SumSnoc(ns[..k], ns[k]);
    assert ns[..k] + [ns[k]] == ns[..k + 1];
  }

  lemma {:induction false} SumZeros(ns: seq<nat>)
    requires forall i :: 0 <= i < |ns| ==> ns[i] == 0
    ensures Sum(ns) == 0
  {
    if ns != [] {
      SumZeros(ns[1..]);
    }
  }

  lemma SumPrefixMonotone(ns: seq<nat>, i: nat, j: nat)
    requires i <= j <= |ns|
    ensures Sum(ns[..i]) <= Sum(ns[..j]) <= Sum(ns)
  {
    assert ns[..j] == ns[..i] + ns[i..j];
    assert ns == ns[..j] + ns[j..];
    SumAppend(ns[..i], ns[i..j]);
    SumAppend(ns[..j], ns[j..]);
  }

  lemma {:induction false} ConcatLength(records: seq<Record>)
    ensures |Concat(records)| == Sum(Lengths(records))
  {
    if records != [] {
      ConcatLength(records[1..]);
      assert Lengths(records)[1..] == Lengths(records[1..]);
    }
  }

  /** The answer of a position search: which record, and where inside it. */
  datatype Position = Nowhere | At(index: nat, offset: nat)

  /** Where byte `p` of the concatenation lies, by scanning the sizes from the front. */
  function Locate(sizes: seq<nat>, p: nat): Position {
    if sizes == [] then Nowhere
    else if p < sizes[0] then At(0, p)
    else match Locate(sizes[1..], p - sizes[0])
      case Nowhere => Nowhere
      case At(i, o) => At(i + 1, o)
  }

  /** A search succeeds exactly below the total, and then the sizes before the
      found record plus the offset add up to the position asked for. */
  lemma {:induction false} LocateSound(sizes: seq<nat>, p: nat)
    ensures Locate(sizes, p).At? <==> p < Sum(sizes)
    ensures var r := Locate(sizes, p);
            r.At? ==> r.index < |sizes| && r.offset < sizes[r.index] && Sum(sizes[..r.index]) + r.offset == p
  {
    if sizes != [] && p >= sizes[0] {
      LocateSound(sizes[1..], p - sizes[0]);
      var r := Locate(sizes[1..], p - sizes[0]);
      if r.At? {
        assert sizes[..r.index + 1][1..] == sizes[1..][..r.index];
      }
    }
  }

  /** Only one (record, offset) pair names a given position. */
  lemma {:induction false} LocateUnique(sizes: seq<nat>, p: nat, i: nat, o: nat)
    requires i < |sizes| && o < sizes[i] && Sum(sizes[..i]) + o == p
    ensures Locate(sizes, p) == At(i, o)
  {
    if i > 0 {
      assert sizes[..i][1..] == sizes[1..][..i - 1];
      LocateUnique(sizes[1..], p - sizes[0], i - 1, o);
    }
  }

  /** What lies in front of and behind record `i` of a concatenation. */
  lemma {:induction false} ConcatSplit(records: seq<Record>, i: nat)
    requires i < |records|
    ensures Sum(Lengths(records)[..i]) + |records[i]| <= |Concat(records)|
    ensures Concat(records)[Sum(Lengths(records)[..i])..] == records[i] + Concat(records[i + 1..])
  {
    ConcatAppend(records[..i], records[i..]);
    assert records == records[..i] + records[i..];
    ConcatLength(records[..i]);
    assert Lengths(records[..i]) == Lengths(records)[..i];
    assert records[i..][1..] == records[i + 1..];
  }

  lemma ConcatFrom(records: seq<Record>, i: nat)
    requires i < |records|
    ensures Concat(records[i..]) == records[i] + Concat(records[i + 1..])
  {
    assert records[i..][0] == records[i] && records[i..][1..] == records[i + 1..];
  }

  /** The found byte is the byte of the concatenation at the position asked for. */
  lemma LocateByte(records: seq<Record>, p: nat)
    requires p < |Concat(records)|
    ensures var r := Locate(Lengths(records), p);
            r.At? && r.index < |records| && r.offset < |records[r.index]|
            && Concat(records)[p] == records[r.index][r.offset]
  {
    ConcatLength(records);
    LocateSound(Lengths(records), p);
    var r := Locate(Lengths(records), p);
    ConcatSplit(records, r.index);
    assert Concat(records)[p] == Concat(records)[p - r.offset..][r.offset];
  }
}
