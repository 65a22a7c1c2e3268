/** The substreams of a slice: their ends, their sizes and where they lie in the payload, as in EncSlice.cpp. */
module Substreams {
  import opened BitArithmetic
  import opened EmulationPrevention
  import opened OutputBitstreams

  predicate EndsInNonZero(s: seq<Byte>)
  {
    s != [] && s[|s| - 1] != 0
  }

  function Joined(parts: seq<seq<Byte>>): seq<Byte>
  {
    if parts == [] then [] else parts[0] + Joined(parts[1..])
  }

  /** The bytes that the sizes of these substreams count: their own and the inserted ones. */
  function TotalSize(parts: seq<seq<Byte>>): nat
  {
    if parts == [] then 0 else |parts[0]| + Insertions(parts[0], 0) + TotalSize(parts[1..])
  }

  /** Behind a byte other than zero the writer starts afresh. */
  lemma {:induction false} EscapeOfTwo(a: seq<Byte>, b: seq<Byte>, zeros: nat)
    requires zeros <= 2 && EndsInNonZero(a)
    ensures Escape(a + b, zeros) == Escape(a, zeros) + Escape(b, 0)
    ensures Insertions(a + b, zeros) == Insertions(a, zeros) + Insertions(b, 0)
    decreases |a|
  {
    assert (a + b)[1..] == a[1..] + b;
    if |a| == 1 {
      assert a[1..] == [];
      assert [] + b == b;
    } else {
      EscapeOfTwo(a[1..], b, if zeros == 2 && a[0] <= 3 then ZerosAfter(0, a[0]) else ZerosAfter(zeros, a[0]));
    }
  }

  /**
   * In the payload of the joined substreams, substream k is its own payload, and it lies where the sizes
   * of the substreams in front of it say.
   */
  lemma {:induction false} SubstreamInPayload(parts: seq<seq<Byte>>, k: nat)
    requires k < |parts| && forall i :: 0 <= i < |parts| ==> EndsInNonZero(parts[i])
    ensures TotalSize(parts[..k]) + |Escape(parts[k], 0)| <= |Escape(Joined(parts), 0)|
    ensures Escape(Joined(parts), 0)[TotalSize(parts[..k])..][..|Escape(parts[k], 0)|] == Escape(parts[k], 0)
    ensures |Escape(parts[k], 0)| == |parts[k]| + Insertions(parts[k], 0)
    decreases k
  {
    hide Escape, Insertions;
    EscapeOfTwo(parts[0], Joined(parts[1..]), 0);
    EscapeLength(parts[0], 0);
    if k > 0 {
      SubstreamInPayload(parts[1..], k - 1);
      assert parts[..k][0] == parts[0] && parts[..k][1..] == parts[1..][..k - 1];
      assert Escape(Joined(parts), 0)[TotalSize(parts[..k])..]
          == Escape(Joined(parts[1..]), 0)[TotalSize(parts[1..][..k - 1])..];
    }
  }

  /** The payload and the insertions of the whole are those of the substreams together. */
  lemma {:induction false} SizesAddUp(parts: seq<seq<Byte>>)
    requires forall i :: 0 <= i < |parts| ==> EndsInNonZero(parts[i])
    ensures TotalSize(parts) == |Joined(parts)| + Insertions(Joined(parts), 0) == |Escape(Joined(parts), 0)|
    decreases |parts|
  {
    if parts != [] {
      SizesAddUp(parts[1..]);
      EscapeOfTwo(parts[0], Joined(parts[1..]), 0);
      EscapeLength(parts[0], 0);
    }
  }

  lemma CounterFits(n: nat, cnt: nat)
    ensures n + cnt < 0x2000_0000 ==> Word32(Word32(8 * n) / 8 + cnt) == n + cnt
  {}

  /** Ends a substream and measures it. Below 2^29 bytes the size is the length of its payload. */
  method FinishSubstream(substream: OutputBitstream) returns (size: Word)
    requires substream.Valid()
    modifies substream
    ensures substream.Valid() && EndsInNonZero(substream.fifo)
    ensures BytesBits(substream.fifo)
         == old(substream.Contents()) + [true] + Zeros(Padding(|old(substream.Contents())| + 1))
    ensures |Escape(substream.fifo, 0)| < 0x2000_0000 ==> size == |Escape(substream.fifo, 0)|
  {
    hide Bits, BytesBits, HeldBits, Low, Escape, Insertions, Word32;
    substream.WriteByteAlignment();
    var cnt := CountStartCodeEmulations(substream.fifo);
    EscapeLength(substream.fifo, 0);
    CounterFits(|substream.fifo|, cnt);
    size := Word32(substream.GetNumberOfWrittenBits() / 8 + cnt);
  }

  function Sum(sizes: seq<Word>): nat
  {
    if sizes == [] then 0 else sizes[0] + Sum(sizes[1..])
  }

  /** The sizes of the substreams, except where the 32-bit counter may have wrapped. */
  predicate Measured(parts: seq<seq<Byte>>, sizes: seq<Word>)
  {
    && |sizes| <= |parts|
    && (forall i :: 0 <= i < |parts| ==> EndsInNonZero(parts[i]))
    && forall i :: 0 <= i < |sizes| && |Escape(parts[i], 0)| < 0x2000_0000 ==> sizes[i] == |Escape(parts[i], 0)|
  }

  /** In a payload below 2^29 bytes the sizes in front of substream k add up to where it starts. */
  lemma SizesLeadToSubstream(parts: seq<seq<Byte>>, sizes: seq<Word>, k: nat)
    requires Measured(parts, sizes) && |Escape(Joined(parts), 0)| < 0x2000_0000
    requires k <= |sizes| && k < |parts|
    ensures var payload, start := Escape(Joined(parts), 0), Sum(sizes[..k]);
            && start + |Escape(parts[k], 0)| <= |payload|
            && payload[start..][..|Escape(parts[k], 0)|] == Escape(parts[k], 0)
            && (k < |sizes| ==> sizes[k] == |Escape(parts[k], 0)|)
            && (k + 1 == |parts| ==> payload[start..] == Escape(parts[k], 0))
  {
    hide Escape;
    forall i | 0 <= i < |sizes|
      ensures sizes[i] == |parts[i]| + Insertions(parts[i], 0)
    {
      SubstreamInPayload(parts, i);
    }
    SumIsTotal(parts[..k], sizes[..k]);
    SubstreamInPayload(parts, k);
    if k + 1 == |parts| {
      SizesAddUp(parts);
      TotalOfLast(parts);
      EscapeLength(parts[k], 0);
    }
  }

  lemma {:induction false} SumIsTotal(parts: seq<seq<Byte>>, sizes: seq<Word>)
    requires |parts| == |sizes|
    requires forall i :: 0 <= i < |sizes| ==> sizes[i] == |parts[i]| + Insertions(parts[i], 0)
    ensures Sum(sizes) == TotalSize(parts)
  {
    if sizes != [] {
      SumIsTotal(parts[1..], sizes[1..]);
    }
  }

  lemma {:induction false} TotalOfLast(parts: seq<seq<Byte>>)
    requires parts != []
    ensures var last := parts[|parts| - 1];
            TotalSize(parts) == TotalSize(parts[..|parts| - 1]) + |last| + Insertions(last, 0)
  {
    if |parts| > 1 {
      TotalOfLast(parts[1..]);
      assert parts[1..][..|parts| - 2] == parts[..|parts| - 1][1..];
    }
  }

  /** Ends all substreams of a slice and gives the sizes of all but the last. */
  method FinishSubstreams(substreams: seq<OutputBitstream>) returns (sizes: seq<Word>, ghost parts: seq<seq<Byte>>)
    requires substreams != []
    requires forall i :: 0 <= i < |substreams| ==> substreams[i].Valid()
    requires forall i, j :: 0 <= i < j < |substreams| ==> substreams[i] != substreams[j]
    modifies substreams
    ensures |parts| == |substreams| == |sizes| + 1 && Measured(parts, sizes)
    ensures forall i :: 0 <= i < |parts| ==>
              && parts[i] == substreams[i].fifo
              && BytesBits(parts[i]) == old(substreams[i].Contents()) + [true]
                                      + Zeros(Padding(|old(substreams[i].Contents())| + 1))
  {
    sizes, parts := [], [];
    for i := 0 to |substreams|
      invariant |parts| == i && |sizes| == (if i < |substreams| then i else i - 1)
      invariant Measured(parts, sizes)
      invariant forall j :: i <= j < |substreams| ==> substreams[j].Valid() && unchanged(substreams[j])
      invariant forall j :: 0 <= j < i ==>
                  && parts[j] == substreams[j].fifo
                  && BytesBits(parts[j]) == old(substreams[j].Contents()) + [true]
                                          + Zeros(Padding(|old(substreams[j].Contents())| + 1))
    {
      var size := FinishSubstream(substreams[i]);
      parts := parts + [substreams[i].fifo];
      if i + 1 < |substreams| {
        sizes := sizes + [size];
      }
    }
  }
}
