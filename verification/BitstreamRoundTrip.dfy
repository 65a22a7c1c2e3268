/** What the writer puts in, the reader gets out: whole histories of writes, and substreams. */
module BitstreamRoundTrip {
  import opened BitArithmetic
  import opened OutputBitstreams
  import opened InputBitstreams

  datatype Field = Field(value: Word, width: nat)

  predicate Writable(f: Field)
  {
    f.width <= 32 && f.value < Pow2(f.width)
  }

  predicate AllWritable(fs: seq<Field>)
  {
    forall i :: 0 <= i < |fs| ==> Writable(fs[i])
  }

  function FieldBits(fs: seq<Field>): seq<bool>
  {
    if fs == [] then [] else FieldBits(fs[..|fs| - 1]) + Bits(fs[|fs| - 1].value, fs[|fs| - 1].width)
  }

  function Values(fs: seq<Field>): seq<Word>
  {
    seq(|fs|, i requires 0 <= i < |fs| => fs[i].value)
  }

  lemma FieldBitsExtend(fs: seq<Field>, i: nat)
    requires i < |fs|
    ensures FieldBits(fs[..i + 1]) == FieldBits(fs[..i]) + Bits(fs[i].value, fs[i].width)
  {
    assert fs[..i + 1][..i] == fs[..i];
  }

  lemma {:induction false} FieldBitsPrefix(fs: seq<Field>, i: nat)
    requires i <= |fs|
    ensures FieldBits(fs[..i]) <= FieldBits(fs)
    decreases |fs|
  {
    if i == |fs| {
      assert fs[..i] == fs;
    } else {
      FieldBitsPrefix(fs[..|fs| - 1], i);
      assert fs[..|fs| - 1][..i] == fs[..i];
    }
  }

  /** Performs the writes of a history. */
  method WriteAll(output: OutputBitstream, fs: seq<Field>)
    requires output.Valid() && AllWritable(fs)
    modifies output
    ensures output.Valid() && output.Contents() == old(output.Contents()) + FieldBits(fs)
  {
    for i := 0 to |fs|
      invariant output.Valid() && output.Contents() == old(output.Contents()) + FieldBits(fs[..i])
    {
      FieldBitsExtend(fs, i);
      ghost var before := output.Contents();
      assert Writable(fs[i]);
      var ok := output.Write(fs[i].value, fs[i].width);
      ConcatAssoc(old(output.Contents()), FieldBits(fs[..i]), Bits(fs[i].value, fs[i].width));
    }
    assert fs[..|fs|] == fs;
  }

  /** Reads as many bits, in the same order, as a history wrote. */
  method ReadAll(input: InputBitstream, fs: seq<Field>) returns (ok: bool, values: seq<Word>)
    requires input.Valid() && AllWritable(fs) && FieldBits(fs) <= input.Unread()
    modifies input
    ensures input.Valid() && input.fifo == old(input.fifo)
    ensures ok && values == Values(fs)
    ensures input.Unread() == old(input.Unread())[|FieldBits(fs)|..]
  {
    hide Bits, BytesBits, Value, Pow2, Low;
    values := [];
    ghost var unread := input.Unread();
    for i := 0 to |fs|
      invariant input.Valid() && input.fifo == old(input.fifo)
      invariant FieldBits(fs[..i]) <= unread && input.Unread() == unread[|FieldBits(fs[..i])|..]
      invariant values == Values(fs[..i])
    {
      FieldBitsExtend(fs, i);
      FieldBitsPrefix(fs, i + 1);
      ghost var done, next := FieldBits(fs[..i]), Bits(fs[i].value, fs[i].width);
      assert Writable(fs[i]);
      ghost var rest := unread[|done + next|..];
      assert unread == done + next + rest;
      ConcatAssoc(done, next, rest);
      Prefix(done, next + rest);
      Prefix(next, rest);
      FieldValue(fs[i]);
      var more, value := input.Read(fs[i].width);
      values := values + [value];
    }
    assert fs[..|fs|] == fs;
    ok := true;
  }

  lemma FieldValue(f: Field)
    requires Writable(f)
    ensures Value(Bits(f.value, f.width)) == f.value
  {
    ValueBits(f.value, f.width);
    LowSmall(f.value, f.width);
  }

  /** What WriteByteAlignment leaves behind is what ReadByteAlignment expects, up to the last bit. */
  lemma TrailingBits(input: InputBitstream, n: nat)
    requires input.Valid() && input.Unread() == [true] + Zeros(Padding(n + 1))
    ensures input.AtByteAlignment()
    ensures |input.Unread()| == (|input.Unread()| - 1) % 8 + 1
  {
    PaddingSmall(n + 1);
    hide Bits, BytesBits, Padding, Zeros, InputBitstream.Unread;
    assert input.Unread()[1..] == Zeros(Padding(n + 1));
  }

  lemma PaddingSmall(n: nat)
    ensures Padding(n) < 8 && Padding(n) % 8 == Padding(n)
  {}

  lemma Prefix<T>(a: seq<T>, b: seq<T>)
    ensures a <= a + b && (a + b)[..|a|] == a && (a + b)[|a|..] == b
  {}

  /** Writing any history, aligning and reading it back gives the values written, and nothing is left over. */
  method RoundTrip(fs: seq<Field>) returns (ok: bool, values: seq<Word>, left: nat)
    requires AllWritable(fs) && |FieldBits(fs)| + 8 < 8 * FIFO_LIMIT
    ensures ok && values == Values(fs) && left == 0
  {
    hide Bits, BytesBits, Value, Pow2, AllWritable, FieldBits, OutputBitstream.Contents, OutputBitstream.Valid, InputBitstream.Unread;
    ghost var bits := FieldBits(fs);
    ghost var trailing := [true] + Zeros(Padding(|bits| + 1));
    var output := new OutputBitstream();
    WriteAll(output, fs);
    output.WriteByteAlignment();
    var input := new InputBitstream(output.fifo);
    assert input.Unread() == bits + trailing;
    Prefix(bits, trailing);
    ok, values := ReadAll(input, fs);
    TrailingBits(input, |bits|);
    var aligned, count := input.ReadByteAlignment();
    left := input.GetNumBitsLeft();
    ok := ok && aligned;
  }

  /** Writes a history, then a substream holding another one, then a third; returns the bytes and the substream's length. */
  method WriteNested(before: seq<Field>, inner: seq<Field>, after: seq<Field>) returns (bytes: seq<Byte>, numBits: nat)
    requires AllWritable(before) && AllWritable(inner) && AllWritable(after)
    requires |FieldBits(inner)| < 8 * FIFO_LIMIT
    ensures numBits == |FieldBits(inner)|
    ensures var bits := FieldBits(before) + (FieldBits(inner) + FieldBits(after));
            BytesBits(bytes) == bits + Zeros(Padding(|bits|))
  {
    hide Bits, BytesBits, Value, Pow2, AllWritable, FieldBits, OutputBitstream.Contents, OutputBitstream.Valid, InputBitstream.Unread;
    ghost var bits0, bits1, bits2 := FieldBits(before), FieldBits(inner), FieldBits(after);
    var output := new OutputBitstream();
    WriteAll(output, before);
    var substream := new OutputBitstream();
    WriteAll(substream, inner);
    output.AddSubstream(substream);
    WriteAll(output, after);
    ConcatAssoc(bits0, bits1, bits2);
    output.WriteAlignZero();
    substream.ContentsLength();
    bytes, numBits := output.fifo, substream.GetNumberOfWrittenBits();
  }

  /**
   * A substream appended at any alignment is extracted again: after the fields in front of it have been read,
   * as many bits as it holds, taken as a stream of their own, are its bits padded with zeros, and the fields
   * behind it read on undisturbed.
   */
  method SubstreamRoundTrip(before: seq<Field>, inner: seq<Field>, after: seq<Field>)
    returns (ok: bool, values: seq<Word>, extracted: InputBitstream?)
    requires AllWritable(before) && AllWritable(inner) && AllWritable(after)
    requires |FieldBits(before)| + |FieldBits(inner)| + |FieldBits(after)| + 8 < 8 * FIFO_LIMIT
    ensures ok && extracted != null && extracted.Valid()
    ensures extracted.Unread() == FieldBits(inner) + Zeros(Padding(|FieldBits(inner)|))
    ensures values == Values(before) + Values(after)
  {
    hide Bits, BytesBits, Value, Pow2, AllWritable, FieldBits, OutputBitstream.Contents, OutputBitstream.Valid, InputBitstream.Unread;
    ghost var bits0, bits1, bits2 := FieldBits(before), FieldBits(inner), FieldBits(after);
    var bytes, numBits := WriteNested(before, inner, after);
    ghost var pad := Zeros(Padding(|bits0 + (bits1 + bits2)|));
    var input := new InputBitstream(bytes);
    ConcatAssoc(bits0, bits1 + bits2, pad);
    ConcatAssoc(bits1, bits2, pad);
    assert input.Unread() == bits0 + (bits1 + (bits2 + pad));
    Prefix(bits0, bits1 + (bits2 + pad));
    var ok0, values0 := ReadAll(input, before);
    Prefix(bits1, bits2 + pad + Zeros(numBits));
    ConcatAssoc(bits1, bits2 + pad, Zeros(numBits));
    Prefix(bits1, bits2 + pad);
    ok, extracted := input.ExtractSubstream(numBits);
    Prefix(bits2, pad);
    var ok2, values2 := ReadAll(input, after);
    ok := ok && ok0 && ok2;
    values := values0 + values2;
  }
}
