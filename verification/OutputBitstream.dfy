/** The bit writer of BitStream.cpp. */
module OutputBitstreams {
  import opened BitArithmetic

  /** The k bits at the top of a byte. */
  function HeldBits(held: nat, k: nat): (s: seq<bool>)
    requires k <= 8
    ensures |s| == k
  {
    Bits(ShiftRight(held, 8 - k), k)
  }

  lemma HeldBitsOf(held: Byte, k: nat)
    requires k <= 8
    ensures HeldBits(held, k) == Bits(ShiftRight(held, 8 - k), k)
  {}

  /** The byte (uint8_t)(v << (8 - r)) holds the r low bits of v, msb-aligned. */
  lemma NextHeldBits(v: Word, r: nat)
    requires r <= 8
    ensures Word32(ShiftLeft(v, 8 - r)) % 0x100 == ShiftLeft(Low(v, r), 8 - r)
    ensures Low(ShiftLeft(Low(v, r), 8 - r), 8 - r) == 0
  {
    var high, low := ShiftRight(v, r), Low(v, r);
    assert ShiftLeft(v, 8 - r) == 0x100 * high + ShiftLeft(low, 8 - r) by {
      Split(v, r);
      ShiftLeftAdd(ShiftLeft(high, r), low, 8 - r);
      ShiftLeftSum(high, r, 8 - r);
      ShiftLeft8(high);
    }
    Split(v, r);
    AlignedByte(low, r);
    Truncate(high, ShiftLeft(low, 8 - r));
  }

  lemma Truncate(high: nat, low: nat)
    requires low < 0x100
    ensures Word32(0x100 * high + low) % 0x100 == low
  {}

  /** A number of r bits, msb-aligned in a byte. */
  lemma AlignedByte(low: nat, r: nat)
    requires r <= 8 && low < Pow2(r)
    ensures ShiftLeft(low, 8 - r) < 0x100
    ensures Low(ShiftLeft(low, 8 - r), 8 - r) == 0 && ShiftRight(ShiftLeft(low, 8 - r), 8 - r) == low
  {
    hide *;
    ShiftLeftBound(low, r, 0, 8 - r);
    Pow2Small();
    Join(low, 0, 8 - r);
  }

  /** Held bits, msb-aligned in their byte, spell a number of k bits. */
  lemma HeldValue(held: Byte, k: nat)
    requires k <= 8 && Low(held, 8 - k) == 0
    ensures ShiftRight(held, 8 - k) < Pow2(k)
    ensures held == ShiftLeft(ShiftRight(held, 8 - k), 8 - k)
  {
    hide *;
    Pow2Small();
    ShiftRightBound(held, k, 8 - k);
    Split(held, 8 - k);
  }

  /** The new bits fit beside the held ones in one byte. */
  lemma HeldBitsMerge(held: Byte, k: nat, v: Word, n: nat)
    requires k + n < 8 && Low(held, 8 - k) == 0 && v < Pow2(n)
    ensures var merged := Or(held, ShiftLeft(Low(v, k + n), 8 - k - n));
            && merged < 0x100 && Low(merged, 8 - k - n) == 0
            && HeldBits(merged, k + n) == HeldBits(held, k) + Bits(v, n)
  {
    hide Or, ShiftLeft, ShiftRight, Low, Bits, Pow2;
    var h, r := ShiftRight(held, 8 - k), k + n;
    var joined := ShiftLeft(h, n) + v;
    HeldValue(held, k);
    assert Or(held, ShiftLeft(Low(v, r), 8 - r)) == ShiftLeft(joined, 8 - r) by {
      assert Low(v, r) == v by { Pow2Monotone(n, r); LowSmall(v, r); }
      ShiftLeftBound(v, n, 0, 8 - r);
      OrDisjoint(h, ShiftLeft(v, 8 - r), 8 - k);
      ShiftLeftSum(h, n, 8 - r);
      ShiftLeftAdd(ShiftLeft(h, n), v, 8 - r);
    }
    ShiftLeftBound(h, k, v, n);
    AlignedByte(joined, r);
    BitsConcat(h, k, v, n);
  }

  /** Shifting the held byte by topword puts the held bits directly above the m top bits of the new ones. */
  lemma JustifyHeldBits(held: Byte, k: nat, m: nat)
    requires k < 8 && Low(held, 8 - k) == 0 && (m + k) % 8 == 0 && m > 0
    ensures ShiftLeft(held, m - m % 8) == ShiftLeft(ShiftRight(held, 8 - k), m)
  {
    hide *;
    var h := ShiftRight(held, 8 - k);
    HeldValue(held, k);
    if k == 0 {
      Pow2Small();
      ShiftLeftZero(h, 8);
      assert m % 8 == 0;
    } else {
      assert m % 8 == 8 - k;
      ShiftLeftSum(h, 8 - k, m - m % 8);
    }
  }

  /** The held and the new bits, without the r that will be held next, as one word of q whole bytes. */
  lemma WriteBitsValue(held: Byte, k: nat, v: Word, n: nat, q: nat, r: nat)
    requires k < 8 && k + n == 8 * q + r && r < 8 && 1 <= q <= 4 && n <= 32
    requires Low(held, 8 - k) == 0 && v < Pow2(n)
    ensures var t := Or(ShiftLeft(held, n - r - (n - r) % 8), ShiftRight(v, r));
            && t < 0x1_0000_0000
            && Bits(t, 8 * q) + Bits(v, r) == Bits(ShiftRight(held, 8 - k), k) + Bits(v, n)
  {
    hide *;
    var m, h, low := n - r, ShiftRight(held, 8 - k), ShiftRight(v, r);
    var t := ShiftLeft(h, m) + low;
    assert low < Pow2(m) by { ShiftRightBound(v, m, r); }
    assert Or(ShiftLeft(held, m - m % 8), low) == t by {
      JustifyHeldBits(held, k, m);
      OrDisjoint(h, low, m);
    }
    assert t < 0x1_0000_0000 by {
      HeldValue(held, k);
      ShiftLeftBound(h, k, low, m);
      Pow2Monotone(k + m, 32);
      Pow2Small();
    }
    BitsConcat(h, k, low, m);
    BitsSplit(v, m, r);
    ConcatAssoc(Bits(h, k), Bits(low, m), Bits(v, r));
  }

  /** The 1 to 4 bytes that the fall-through switch pushes. */
  lemma PushedBytes(t: Word, n: nat)
    requires 1 <= n <= 4
    ensures WordBytes(t, n) ==
            (if n >= 4 then [t / 0x100_0000 % 0x100] else []) + (if n >= 3 then [t / 0x1_0000 % 0x100] else [])
            + (if n >= 2 then [t / 0x100 % 0x100] else []) + [t % 0x100]
  {
    var t1, t2, t3 := t / 0x100, t / 0x1_0000, t / 0x100_0000;
    assert t1 / 0x100 == t2 && t2 / 0x100 == t3;
    assert WordBytes(t, n) == WordBytes(t1, n - 1) + [t % 0x100];
    if n >= 2 {
      assert WordBytes(t1, n - 1) == WordBytes(t2, n - 2) + [t1 % 0x100];
    }
    if n >= 3 {
      assert WordBytes(t2, n - 2) == WordBytes(t3, n - 3) + [t2 % 0x100];
    }
  }

  /** Bytes pushed behind the FIFO together with the next held bits spell the old contents and the new bits. */
  lemma AppendBits(fifo: seq<Byte>, held: Byte, k: nat, v: Word, n: nat, t: Word, q: nat, r: nat)
    requires k < 8 && r < 8
    requires Bits(t, 8 * q) + Bits(v, r) == Bits(ShiftRight(held, 8 - k), k) + Bits(v, n)
    ensures BytesBits(fifo + WordBytes(t, q)) + HeldBits(ShiftLeft(Low(v, r), 8 - r), r)
         == BytesBits(fifo) + HeldBits(held, k) + Bits(v, n)
  {
    hide Bits, BytesBits, WordBytes, ShiftRight, ShiftLeft, Low;
    WordBytesBits(t, q);
    BytesBitsConcat(fifo, WordBytes(t, q));
    Split(v, r);
    AlignedByte(Low(v, r), r);
    BitsLow(v, r, r);
    ConcatAssoc(BytesBits(fifo), Bits(t, 8 * q), Bits(v, r));
    ConcatAssoc(BytesBits(fifo), Bits(ShiftRight(held, 8 - k), k), Bits(v, n));
  }

  lemma {:induction false} AllOnes(n: nat)
    ensures Bits(Pow2(n) - 1, n) == seq(n, i => true)
  {
    if n > 0 {
      AllOnes(n - 1);
      assert (Pow2(n) - 1) / 2 == Pow2(n - 1) - 1;
    }
  }

  /** A byte with k held bits is those bits, padded with zeros. */
  lemma PadHeldBits(held: Byte, k: nat)
    requires k <= 8 && Low(held, 8 - k) == 0
    ensures Bits(held, 8) == HeldBits(held, k) + Zeros(8 - k)
  {
    BitsSplit(held, k, 8 - k);
    BitsLow(held, 8 - k, 8 - k);
    BitsZero(8 - k);
  }

  /** Whole bytes that end in a one bit and less than eight zeros have that one bit in their last byte. */
  lemma LastByteHoldsOne(bytes: seq<Byte>, before: seq<bool>)
    requires BytesBits(bytes) == before + [true] + Zeros(Padding(|before| + 1))
    ensures bytes != [] && bytes[|bytes| - 1] != 0
  {
    var at := |before|;
    var start := 8 * |bytes| - 8;
    assert BytesBits(bytes)[at];
    var last := bytes[|bytes| - 1];
    assert BytesBits(bytes)[at] == Bits(last, 8)[at - start];
    if last == 0 {
      BitsZero(8);
    }
  }

  class OutputBitstream {
    var fifo: seq<Byte>
    var numHeldBits: nat
    // msb-aligned: the low 8 - numHeldBits bits are zero
    var heldBits: Byte

    ghost predicate Valid()
      reads this
    {
      numHeldBits < 8 && Low(heldBits, 8 - numHeldBits) == 0
    }

    /** All bits written since the last Clear, first bit first. */
    ghost function Contents(): seq<bool>
      reads this
      requires Valid()
    {
      BytesBits(fifo) + HeldBits(heldBits, numHeldBits)
    }

    constructor ()
      ensures Valid() && Contents() == []
    {
      fifo, numHeldBits, heldBits := [], 0, 0;
      new;
      LowSmall(0, 8);
    }

    method Clear()
      modifies this
      ensures Valid() && Contents() == []
    {
      fifo, numHeldBits, heldBits := [], 0, 0;
      LowSmall(0, 8);
    }

    /** A 32-bit counter in the original. */
    function GetNumberOfWrittenBits(): Word
      reads this
    {
      Word32(8 * |fifo| + numHeldBits)
    }

    function GetNumBitsUntilByteAligned(): nat
      reads this
      requires Valid()
    {
      (8 - numHeldBits) % 8
    }

    /** Appends the n low bits of bits. Fails, changing nothing, where the original's checks throw. */
    method Write(bits: Word, n: nat) returns (ok: bool)
      requires Valid()
      modifies this
      ensures Valid()
      ensures ok <==> n <= 32 && bits < Pow2(n)
      ensures Contents() == if ok then old(Contents()) + Bits(bits, n) else old(Contents())
    {
      hide Or, And, ShiftLeft, ShiftRight, Low, Bits, BytesBits, WordBytes, Pow2, HeldBits;
      if n > 32 {
        return false;
      }
      if n != 32 && And(bits, Word32(ShiftLeft(0xffff_ffff, n))) != 0 {
        HighMask(bits, n);
        return false;
      }
      assert bits < Pow2(n) by {
        if n == 32 { Pow2Small(); } else { HighMask(bits, n); }
      }
      var numTotalBits := n + numHeldBits;
      var nextNumHeldBits := numTotalBits % 8;
      var nextHeldBits: Byte := Word32(ShiftLeft(bits, 8 - nextNumHeldBits)) % 0x100;
      NextHeldBits(bits, nextNumHeldBits);

      if numTotalBits / 8 == 0 {
        HeldBitsMerge(heldBits, numHeldBits, bits, n);
        ConcatAssoc(BytesBits(fifo), HeldBits(heldBits, numHeldBits), Bits(bits, n));
        heldBits := Or(heldBits, nextHeldBits);
        numHeldBits := nextNumHeldBits;
        return true;
      }

      var topword := n - nextNumHeldBits - (n - nextNumHeldBits) % 8;
      WriteBitsValue(heldBits, numHeldBits, bits, n, numTotalBits / 8, nextNumHeldBits);
      var writeBits := Word32(Or(ShiftLeft(heldBits, topword), ShiftRight(bits, nextNumHeldBits)));
      AppendBits(fifo, heldBits, numHeldBits, bits, n, writeBits, numTotalBits / 8, nextNumHeldBits);
      PushBytes(writeBits, numTotalBits / 8);
      heldBits := nextHeldBits;
      numHeldBits := nextNumHeldBits;
      ok := true;
    }

    /** The fall-through switch of Write. */
    method PushBytes(writeBits: Word, numBytes: nat)
      requires 1 <= numBytes <= 4
      modifies this`fifo
      ensures fifo == old(fifo) + WordBytes(writeBits, numBytes)
    {
      PushedBytes(writeBits, numBytes);
      if numBytes >= 4 { fifo := fifo + [writeBits / 0x100_0000 % 0x100]; }
      if numBytes >= 3 { fifo := fifo + [writeBits / 0x1_0000 % 0x100]; }
      if numBytes >= 2 { fifo := fifo + [writeBits / 0x100 % 0x100]; }
      fifo := fifo + [writeBits % 0x100];
    }

    /** Pads with one bits to the next byte boundary. */
    method WriteAlignOne()
      requires Valid()
      modifies this
      ensures Valid() && numHeldBits == 0
      ensures Contents() == old(Contents()) + seq(Padding(|old(Contents())|), i => true)
    {
      hide Or, And, ShiftLeft, ShiftRight, Low, Bits, BytesBits, WordBytes, Pow2, HeldBits;
      var numBits := GetNumBitsUntilByteAligned();
      Pow2Shift(0, numBits);
      Pow2Monotone(numBits, 8);
      Pow2Small();
      AllOnes(numBits);
      ContentsLength();
      var ok := Write(ShiftLeft(1, numBits) - 1, numBits);
      ContentsLength();
    }

    /** Pads with zero bits to the next byte boundary. */
    method WriteAlignZero()
      requires Valid()
      modifies this
      ensures Valid() && numHeldBits == 0
      ensures Contents() == old(Contents()) + Zeros(Padding(|old(Contents())|))
      ensures BytesBits(fifo) == Contents()
    {
      hide Or, And, ShiftLeft, ShiftRight, Low, Bits, BytesBits, WordBytes, Pow2, HeldBits;
      ContentsLength();
      if numHeldBits == 0 {
        return;
      }
      PadHeldBits(heldBits, numHeldBits);
      BytesBitsConcat(fifo, [heldBits]);
      BytesBitsOne(heldBits);
      fifo := fifo + [heldBits];
      heldBits, numHeldBits := 0, 0;
      LowSmall(0, 8);
    }

    /** The trailing bits: a one bit, then zeros to the byte boundary. The last byte is never zero. */
    method WriteByteAlignment()
      requires Valid()
      modifies this
      ensures Valid() && numHeldBits == 0
      ensures Contents() == BytesBits(fifo) == old(Contents()) + [true] + Zeros(Padding(|old(Contents())| + 1))
      ensures fifo != [] && fifo[|fifo| - 1] != 0
    {
      ghost var before := Contents();
      assert Bits(1, 1) == [true];
      var ok := Write(1, 1);
      WriteAlignZero();
      LastByteHoldsOne(fifo, before);
    }

    lemma ContentsLength()
      requires Valid()
      ensures |Contents()| == 8 * |fifo| + numHeldBits
      ensures numHeldBits == 0 ==> Contents() == BytesBits(fifo)
    {}

    /** Appends every bit of another stream, whatever the alignment of this one. */
    method AddSubstream(substream: OutputBitstream)
      requires Valid() && substream.Valid() && substream != this
      modifies this
      ensures Valid()
      ensures Contents() == old(Contents()) + substream.Contents()
    {
      hide Or, And, ShiftLeft, ShiftRight, Low, Bits, BytesBits, WordBytes, Pow2, HeldBits;
      var numBits := substream.GetNumberOfWrittenBits();
      var i := 0;
      while i < |substream.fifo|
        invariant 0 <= i <= |substream.fifo|
        invariant Valid() && substream.Valid()
        invariant Contents() == old(Contents()) + BytesBits(substream.fifo[..i])
      {
        assert substream.fifo[..i + 1] == substream.fifo[..i] + [substream.fifo[i]];
        BytesBitsConcat(substream.fifo[..i], [substream.fifo[i]]);
        BytesBitsOne(substream.fifo[i]);
        Pow2Small();
        var ok := Write(substream.fifo[i], 8);
        i := i + 1;
      }
      assert substream.fifo[..i] == substream.fifo;
      assert numBits % 8 == substream.numHeldBits;
      if numBits % 8 != 0 {
        HeldValue(substream.heldBits, substream.numHeldBits);
        assert HeldBits(substream.heldBits, substream.numHeldBits) == Bits(ShiftRight(substream.heldBits, 8 - numBits % 8), numBits % 8) by {
          HeldBitsOf(substream.heldBits, substream.numHeldBits);
        }
        var ok := Write(ShiftRight(substream.heldBits, 8 - numBits % 8), numBits % 8);
      }
    }
  }
}
