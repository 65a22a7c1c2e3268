/** The bit reader of BitStream.cpp. */
module InputBitstreams {
  import opened BitArithmetic

  // One past the largest FIFO whose bits a 32-bit counter can count.
  const FIFO_LIMIT: nat := 0x2000_0000

  /** Reading n <= k bits out of k held ones: the masked shift yields the first n, the others stay held. */
  lemma ReadHeld(held: Byte, k: nat, n: nat)
    requires n <= k < 8
    ensures ShiftLeft(0xff, n) < 0x1_0000_0000
    ensures var r := And(ShiftRight(held, k - n), Not(ShiftLeft(0xff, n)));
            && r < 0x1_0000_0000 && r == Value(Bits(held, k)[..n])
            && Bits(held, k - n) == Bits(held, k)[n..]
  {
    hide *;
    var x := ShiftRight(held, k - n);
    ByteMask(x, n);
    ValueBits(x, n);
    BitsSplit(held, n, k - n);
    LowBound(x, n);
  }

  lemma LowBound(x: nat, n: nat)
    requires n <= 32
    ensures Low(x, n) < 0x1_0000_0000
  {
    Split(x, n);
    Pow2Monotone(n, 32);
    Pow2Small();
  }

  /** The k held bits in front of the n first of the n + next bits of the word that was loaded. */
  lemma ReadAcross(held: Byte, k: nat, word: nat, n: nat, next: nat)
    requires k < 8 && k + n <= 32 && word < Pow2(n + next) && next < 8
    ensures var r := Or(ShiftLeft(Low(held, k), n), ShiftRight(word, next));
            && r < 0x1_0000_0000 && r == Value(Bits(held, k) + Bits(ShiftRight(word, next), n))
    ensures Bits(word, n + next) == Bits(ShiftRight(word, next), n) + Bits(word % 0x100, next)
  {
    hide *;
    var low, high := Low(held, k), ShiftRight(word, next);
    assert low < Pow2(k) by { Split(held, k); }
    assert high < Pow2(n) by { ShiftRightBound(word, n, next); }
    OrDisjoint(low, high, n);
    var r := ShiftLeft(low, n) + high;
    assert r < Pow2(k + n) by { ShiftLeftBound(low, k, high, n); }
    assert Pow2(k + n) <= 0x1_0000_0000 by { Pow2Monotone(k + n, 32); Pow2Small(); }
    assert Bits(r, k + n) == Bits(held, k) + Bits(high, n) by {
      BitsConcat(low, k, high, n);
      BitsLow(held, k, k);
    }
    ValueBits(r, k + n);
    LowSmall(r, k + n);
    BitsSplit(word, n, next);
    Low8(word);
    BitsLow(word, next, 8);
  }

  class InputBitstream {
    var fifo: seq<Byte>
    var fifoIdx: nat
    var numHeldBits: nat
    // the low numHeldBits bits are held; the ones above are stale
    var heldBits: Byte

    ghost predicate Valid()
      reads this
    {
      fifoIdx <= |fifo| < FIFO_LIMIT && numHeldBits < 8
    }

    /** The bits not yet read, next bit first. */
    ghost function Unread(): (s: seq<bool>)
      reads this
      requires Valid()
      ensures |s| == numHeldBits + 8 * (|fifo| - fifoIdx)
    {
      Bits(heldBits, numHeldBits) + BytesBits(fifo[fifoIdx..])
    }

    constructor (bytes: seq<Byte>)
      requires |bytes| < FIFO_LIMIT
      ensures Valid() && fifo == bytes && fifoIdx == 0 && Unread() == BytesBits(bytes)
    {
      fifo, fifoIdx, numHeldBits, heldBits := bytes, 0, 0, 0;
      new;
      assert fifo[0..] == bytes;
    }

    method ResetToStart()
      requires Valid()
      modifies this
      ensures Valid() && fifo == old(fifo) && Unread() == BytesBits(fifo)
    {
      fifoIdx, numHeldBits, heldBits := 0, 0, 0;
      assert fifo[0..] == fifo;
    }

    function GetNumBitsUntilByteAligned(): (r: nat)
      reads this
      requires Valid()
      ensures r == |Unread()| % 8
    {
      numHeldBits % 8
    }

    /** A 32-bit counter in the original. */
    function GetNumBitsLeft(): (r: nat)
      reads this
      requires Valid()
      ensures r == |Unread()|
    {
      Word32(8 * (|fifo| - fifoIdx) + numHeldBits)
    }

    /** Takes n bits. Fails, taking none, exactly when fewer than n are left or n exceeds a word. */
    method Read(n: nat) returns (ok: bool, bits: Word)
      requires Valid()
      modifies this
      ensures Valid() && fifo == old(fifo)
      ensures ok <==> n <= 32 && n <= old(|Unread()|)
      ensures ok ==> bits == Value(old(Unread())[..n]) && Unread() == old(Unread())[n..]
      ensures !ok ==> fifoIdx == old(fifoIdx) && numHeldBits == old(numHeldBits) && heldBits == old(heldBits)
    {
      hide Or, And, ShiftLeft, ShiftRight, Low, Bits, BytesBits, BytesWord, Pow2, Value;
      if n > 32 {
        return false, 0;
      }
      if n <= numHeldBits {
        ReadHeld(heldBits, numHeldBits, n);
        bits := And(ShiftRight(heldBits, numHeldBits - n), Not(ShiftLeft(0xff, n)));
        assert Unread()[..n] == Bits(heldBits, numHeldBits)[..n];
        numHeldBits := numHeldBits - n;
        return true, bits;
      }
      var needed := n - numHeldBits;
      var numBytesToLoad := (needed - 1) / 8;
      if fifoIdx + numBytesToLoad >= |fifo| {
        return false, 0;
      }
      ByteMask(heldBits, numHeldBits);
      var fromHeld := ShiftLeft(And(heldBits, Not(ShiftLeft(0xff, numHeldBits))), needed);
      var nextNumHeldBits := (32 - needed) % 8;
      assert needed + nextNumHeldBits == 8 * (numBytesToLoad + 1);
      ghost var loaded := fifo[fifoIdx..fifoIdx + numBytesToLoad + 1];
      assert fifo[fifoIdx..] == loaded + fifo[fifoIdx + numBytesToLoad + 1..];
      BytesBitsConcat(loaded, fifo[fifoIdx + numBytesToLoad + 1..]);
      BytesWordBits(loaded);
      var alignedWord := LoadWord(numBytesToLoad);
      ReadAcross(heldBits, numHeldBits, alignedWord, needed, nextNumHeldBits);
      bits := Or(fromHeld, ShiftRight(alignedWord, nextNumHeldBits));
      ghost var fst, rest := Bits(heldBits, numHeldBits) + Bits(ShiftRight(alignedWord, nextNumHeldBits), needed),
                             Bits(alignedWord % 0x100, nextNumHeldBits) + BytesBits(fifo[fifoIdx..]);
      assert old(Unread()) == fst + rest;
      numHeldBits := nextNumHeldBits;
      heldBits := alignedWord % 0x100;
      ok := true;
    }

    /** Reads without taking, padding with zero bits beyond the end. */
    method PseudoRead(n: nat) returns (ok: bool, bits: Word)
      requires Valid() && (n <= 32 || n < GetNumBitsLeft() + 32)
      modifies this
      ensures Valid() && fifo == old(fifo) && Unread() == old(Unread())
      ensures fifoIdx == old(fifoIdx) && numHeldBits == old(numHeldBits) && heldBits == old(heldBits)
      ensures ok <==> n <= 32 || |Unread()| <= 32
      ensures ok ==> bits == Word32(Value((Unread() + Zeros(n))[..n]))
      ensures n <= 32 ==> bits == Value((Unread() + Zeros(n))[..n])
    {
      hide Bits, BytesBits, Value, Word32, ShiftLeft;
      var savedNumHeldBits, savedHeldBits, savedFifoIdx := numHeldBits, heldBits, fifoIdx;
      ghost var unread := Unread();
      var left := GetNumBitsLeft();
      var numBitsToRead := if n < left then n else left;
      var head: Word;
      ok, head := Read(numBitsToRead);
      if !ok {
        return false, 0;
      }
      PadValue(unread[..numBitsToRead], n - numBitsToRead);
      if n <= 32 {
        ValueWord(unread[..numBitsToRead] + Zeros(n - numBitsToRead));
        SmallWord(Value(unread[..numBitsToRead] + Zeros(n - numBitsToRead)));
      }
      bits := Word32(ShiftLeft(head, n - numBitsToRead));
      assert (unread + Zeros(n))[..n] == unread[..numBitsToRead] + Zeros(n - numBitsToRead);
      fifoIdx, heldBits, numHeldBits := savedFifoIdx, savedHeldBits, savedNumHeldBits;
    }

    /** Drops bits up to the next byte boundary and counts them. */
    method ReadOutTrailingBits() returns (count: nat)
      requires Valid()
      modifies this
      ensures Valid() && fifo == old(fifo)
      ensures count == old(|Unread()|) % 8 && Unread() == old(Unread())[count..]
    {
      hide Bits, BytesBits, Value;
      count := 0;
      while GetNumBitsLeft() > 0 && GetNumBitsUntilByteAligned() != 0
        invariant Valid() && fifo == old(fifo)
        invariant count <= old(|Unread()|) % 8 && Unread() == old(Unread())[count..]
        decreases |Unread()|
      {
        var ok, bit := Read(1);
        count := count + 1;
      }
    }

    /** Takes the trailing bits, a one bit and zeros to the byte boundary; fails on anything else. */
    method ReadByteAlignment() returns (ok: bool, count: nat)
      requires Valid()
      modifies this
      ensures Valid() && fifo == old(fifo)
      ensures ok <==> old(AtByteAlignment())
      ensures ok ==> count == (old(|Unread()|) - 1) % 8 + 1 && Unread() == old(Unread())[count..]
    {
      hide Bits, BytesBits, Value;
      ghost var unread := Unread();
      var first, code := Read(1);
      if !first {
        return false, 0;
      }
      OneBitValue(unread[..1]);
      if code != 1 {
        return false, 0;
      }
      var numBits := GetNumBitsUntilByteAligned();
      if numBits != 0 {
        ghost var zeros := Unread()[..numBits];
        assert zeros == unread[1..1 + numBits];
        var more, padding := Read(numBits);
        ZeroValue(zeros);
        if !more || padding != 0 {
          return false, 0;
        }
      }
      return true, numBits + 1;
    }

    ghost predicate AtByteAlignment()
      reads this
      requires Valid()
    {
      var s := Unread();
      s != [] && s[0] && s[1..1 + (|s| - 1) % 8] == Zeros((|s| - 1) % 8)
    }

    /**
     * Takes numBits bits as a stream of their own, padded with zeros to a byte. At a byte boundary whole
     * bytes are copied, and bytes beyond the end read as zero; elsewhere the bits are read one byte at a time
     * and reading beyond the end fails.
     */
    method ExtractSubstream(numBits: nat) returns (ok: bool, result: InputBitstream?)
      requires Valid() && numBits <= 8 * (FIFO_LIMIT - 1)
      modifies this
      ensures Valid() && fifo == old(fifo)
      ensures ok <==> numBits <= old(|Unread()|) || (old(numHeldBits) == 0 && numBits % 8 == 0)
      ensures ok ==> result != null && fresh(result) && result.Valid() && result.fifoIdx == 0
      ensures ok ==> result.Unread() == BytesBits(result.fifo) == (old(Unread()) + Zeros(numBits))[..numBits] + Zeros(Padding(numBits))
      ensures ok && numBits <= old(|Unread()|) ==> Unread() == old(Unread())[numBits..]
      ensures ok && numBits > old(|Unread()|) ==> Unread() == []
    {
      hide Bits, BytesBits, Value, Low, ShiftLeft;
      ghost var unread := Unread();
      var numBytes := numBits / 8;
      var buf: seq<Byte>;
      if numHeldBits == 0 {
        buf := CopyBytes(numBytes);
      } else {
        ok, buf := ReadBytes(numBytes);
        if !ok {
          return false, null;
        }
      }
      PaddedPrefix(unread, 8 * numBytes, numBits);
      ghost var head := (unread + Zeros(numBits))[..8 * numBytes];
      assert BytesBits(buf) == head;
      if numBits % 8 != 0 {
        var more, bits := Read(numBits % 8);
        if !more {
          return false, null;
        }
        ghost var last := unread[8 * numBytes..numBits];
        assert unread[8 * numBytes..][..numBits % 8] == last;
        PaddedByte(last);
        var byte: Byte := ShiftLeft(bits, 8 - numBits % 8);
        BytesBitsConcat(buf, [byte]);
        BytesBitsOne(byte);
        buf := buf + [byte];
        assert BytesBits(buf) == head + (last + Zeros(8 - numBits % 8));
      }
      ExtractedBits(unread, numBits);
      result := new InputBitstream(buf);
      ok := true;
    }

    /** The memcpy path of ExtractSubstream, at a byte boundary. */
    method CopyBytes(numBytes: nat) returns (buf: seq<Byte>)
      requires Valid() && numHeldBits == 0
      modifies this
      ensures Valid() && fifo == old(fifo) && numHeldBits == 0
      ensures |buf| == numBytes && BytesBits(buf) == (old(Unread()) + Zeros(8 * numBytes))[..8 * numBytes]
      ensures 8 * numBytes <= old(|Unread()|) ==> Unread() == old(Unread())[8 * numBytes..]
      ensures 8 * numBytes > old(|Unread()|) ==> Unread() == []
    {
      hide Bits, BytesBits, Value, Low, ShiftLeft;
      BitsNone(heldBits);
      var available := |fifo| - fifoIdx;
      var numBytesFromFifo := if numBytes < available then numBytes else available;
      CopiedBytes(fifo[fifoIdx..], numBytesFromFifo, numBytes);
      assert fifo[fifoIdx..][numBytesFromFifo..] == fifo[fifoIdx + numBytesFromFifo..];
      assert fifo[fifoIdx..][..numBytesFromFifo] == fifo[fifoIdx..fifoIdx + numBytesFromFifo];
      assert Unread() == BytesBits(fifo[fifoIdx..]);
      buf := fifo[fifoIdx..fifoIdx + numBytesFromFifo];
      fifoIdx := fifoIdx + numBytesFromFifo;
      assert Unread() == BytesBits(fifo[fifoIdx..]);
      if numBytesFromFifo != numBytes {
        buf := buf + seq(numBytes - numBytesFromFifo, i => 0 as Byte);
      } else {
        assert buf + seq(0, i => 0 as Byte) == buf;
      }
    }

    /** The bitwise path of ExtractSubstream. */
    method ReadBytes(numBytes: nat) returns (ok: bool, buf: seq<Byte>)
      requires Valid()
      modifies this
      ensures Valid() && fifo == old(fifo)
      ensures ok <==> 8 * numBytes <= old(|Unread()|)
      ensures ok ==> |buf| == numBytes && BytesBits(buf) == old(Unread())[..8 * numBytes]
      ensures ok ==> Unread() == old(Unread())[8 * numBytes..] && numHeldBits == old(numHeldBits)
    {
      hide Bits, BytesBits, Value;
      ghost var unread := Unread();
      buf := [];
      BytesBitsNone();
      var i := 0;
      while i < numBytes
        invariant 0 <= i <= numBytes && |buf| == i && fifo == old(fifo)
        invariant Valid() && 8 * i <= |unread| && Unread() == unread[8 * i..]
        invariant BytesBits(buf) == unread[..8 * i]
      {
        var more, byte := Read(8);
        if !more {
          return false, [];
        }
        ghost var next := unread[8 * i..8 * i + 8];
        assert unread[8 * i..][..8] == next;
        ByteOfBits(next);
        BytesBitsConcat(buf, [byte]);
        BytesBitsOne(byte);
        assert unread[..8 * i] + next == unread[..8 * i + 8];
        buf := buf + [byte];
        i := i + 1;
      }
      ok := true;
    }

    /** The fall-through switch of Read: loads numBytesToLoad + 1 bytes, most significant first. */
    method LoadWord(numBytesToLoad: nat) returns (alignedWord: nat)
      requires Valid() && numBytesToLoad <= 3 && fifoIdx + numBytesToLoad < |fifo|
      modifies this`fifoIdx
      ensures fifoIdx == old(fifoIdx) + numBytesToLoad + 1
      ensures alignedWord == BytesWord(fifo[old(fifoIdx)..fifoIdx])
    {
      hide Or, ShiftLeft, BytesWord, BytesBits, Bits;
      ghost var start := fifoIdx;
      alignedWord := 0;
      BytesWordEmpty();
      assert fifo[start..fifoIdx] == [];
      if numBytesToLoad >= 3 {
        LoadByte(fifo[start..fifoIdx], fifo[fifoIdx], 24);
        SliceGrow(fifo, start, fifoIdx);
        alignedWord, fifoIdx := ShiftLeft(fifo[fifoIdx], 24), fifoIdx + 1;
        assert alignedWord == ShiftLeft(BytesWord(fifo[start..fifoIdx]), 24);
      }
      assert alignedWord == ShiftLeft(BytesWord(fifo[start..fifoIdx]), 24) by {
        if numBytesToLoad < 3 { assert ShiftLeft(0, 24) == 0; }
      }
      if numBytesToLoad >= 2 {
        LoadByte(fifo[start..fifoIdx], fifo[fifoIdx], 16);
        SliceGrow(fifo, start, fifoIdx);
        alignedWord, fifoIdx := Or(alignedWord, ShiftLeft(fifo[fifoIdx], 16)), fifoIdx + 1;
      }
      if numBytesToLoad >= 1 {
        LoadByte(fifo[start..fifoIdx], fifo[fifoIdx], 8);
        SliceGrow(fifo, start, fifoIdx);
        alignedWord, fifoIdx := Or(alignedWord, ShiftLeft(fifo[fifoIdx], 8)), fifoIdx + 1;
      }
      LoadByte(fifo[start..fifoIdx], fifo[fifoIdx], 0);
      ShiftLeftNone(fifo[fifoIdx]);
      SliceGrow(fifo, start, fifoIdx);
      alignedWord, fifoIdx := Or(alignedWord, fifo[fifoIdx]), fifoIdx + 1;
      ShiftLeftNone(BytesWord(fifo[start..fifoIdx]));
    }
  }

  lemma SliceGrow<T>(s: seq<T>, from: nat, to: nat)
    requires from <= to < |s|
    ensures s[from..to + 1] == s[from..to] + [s[to]]
  {}

  lemma BytesWordEmpty()
    ensures BytesWord([]) == 0
    ensures forall n :: ShiftLeft(0, n) == 0
  {
    forall n ensures ShiftLeft(0, n) == 0 { ShiftLeftZero(0, n); }
  }

  lemma ShiftLeftNone(x: nat)
    ensures ShiftLeft(x, 0) == x
  {}

  /** Putting one more byte below the bytes loaded so far, n bits above the bottom. */
  lemma LoadByte(bytes: seq<Byte>, b: Byte, n: nat)
    ensures Or(ShiftLeft(BytesWord(bytes), n + 8), ShiftLeft(b, n)) == ShiftLeft(BytesWord(bytes + [b]), n)
    ensures bytes == [] ==> ShiftLeft(b, n) == ShiftLeft(BytesWord(bytes + [b]), n)
  {
    hide ShiftLeft, Or, Pow2;
    var w := BytesWord(bytes);
    assert (bytes + [b])[..|bytes|] == bytes;
    assert b < Pow2(8) by { Pow2Small(); }
    assert ShiftLeft(b, n) < Pow2(8 + n) by { ShiftLeftBound(b, 8, 0, n); }
    OrDisjoint(w, ShiftLeft(b, n), n + 8);
    ShiftLeftSum(w, 8, n);
    ShiftLeft8(w);
    ShiftLeftAdd(ShiftLeft(w, 8), b, n);
  }

  lemma BitsNone(b: Byte)
    ensures Bits(b, 0) == []
  {}

  lemma BytesBitsNone()
    ensures BytesBits([]) == []
  {}

  lemma OneBitValue(s: seq<bool>)
    requires |s| == 1
    ensures Value(s) == 1 <==> s[0]
  {}

  /** Zeros appended to a bit sequence shift its value. */
  lemma {:induction false} PadValue(s: seq<bool>, n: nat)
    ensures Value(s + Zeros(n)) == ShiftLeft(Value(s), n)
  {
    if n == 0 {
      assert s + Zeros(0) == s;
    } else {
      PadValue(s, n - 1);
      assert (s + Zeros(n))[..|s| + n - 1] == s + Zeros(n - 1);
    }
  }

  /** A few bits, shifted up to the top of a byte, are those bits padded with zeros. */
  lemma PaddedByte(s: seq<bool>)
    requires |s| <= 8
    ensures ShiftLeft(Value(s), 8 - |s|) < 0x100
    ensures Bits(ShiftLeft(Value(s), 8 - |s|), 8) == s + Zeros(8 - |s|)
  {
    hide *;
    var padded := s + Zeros(8 - |s|);
    PadValue(s, 8 - |s|);
    assert |padded| == 8;
    ByteOfBits(padded);
  }

  lemma {:induction false} ZeroBytes(n: nat)
    ensures BytesBits(seq(n, i => 0 as Byte)) == Zeros(8 * n)
  {
    if n > 0 {
      ZeroBytes(n - 1);
      BitsZero(8);
      assert seq(n, i => 0 as Byte)[..n - 1] == seq(n - 1, i => 0 as Byte);
    }
  }

  /** Copying n bytes, or what there is of them followed by zero bytes, copies 8 * n bits padded with zeros. */
  lemma CopiedBytes(src: seq<Byte>, a: nat, n: nat)
    requires a <= |src| && a <= n && (a < n ==> a == |src|)
    ensures BytesBits(src[..a] + seq(n - a, i => 0 as Byte)) == (BytesBits(src) + Zeros(8 * n))[..8 * n]
    ensures BytesBits(src[a..]) == BytesBits(src)[8 * a..]
  {
    hide BytesBits;
    assert src == src[..a] + src[a..];
    BytesBitsConcat(src[..a], src[a..]);
    BytesBitsConcat(src[..a], seq(n - a, i => 0 as Byte));
    ZeroBytes(n - a);
    PaddedPrefix(BytesBits(src), 8 * a, 8 * n);
    if a < n {
      assert src[..a] == src;
    } else {
      assert Zeros(0) == [];
    }
  }

  lemma ExtractedBits(s: seq<bool>, n: nat)
    ensures var all := s + Zeros(n);
            && (n % 8 == 0 ==> all[..n / 8 * 8] == all[..n] + Zeros(Padding(n)))
            && (n % 8 != 0 && n <= |s| ==> all[..n / 8 * 8] + (s[n / 8 * 8..n] + Zeros(8 - n % 8)) == all[..n] + Zeros(Padding(n)))
  {}

  /** The first n bits of a stream padded with zeros: m bits, then the others or zeros. */
  lemma PaddedPrefix(s: seq<bool>, m: nat, n: nat)
    requires m <= n
    ensures n <= |s| ==> (s + Zeros(n))[..n] == s[..m] + s[m..n]
    ensures m == |s| ==> (s + Zeros(n))[..n] == s + Zeros(n - m)
    ensures (s + Zeros(m))[..m] == (s + Zeros(n))[..m]
  {}

  lemma {:induction false} ZeroValue(s: seq<bool>)
    ensures Value(s) == 0 <==> s == Zeros(|s|)
  {
    if s != [] {
      ZeroValue(s[..|s| - 1]);
      assert Zeros(|s|)[..|s| - 1] == Zeros(|s| - 1);
    }
  }

  lemma SmallWord(x: nat)
    requires x < 0x1_0000_0000
    ensures Word32(x) == x
  {}

  lemma ValueWord(s: seq<bool>)
    requires |s| <= 32
    ensures Value(s) < 0x1_0000_0000
  {
    BitsValue(s);
    Pow2Monotone(|s|, 32);
    Pow2Small();
  }

  lemma ByteOfBits(s: seq<bool>)
    requires |s| == 8
    ensures Value(s) < 0x100 && Bits(Value(s), 8) == s
  {
    BitsValue(s);
    Pow2Small();
  }
}
