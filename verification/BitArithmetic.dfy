/** Words, shifts and bit sequences: the arithmetic that BitStream.cpp relies on. */
module BitArithmetic {

  type Byte = x: int | 0 <= x < 0x100

  type Word = x: int | 0 <= x < 0x1_0000_0000

  function Pow2(n: nat): (p: nat)
    ensures p > 0
  {
    if n == 0 then 1 else 2 * Pow2(n - 1)
  }

  /** Shift to the left without a width; callers truncate. */
  function ShiftLeft(x: nat, n: nat): nat
  {
    if n == 0 then x else 2 * ShiftLeft(x, n - 1)
  }

  function ShiftRight(x: nat, n: nat): (r: nat)
    ensures r <= x
  {
    if n == 0 then x else ShiftRight(x / 2, n - 1)
  }

  /** The n low bits of x, as a number. */
  function Low(x: nat, n: nat): nat
  {
    if n == 0 then 0 else 2 * Low(x / 2, n - 1) + x % 2
  }

  function Word32(x: nat): (r: Word)
  {
    x % 0x1_0000_0000
  }

  /** Bitwise or, digit by digit. */
  function Or(a: nat, b: nat): nat
    decreases a + b
  {
    if a == 0 && b == 0 then 0
    else 2 * Or(a / 2, b / 2) + if a % 2 == 1 || b % 2 == 1 then 1 else 0
  }

  /** Bitwise and, digit by digit. */
  function And(a: nat, b: nat): nat
    decreases a + b
  {
    if a == 0 && b == 0 then 0
    else 2 * And(a / 2, b / 2) + if a % 2 == 1 && b % 2 == 1 then 1 else 0
  }

  /** Bitwise complement of an unsigned 32-bit word. */
  function Not(a: Word): Word
  {
    0xffff_ffff - a
  }

  /** The n low bits of v, most significant first. */
  function Bits(v: nat, n: nat): (s: seq<bool>)
    ensures |s| == n
  {
    if n == 0 then [] else Bits(v / 2, n - 1) + [v % 2 == 1]
  }

  /** The number that a bit sequence spells, most significant bit first. */
  function Value(s: seq<bool>): nat
  {
    if s == [] then 0
    else 2 * Value(s[..|s| - 1]) + if s[|s| - 1] then 1 else 0
  }

  function BytesBits(bytes: seq<Byte>): (s: seq<bool>)
    ensures |s| == 8 * |bytes|
  {
    if bytes == [] then [] else BytesBits(bytes[..|bytes| - 1]) + Bits(bytes[|bytes| - 1], 8)
  }

  /** The low n bytes of t, most significant first. */
  function WordBytes(t: nat, n: nat): (bytes: seq<Byte>)
    ensures |bytes| == n
  {
    if n == 0 then [] else WordBytes(t / 0x100, n - 1) + [t % 0x100]
  }

  /** The number that at most a few bytes spell, most significant first. */
  function BytesWord(bytes: seq<Byte>): nat
  {
    if bytes == [] then 0 else 0x100 * BytesWord(bytes[..|bytes| - 1]) + bytes[|bytes| - 1]
  }

  /** How many bits are missing to the next byte boundary. */
  function Padding(n: nat): nat
  {
    (8 - n % 8) % 8
  }

  function Zeros(n: nat): (s: seq<bool>)
    ensures |s| == n
  {
    seq(n, i => false)
  }

  // Shifts

  lemma {:induction false} Pow2Monotone(m: nat, n: nat)
    requires m <= n
    ensures Pow2(m) <= Pow2(n)
    decreases n
  {
    if m < n {
      Pow2Monotone(m, n - 1);
    }
  }

  lemma Pow2Small()
    ensures Pow2(0) == 1 && Pow2(1) == 2 && Pow2(2) == 4 && Pow2(3) == 8 && Pow2(4) == 16
    ensures Pow2(5) == 32 && Pow2(6) == 64 && Pow2(7) == 128 && Pow2(8) == 0x100
    ensures Pow2(16) == 0x1_0000 && Pow2(24) == 0x100_0000 && Pow2(32) == 0x1_0000_0000
  {
    assert Pow2(5) == 2 * Pow2(4);
    assert Pow2(8) == 2 * Pow2(7) && Pow2(7) == 2 * Pow2(6);
    ShiftLeft8(1);
    ShiftLeft8(Pow2(8));
    ShiftLeft8(Pow2(16));
    Pow2Shift(8, 8);
    Pow2Shift(16, 8);
    Pow2Shift(24, 8);
  }

  lemma ShiftLeft8(x: nat)
    ensures ShiftLeft(x, 8) == 0x100 * x
  {
    assert ShiftLeft(x, 2) == 2 * ShiftLeft(x, 1) == 4 * x;
    assert ShiftLeft(x, 4) == 2 * ShiftLeft(x, 3) == 4 * ShiftLeft(x, 2);
    assert ShiftLeft(x, 6) == 2 * ShiftLeft(x, 5) == 4 * ShiftLeft(x, 4);
    assert ShiftLeft(x, 8) == 2 * ShiftLeft(x, 7) == 4 * ShiftLeft(x, 6);
  }

  lemma {:induction false} Pow2Shift(m: nat, n: nat)
    ensures ShiftLeft(Pow2(m), n) == Pow2(m + n)
  {
    if n > 0 {
      Pow2Shift(m, n - 1);
    }
  }

  lemma {:induction false} ShiftLeftSum(x: nat, m: nat, n: nat)
    ensures ShiftLeft(ShiftLeft(x, m), n) == ShiftLeft(x, m + n)
  {
    if n > 0 {
      ShiftLeftSum(x, m, n - 1);
    }
  }

  lemma {:induction false} ShiftLeftAdd(x: nat, y: nat, n: nat)
    ensures ShiftLeft(x + y, n) == ShiftLeft(x, n) + ShiftLeft(y, n)
  {
    if n > 0 {
      ShiftLeftAdd(x, y, n - 1);
    }
  }

  lemma {:induction false} ShiftLeftZero(x: nat, n: nat)
    ensures ShiftLeft(x, n) == 0 <==> x == 0
  {
    if n > 0 {
      ShiftLeftZero(x, n - 1);
    }
  }

  /** A number of m bits in front of a number of n bits has m + n bits. */
  lemma {:induction false} ShiftLeftBound(a: nat, m: nat, b: nat, n: nat)
    requires a < Pow2(m) && b < Pow2(n)
    ensures ShiftLeft(a, n) + b < Pow2(m + n)
    decreases n
  {
    if n > 0 {
      ShiftLeftBound(a, m, b / 2, n - 1);
    }
  }

  lemma {:induction false} ShiftRightBound(x: nat, m: nat, n: nat)
    requires x < Pow2(m + n)
    ensures ShiftRight(x, n) < Pow2(m)
    decreases n
  {
    if n > 0 {
      ShiftRightBound(x / 2, m, n - 1);
    }
  }

  lemma {:induction false} ShiftRightZero(x: nat, n: nat)
    ensures ShiftRight(x, n) == 0 <==> x < Pow2(n)
  {
    if n > 0 {
      ShiftRightZero(x / 2, n - 1);
    }
  }

  /** Every number is its high part, shifted, plus its n low bits. */
  lemma {:induction false} Split(x: nat, n: nat)
    ensures Low(x, n) < Pow2(n)
    ensures x == ShiftLeft(ShiftRight(x, n), n) + Low(x, n)
  {
    if n > 0 {
      Split(x / 2, n - 1);
    }
  }

  /** The split into a high and a low part is unique. */
  lemma {:induction false} Join(a: nat, b: nat, n: nat)
    requires b < Pow2(n)
    ensures ShiftRight(ShiftLeft(a, n) + b, n) == a
    ensures Low(ShiftLeft(a, n) + b, n) == b
    decreases n
  {
    if n > 0 {
      Join(a, b / 2, n - 1);
    }
  }

  lemma {:induction false} LowSmall(x: nat, n: nat)
    requires x < Pow2(n)
    ensures Low(x, n) == x && ShiftRight(x, n) == 0
  {
    if n > 0 {
      LowSmall(x / 2, n - 1);
    }
  }

  lemma Low8(x: nat)
    ensures Low(x, 8) == x % 0x100 && ShiftRight(x, 8) == x / 0x100
  {
    Split(x, 8);
    ShiftLeft8(ShiftRight(x, 8));
    assert Pow2(8) == 0x100 by { Pow2Small(); }
    DivMod256(x, ShiftRight(x, 8), Low(x, 8));
  }

  lemma DivMod256(x: nat, q: nat, r: nat)
    requires x == 0x100 * q + r && r < 0x100
    ensures x / 0x100 == q && x % 0x100 == r
  {}

  // Bitwise operations

  /** Or of a number shifted past the other operand is their sum. */
  lemma {:induction false} OrDisjoint(a: nat, b: nat, k: nat)
    requires b < Pow2(k)
    ensures Or(ShiftLeft(a, k), b) == ShiftLeft(a, k) + b
    decreases k, a
  {
    if k == 0 {
      if a > 0 {
        OrDisjoint(a / 2, 0, 0);
      }
    } else {
      OrDisjoint(a, b / 2, k - 1);
    }
  }

  /** A mask with k ones below j zeros keeps the k low bits of a number of k + j bits. */
  lemma {:induction false} AndMask(a: nat, m: nat, k: nat, j: nat)
    requires Low(m, k) == Pow2(k) - 1 && Low(ShiftRight(m, k), j) == 0
    requires a < Pow2(k + j)
    ensures And(a, m) == Low(a, k)
    decreases k, j
  {
    if k > 0 {
      AndMask(a / 2, m / 2, k - 1, j);
    } else if j > 0 {
      AndMask(a / 2, m / 2, 0, j - 1);
    } else {
      AndZero(m);
    }
  }

  lemma {:induction false} AndZero(m: nat)
    ensures And(0, m) == 0
  {
    if m > 0 {
      AndZero(m / 2);
    }
  }

  lemma {:induction false} AndHigh(a: nat, m: nat, n: nat)
    requires Low(m, n) == 0
    ensures And(a, m) == ShiftLeft(And(ShiftRight(a, n), ShiftRight(m, n)), n)
    decreases n
  {
    if n > 0 {
      AndHigh(a / 2, m / 2, n - 1);
    }
  }

  /** All ones of width m + n are m ones in front of n ones. */
  lemma Ones(m: nat, n: nat)
    ensures Pow2(m + n) - 1 == ShiftLeft(Pow2(m) - 1, n) + (Pow2(n) - 1)
  {
    ShiftLeftAdd(Pow2(m) - 1, 1, n);
    Pow2Shift(m, n);
    Pow2Shift(0, n);
  }

  /** The mask ~(0xff << k) of the bit reader keeps the k low bits of a byte. */
  lemma ByteMask(a: Byte, k: nat)
    requires k <= 8
    ensures ShiftLeft(0xff, k) < 0x1_0000_0000
    ensures And(a, Not(ShiftLeft(0xff, k))) == Low(a, k)
  {
    hide And, Low, ShiftLeft, ShiftRight, Pow2;
    Pow2Small();
    Ones(8, k);
    Pow2Monotone(8 + k, 16);
    Ones(24 - k, 8 + k);
    var high := Pow2(24 - k) - 1;
    ShiftLeftSum(high, 8, k);
    assert Not(ShiftLeft(0xff, k)) == ShiftLeft(ShiftLeft(high, 8), k) + (Pow2(k) - 1);
    Join(ShiftLeft(high, 8), Pow2(k) - 1, k);
    Join(high, 0, 8);
    Pow2Monotone(8, k + 8);
    AndMask(a, Not(ShiftLeft(0xff, k)), k, 8);
  }

  /** In 32 bits, ~0u << n leaves 32 - n ones above n zeros. */
  lemma HighMaskValue(n: nat)
    requires n < 32
    ensures Word32(ShiftLeft(0xffff_ffff, n)) == ShiftLeft(Pow2(32 - n) - 1, n)
  {
    hide ShiftLeft, Word32;
    var ones := Pow2(32 - n) - 1;
    assert Pow2(32) == 0x1_0000_0000 by { Pow2Small(); }
    assert ShiftLeft(0xffff_ffff, n) == 0x1_0000_0000 * (Pow2(n) - 1) + ShiftLeft(ones, n) by {
      Ones(n, 32 - n);
      ShiftLeftAdd(ShiftLeft(Pow2(n) - 1, 32 - n), ones, n);
      ShiftLeftSum(Pow2(n) - 1, 32 - n, n);
      ShiftLeft32(Pow2(n) - 1);
    }
    ShiftLeftBound(ones, 32 - n, 0, n);
    WholeWords(Pow2(n) - 1, ShiftLeft(ones, n));
  }

  lemma WholeWords(k: nat, low: nat)
    requires low < 0x1_0000_0000
    ensures Word32(0x1_0000_0000 * k + low) == low
  {}

  /** The guard (bits & (~0u << n)) != 0 of the bit writer: some bit at position n or above is set. */
  lemma HighMask(bits: Word, n: nat)
    requires n < 32
    ensures And(bits, Word32(ShiftLeft(0xffff_ffff, n))) != 0 <==> bits >= Pow2(n)
  {
    var ones, high := Pow2(32 - n) - 1, ShiftRight(bits, n);
    HighMaskValue(n);
    assert And(bits, ShiftLeft(ones, n)) == ShiftLeft(And(high, ones), n) by {
      Join(ones, 0, n);
      AndHigh(bits, ShiftLeft(ones, n), n);
    }
    assert And(high, ones) == high by {
      Pow2Small();
      ShiftRightBound(bits, 32 - n, n);
      LowSmall(ones, 32 - n);
      LowSmall(high, 32 - n);
      AndMask(high, ones, 32 - n, 0);
    }
    ShiftRightZero(bits, n);
    ShiftLeftZero(high, n);
  }

  lemma ShiftLeft32(x: nat)
    ensures ShiftLeft(x, 32) == 0x1_0000_0000 * x
  {
    ShiftLeft8(x);
    ShiftLeft8(0x100 * x);
    ShiftLeft8(0x1_0000 * x);
    ShiftLeft8(0x100_0000 * x);
    ShiftLeftSum(x, 8, 8);
    ShiftLeftSum(x, 16, 8);
    ShiftLeftSum(x, 24, 8);
  }

  // Bit sequences

  lemma ConcatAssoc<T>(a: seq<T>, b: seq<T>, c: seq<T>)
    ensures a + (b + c) == a + b + c
  {}

  lemma {:induction false} BitsConcat(a: nat, m: nat, b: nat, n: nat)
    requires b < Pow2(n)
    ensures Bits(ShiftLeft(a, n) + b, m + n) == Bits(a, m) + Bits(b, n)
    decreases n
  {
    if n > 0 {
      BitsConcat(a, m, b / 2, n - 1);
    }
  }

  /** Cutting the low n bits off a number cuts its bit sequence. */
  lemma {:induction false} BitsSplit(v: nat, m: nat, n: nat)
    ensures Bits(v, m + n) == Bits(ShiftRight(v, n), m) + Bits(v, n)
    decreases n
  {
    if n > 0 {
      BitsSplit(v / 2, m, n - 1);
      assert Bits(v, m + n) == Bits(v / 2, m + n - 1) + [v % 2 == 1] && Bits(v, n) == Bits(v / 2, n - 1) + [v % 2 == 1];
      assert ShiftRight(v, n) == ShiftRight(v / 2, n - 1);
      hide *;
      ConcatAssoc(Bits(ShiftRight(v, n), m), Bits(v / 2, n - 1), [v % 2 == 1]);
    }
  }

  lemma {:induction false} WordBytesBits(t: nat, n: nat)
    ensures BytesBits(WordBytes(t, n)) == Bits(t, 8 * n)
    decreases n
  {
    if n > 0 {
      hide Bits, Low, ShiftRight, WordBytes, BytesBits;
      WordBytesBits(t / 0x100, n - 1);
      WordBytesStep(t, n);
      Low8(t);
      BitsSplit(t, 8 * (n - 1), 8);
      BitsLow(t, 8, 8);
    } else {
      assert Bits(t, 0) == [];
    }
  }

  lemma WordBytesStep(t: nat, n: nat)
    requires n > 0
    ensures BytesBits(WordBytes(t, n)) == BytesBits(WordBytes(t / 0x100, n - 1)) + Bits(t % 0x100, 8)
  {
    hide Bits;
    assert WordBytes(t, n)[..n - 1] == WordBytes(t / 0x100, n - 1);
  }

  /** Bits at position n and above do not matter for the m <= n low bits. */
  lemma {:induction false} BitsLow(t: nat, m: nat, n: nat)
    requires m <= n
    ensures Bits(Low(t, n), m) == Bits(t, m)
  {
    if m > 0 {
      BitsLow(t / 2, m - 1, n - 1);
    }
  }

  lemma {:induction false} ValueBits(v: nat, n: nat)
    ensures Value(Bits(v, n)) == Low(v, n)
  {
    if n > 0 {
      ValueBits(v / 2, n - 1);
      assert Bits(v, n)[..n - 1] == Bits(v / 2, n - 1);
    }
  }

  lemma {:induction false} BitsValue(s: seq<bool>)
    ensures Value(s) < Pow2(|s|) && Bits(Value(s), |s|) == s
    decreases |s|
  {
    if s != [] {
      BitsValue(s[..|s| - 1]);
    }
  }

  lemma BytesStep(bytes: seq<Byte>)
    requires bytes != []
    ensures var before, last := bytes[..|bytes| - 1], bytes[|bytes| - 1];
            && BytesWord(bytes) == 0x100 * BytesWord(before) + last
            && BytesBits(bytes) == BytesBits(before) + Bits(last, 8)
  {}

  lemma {:induction false} BytesWordBits(bytes: seq<Byte>)
    ensures Bits(BytesWord(bytes), 8 * |bytes|) == BytesBits(bytes)
    ensures BytesWord(bytes) < Pow2(8 * |bytes|)
    decreases |bytes|
  {
    if bytes == [] {
      assert Bits(0, 0) == [] && Pow2(0) == 1;
    } else {
      hide Bits, Pow2, BytesWord, BytesBits;
      BytesStep(bytes);
      BytesWordBits(bytes[..|bytes| - 1]);
      AppendByte(BytesWord(bytes[..|bytes| - 1]), 8 * (|bytes| - 1), bytes[|bytes| - 1]);
    }
  }

  lemma AppendByte(w: nat, n: nat, b: Byte)
    requires w < Pow2(n)
    ensures 0x100 * w + b < Pow2(n + 8)
    ensures Bits(0x100 * w + b, n + 8) == Bits(w, n) + Bits(b, 8)
  {
    hide *;
    ShiftLeft8(w);
    Pow2Small();
    ShiftLeftBound(w, n, b, 8);
    BitsConcat(w, n, b, 8);
  }

  lemma {:induction false} BytesBitsConcat(s: seq<Byte>, t: seq<Byte>)
    ensures BytesBits(s + t) == BytesBits(s) + BytesBits(t)
    decreases |t|
  {
    if t == [] {
      assert s + t == s;
    } else {
      var t' := t[..|t| - 1];
      assert (s + t)[..|s + t| - 1] == s + t';
      BytesBitsConcat(s, t');
    }
  }

  lemma BytesBitsOne(b: Byte)
    ensures BytesBits([b]) == Bits(b, 8)
  {
    assert [b][..0] == [];
  }

  lemma {:induction false} BitsZero(n: nat)
    ensures Bits(0, n) == Zeros(n)
  {
    if n > 0 {
      BitsZero(n - 1);
    }
  }
}
