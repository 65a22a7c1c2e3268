/** Start code emulation prevention: the counter of BitStream.cpp and the payload writer of NALwrite.cpp. */
module EmulationPrevention {
  import opened BitArithmetic

  // Zero bytes in a row, after the byte v has been passed.
  function ZerosAfter(zeros: nat, v: Byte): nat
  {
    if v == 0 then zeros + 1 else 0
  }

  /** How many 0x03 bytes a scan from the left puts in front of bytes of s, having just passed zeros zero bytes. */
  function Insertions(s: seq<Byte>, zeros: nat): (n: nat)
    requires zeros <= 2
    ensures 2 * n <= |s| + zeros
  {
    if s == [] then 0
    else if zeros == 2 && s[0] <= 3 then 1 + Insertions(s[1..], ZerosAfter(0, s[0]))
    else Insertions(s[1..], ZerosAfter(zeros, s[0]))
  }

  /** The NAL unit payload for the RBSP bytes s. */
  function Escape(s: seq<Byte>, zeros: nat): (e: seq<Byte>)
    requires zeros <= 2
  {
    if s == [] then (if zeros > 0 then [3] else [])
    else if zeros == 2 && s[0] <= 3 then [3, s[0]] + Escape(s[1..], ZerosAfter(0, s[0]))
    else [s[0]] + Escape(s[1..], ZerosAfter(zeros, s[0]))
  }

  /** The decoder's nal_unit() syntax, section 7.3.1.1 of Rec. ITU-T H.266: 0x000003 loses its last byte. */
  function Unescape(e: seq<Byte>): (s: seq<Byte>)
  {
    if e == [] then []
    else if |e| >= 3 && e[0] == 0 && e[1] == 0 && e[2] == 3 then [0, 0] + Unescape(e[3..])
    else [e[0]] + Unescape(e[1..])
  }

  function TrailingZeros(s: seq<Byte>): nat
  {
    if s == [] || s[|s| - 1] != 0 then 0 else 1 + TrailingZeros(s[..|s| - 1])
  }

  // The counter

  /** search_n for two zeros: the first pair of zero bytes in s[from..last], or last. */
  method SearchTwoZeros(s: seq<Byte>, from: nat, last: nat) returns (p: nat)
    requires from <= last <= |s|
    ensures from <= p <= last
    ensures p == last || (p + 1 < last && s[p] == 0 && s[p + 1] == 0)
    ensures forall i :: from <= i < p && i + 1 < last ==> s[i] != 0 || s[i + 1] != 0
  {
    p := from;
    while p + 1 < last && !(s[p] == 0 && s[p + 1] == 0)
      invariant from <= p <= last
      invariant forall i :: from <= i < p && i + 1 < last ==> s[i] != 0 || s[i + 1] != 0
    {
      p := p + 1;
    }
    if p + 1 >= last {
      p := last;
    }
  }

  /** A scan reaches the first pair of zeros with no insertion; what follows the pair decides about one. */
  lemma {:induction false} ScanToPair(s: seq<Byte>, from: nat, p: nat, zeros: nat)
    requires from <= p && p + 2 < |s| && s[p] == 0 && s[p + 1] == 0
    requires forall i :: from <= i < p ==> s[i] != 0 || s[i + 1] != 0
    requires zeros <= 1 && (zeros == 1 ==> s[from] != 0)
    ensures Insertions(s[from..], zeros) == Insertions(s[p + 2..], 0) + if s[p + 2] <= 3 then 1 else 0
    decreases p - from
  {
    assert s[from..][1..] == s[from + 1..];
    if from < p {
      ScanToPair(s, from + 1, p, ZerosAfter(zeros, s[from]));
    } else {
      assert zeros == 0;
      assert s[p + 1..][1..] == s[p + 2..] && s[p + 2..][1..] == s[p + 3..];
      assert Insertions(s[p..], 0) == Insertions(s[p + 1..], 1) == Insertions(s[p + 2..], 2);
    }
  }

  /** Without a pair of zeros that has a byte behind it, nothing is inserted. */
  lemma {:induction false} ScanWithoutPair(s: seq<Byte>, from: nat, zeros: nat)
    requires from <= |s| && zeros <= 2
    requires forall i :: from <= i && i + 2 < |s| ==> s[i] != 0 || s[i + 1] != 0
    requires zeros >= 1 ==> from + 1 < |s| ==> s[from] != 0
    requires zeros == 2 ==> from == |s|
    ensures Insertions(s[from..], zeros) == 0
    decreases |s| - from
  {
    if from < |s| {
      assert s[from..][1..] == s[from + 1..];
      ScanWithoutPair(s, from + 1, ZerosAfter(zeros, s[from]));
    }
  }

  method CountStartCodeEmulations(rbsp: seq<Byte>) returns (cnt: nat)
    ensures cnt == Insertions(rbsp, 0)
  {
    cnt := 0;
    var it := 0;
    assert rbsp[0..] == rbsp;
    while it != |rbsp|
      invariant it <= |rbsp|
      invariant cnt + Insertions(rbsp[it..], 0) == Insertions(rbsp, 0)
      decreases |rbsp| - it
    {
      var found := it;
      var searching := true;
      while searching
        invariant it <= found <= |rbsp| && (searching ==> found < |rbsp|)
        invariant !searching && found < |rbsp| ==> it < found
        invariant Insertions(rbsp[it..], 0)
               == Insertions(rbsp[found..], 0) + if !searching && found < |rbsp| then 1 else 0
        decreases searching, |rbsp| - found
      {
        var p := SearchTwoZeros(rbsp, found, |rbsp| - 1);
        if p + 1 == |rbsp| {
          ScanWithoutPair(rbsp, found, 0);
          found, searching := p + 1, false;
        } else {
          ScanToPair(rbsp, found, p, 0);
          found := p + 2;
          searching := rbsp[found] > 3;
        }
      }
      it := found;
      if found != |rbsp| {
        cnt := cnt + 1;
      }
    }
  }

  // The writer

  /** The payload loop of write, into a buffer that is allocated up front. */
  method WritePayload(rbsp: seq<Byte>) returns (output: seq<Byte>)
    ensures output == Escape(rbsp, 0)
  {
    var outputBuffer := new Byte[|rbsp| * 2 + 1](i => 0);
    var outputAmount := 0;
    var zeroCount := 0;
    assert rbsp[0..] == rbsp;
    for it := 0 to |rbsp|
      invariant 0 <= zeroCount <= 2 && it <= outputAmount && 2 * outputAmount + zeroCount <= 3 * it
      invariant outputAmount <= outputBuffer.Length
      invariant outputBuffer[..outputAmount] + Escape(rbsp[it..], zeroCount) == Escape(rbsp, 0)
    {
      var v := rbsp[it];
      ghost var start, done := outputAmount, outputBuffer[..outputAmount];
      ghost var inserted: seq<Byte> := if zeroCount == 2 && v <= 3 then [3] else [];
      EscapeStep(done, rbsp[it..], zeroCount);
      assert rbsp[it..][1..] == rbsp[it + 1..];
      if zeroCount == 2 && v <= 3 {
        outputBuffer[outputAmount] := 3;
        outputAmount := outputAmount + 1;
        zeroCount := 0;
      }
      zeroCount := ZerosAfter(zeroCount, v);
      outputBuffer[outputAmount] := v;
      outputAmount := outputAmount + 1;
      assert outputBuffer[..start] == done && outputBuffer[start..outputAmount] == inserted + [v];
      assert outputBuffer[..outputAmount] == done + (inserted + [v]);
    }
    assert rbsp[|rbsp|..] == [];
    if zeroCount > 0 {
      ghost var done := outputBuffer[..outputAmount];
      outputBuffer[outputAmount] := 3;
      outputAmount := outputAmount + 1;
      assert outputBuffer[..outputAmount] == done + [3];
    }
    output := outputBuffer[..outputAmount];
  }

  lemma EscapeStep(done: seq<Byte>, s: seq<Byte>, zeros: nat)
    requires s != [] && zeros <= 2
    ensures zeros == 2 && s[0] <= 3 ==>
              done + Escape(s, zeros) == done + ([3] + [s[0]]) + Escape(s[1..], ZerosAfter(0, s[0]))
    ensures !(zeros == 2 && s[0] <= 3) ==>
              done + Escape(s, zeros) == done + ([] + [s[0]]) + Escape(s[1..], ZerosAfter(zeros, s[0]))
  {
    if zeros == 2 && s[0] <= 3 {
      assert [3] + [s[0]] == [3, s[0]];
      ConcatAssoc(done, [3, s[0]], Escape(s[1..], ZerosAfter(0, s[0])));
    } else {
      assert [] + [s[0]] == [s[0]];
      ConcatAssoc(done, [s[0]], Escape(s[1..], ZerosAfter(zeros, s[0])));
    }
  }

  // What the payload promises

  /** The payload is as long as the RBSP, its insertions, and one more byte exactly when the RBSP ends in zero. */
  lemma {:induction false} EscapeLength(s: seq<Byte>, zeros: nat)
    requires zeros <= 2
    ensures |Escape(s, zeros)| == |s| + Insertions(s, zeros)
                                + if (if s == [] then zeros > 0 else s[|s| - 1] == 0) then 1 else 0
    decreases |s|
  {
    if s != [] {
      EscapeLength(s[1..], if zeros == 2 && s[0] <= 3 then ZerosAfter(0, s[0]) else ZerosAfter(zeros, s[0]));
    }
  }

  ghost predicate NoStartCode(e: seq<Byte>)
  {
    forall i {:trigger e[i]} :: 0 <= i && i + 2 < |e| && e[i] == 0 && e[i + 1] == 0 ==>
      e[i + 2] >= 3 && (e[i + 2] == 3 && i + 3 < |e| ==> e[i + 3] <= 3)
  }

  function ZeroRun(n: nat): (s: seq<Byte>)
    ensures |s| == n
  {
    seq(n, i => 0 as Byte)
  }

  /** NoStartCode as a scan that has just passed zeros zero bytes. */
  predicate CleanFrom(e: seq<Byte>, zeros: nat)
  {
    e == [] ||
    (&& (zeros >= 2 ==> e[0] >= 3 && (e[0] == 3 && |e| > 1 ==> e[1] <= 3))
     && CleanFrom(e[1..], ZerosAfter(zeros, e[0])))
  }

  lemma {:induction false} EscapeIsClean(s: seq<Byte>, zeros: nat)
    requires zeros <= 2
    ensures CleanFrom(Escape(s, zeros), zeros)
    ensures Escape(s, zeros) == [] ==> zeros == 0
    ensures Escape(s, zeros) != [] ==> Escape(s, zeros)[|Escape(s, zeros)| - 1] != 0
    decreases |s|
  {
    if s != [] {
      var e := Escape(s, zeros);
      if zeros == 2 && s[0] <= 3 {
        EscapeIsClean(s[1..], ZerosAfter(0, s[0]));
        assert e[1..][1..] == Escape(s[1..], ZerosAfter(0, s[0]));
      } else {
        EscapeIsClean(s[1..], ZerosAfter(zeros, s[0]));
        assert e[1..] == Escape(s[1..], ZerosAfter(zeros, s[0]));
      }
    }
  }

  lemma {:induction false} CleanMeansNoStartCode(e: seq<Byte>, zeros: nat)
    requires zeros <= 2 && CleanFrom(e, zeros)
    ensures NoStartCode(ZeroRun(zeros) + e)
    decreases |e|
  {
    if e != [] {
      if e[0] == 0 {
        CleanMeansNoStartCode(e[1..], zeros + 1);
        assert ZeroRun(zeros) + e == ZeroRun(zeros + 1) + e[1..];
      } else {
        CleanMeansNoStartCode(e[1..], 0);
        NoStartCodeAround(zeros, e);
      }
    }
  }

  lemma NoStartCodeAround(zeros: nat, e: seq<Byte>)
    requires e != [] && e[0] != 0 && zeros <= 2 && NoStartCode(ZeroRun(0) + e[1..])
    requires zeros == 2 ==> e[0] >= 3 && (e[0] == 3 && |e| > 1 ==> e[1] <= 3)
    ensures NoStartCode(ZeroRun(zeros) + e)
  {
    var all, rest := ZeroRun(zeros) + e, ZeroRun(0) + e[1..];
    forall i {:trigger all[i]} | 0 <= i && i + 2 < |all| && all[i] == 0 && all[i + 1] == 0
      ensures all[i + 2] >= 3 && (all[i + 2] == 3 && i + 3 < |all| ==> all[i + 3] <= 3)
    {
      if i > zeros {
        var k := i - zeros - 1;
        assert rest[k] == all[i] && rest[k + 1] == all[i + 1] && rest[k + 2] == all[i + 2];
        assert k + 3 < |rest| ==> rest[k + 3] == all[i + 3];
      } else {
        assert zeros == 2 && i == 0;
      }
    }
  }

  /**
   * The payload has no 0x000000, 0x000001 or 0x000002 at any position, 0x000003 is followed by a byte of
   * at most 3 or by nothing, and the last byte is not zero.
   */
  lemma EscapeHasNoStartCode(s: seq<Byte>)
    ensures NoStartCode(Escape(s, 0))
    ensures s != [] ==> Escape(s, 0) != [] && Escape(s, 0)[|Escape(s, 0)| - 1] != 0
  {
    EscapeIsClean(s, 0);
    CleanMeansNoStartCode(Escape(s, 0), 0);
    assert ZeroRun(0) + Escape(s, 0) == Escape(s, 0);
  }

  /** The decoder's scan, with the number of zeros just passed (two or more count as two) as its state. */
  function UnescapeFrom(e: seq<Byte>, zeros: nat): seq<Byte>
    requires zeros <= 2
  {
    if e == [] then []
    else if zeros == 2 && e[0] == 3 then UnescapeFrom(e[1..], 0)
    else [e[0]] + UnescapeFrom(e[1..], if e[0] != 0 then 0 else if zeros == 2 then 2 else zeros + 1)
  }

  lemma UnescapeFromStep(e: seq<Byte>, zeros: nat)
    requires zeros <= 2 && e != []
    ensures zeros == 2 && e[0] == 3 ==> UnescapeFrom(e, zeros) == UnescapeFrom(e[1..], 0)
    ensures e[0] != 0 && !(zeros == 2 && e[0] == 3) ==> UnescapeFrom(e, zeros) == [e[0]] + UnescapeFrom(e[1..], 0)
    ensures e[0] == 0 ==> UnescapeFrom(e, zeros) == [0] + UnescapeFrom(e[1..], if zeros == 2 then 2 else zeros + 1)
  {}

  lemma ZeroRunLaws(zeros: nat, x: Byte, rest: seq<Byte>)
    ensures ZeroRun(zeros) + [x] + rest == ZeroRun(zeros) + ([x] + rest)
    ensures [0] + (ZeroRun(zeros) + rest) == ZeroRun(zeros) + ([0] + rest) == ZeroRun(zeros + 1) + rest
    ensures ZeroRun(0) + rest == rest && rest + [] == rest
  {
    assert ZeroRun(zeros + 1) == ZeroRun(zeros) + [0] == [0] + ZeroRun(zeros);
  }

  lemma UnescapeThirdZero(rest: seq<Byte>)
    ensures Unescape(ZeroRun(2) + ([0] + rest)) == [0] + Unescape(ZeroRun(2) + rest)
  {
    ZeroRunLaws(2, 0, rest);
    UnescapeStep(0, ZeroRun(2) + rest);
  }

  lemma {:induction false} UnescapeState(e: seq<Byte>, zeros: nat)
    requires zeros <= 2
    ensures Unescape(ZeroRun(zeros) + e) == ZeroRun(zeros) + UnescapeFrom(e, zeros)
    decreases |e|
  {
    if e == [] {
      assert UnescapeFrom(e, zeros) == [];
      hide *;
      ZeroRunLaws(zeros, 0, ZeroRun(zeros));
      UnescapeZeros(zeros);
    } else {
      hide *;
      var x, tail := e[0], e[1..];
      assert e == [x] + tail;
      UnescapeFromStep(e, zeros);
      if zeros == 2 && x == 3 {
        UnescapeState(tail, 0);
        UnescapePrevention(e);
        ZeroRunLaws(0, 0, UnescapeFrom(tail, 0));
      } else if x != 0 {
        UnescapeState(tail, 0);
        UnescapePlain(zeros, e);
        ZeroRunLaws(0, 0, tail);
        ZeroRunLaws(0, 0, UnescapeFrom(tail, 0));
        ZeroRunLaws(zeros, x, UnescapeFrom(tail, 0));
      } else if zeros == 2 {
        UnescapeState(tail, 2);
        UnescapeThirdZero(tail);
        ZeroRunLaws(2, 0, UnescapeFrom(tail, 2));
      } else {
        UnescapeState(tail, zeros + 1);
        ZeroRunLaws(zeros, 0, tail);
        ZeroRunLaws(zeros, 0, UnescapeFrom(tail, zeros + 1));
      }
    }
  }

  lemma UnescapePrevention(e: seq<Byte>)
    requires e != [] && e[0] == 3
    ensures Unescape(ZeroRun(2) + e) == ZeroRun(2) + Unescape(ZeroRun(0) + e[1..])
  {
    assert (ZeroRun(2) + e)[3..] == ZeroRun(0) + e[1..];
    assert ZeroRun(2) == [0, 0];
  }

  lemma UnescapeStep(x: Byte, rest: seq<Byte>)
    requires !(x == 0 && |rest| >= 2 && rest[0] == 0 && rest[1] == 3)
    ensures Unescape([x] + rest) == [x] + Unescape(rest)
  {
    assert ([x] + rest)[1..] == rest;
  }

  lemma UnescapeZeros(zeros: nat)
    requires zeros <= 2
    ensures Unescape(ZeroRun(zeros)) == ZeroRun(zeros)
  {
    if zeros == 2 {
      assert ZeroRun(2)[1..] == ZeroRun(1) && ZeroRun(1)[1..] == [];
    }
  }

  lemma UnescapePlain(zeros: nat, e: seq<Byte>)
    requires zeros <= 2 && e != [] && e[0] != 0 && (zeros == 2 ==> e[0] != 3)
    ensures Unescape(ZeroRun(zeros) + e) == ZeroRun(zeros) + [e[0]] + Unescape(e[1..])
  {
    hide Unescape;
    assert e == [e[0]] + e[1..];
    UnescapeStep(e[0], e[1..]);
    UnescapeStep(0, e);
    if zeros == 0 {
      assert ZeroRun(0) + e == e;
    } else if zeros == 1 {
      assert ZeroRun(1) + e == [0] + e;
    } else {
      UnescapeStep(0, [0] + e);
      assert ZeroRun(2) + e == [0] + ([0] + e);
    }
  }

  /** What the decoder makes of the payload: the RBSP, followed by 0x03 when the scan ends after one zero. */
  function EndState(s: seq<Byte>, zeros: nat): nat
    requires zeros <= 2
  {
    if s == [] then zeros
    else EndState(s[1..], if zeros == 2 && s[0] <= 3 then ZerosAfter(0, s[0]) else ZerosAfter(zeros, s[0]))
  }

  lemma UnescapeFromDrop(rest: seq<Byte>)
    ensures UnescapeFrom([3] + rest, 2) == UnescapeFrom(rest, 0)
  {
    assert ([3] + rest)[1..] == rest;
  }

  lemma UnescapeFromKeep(x: Byte, rest: seq<Byte>, zeros: nat)
    requires zeros <= 1 || (zeros == 2 && x > 3)
    ensures UnescapeFrom([x] + rest, zeros) == [x] + UnescapeFrom(rest, ZerosAfter(zeros, x))
  {
    assert ([x] + rest)[1..] == rest;
  }

  lemma {:induction false} UnescapeEscape(s: seq<Byte>, zeros: nat)
    requires zeros <= 2
    ensures UnescapeFrom(Escape(s, zeros), zeros) == s + if EndState(s, zeros) == 1 then [3] else []
    decreases |s|
  {
    var e := Escape(s, zeros);
    if s == [] {
      if zeros == 1 { assert UnescapeFrom([3], 1) == [3] + UnescapeFrom([], 0); }
    } else if zeros == 2 && s[0] <= 3 {
      var z := ZerosAfter(0, s[0]);
      UnescapeEscape(s[1..], z);
      assert e == [3] + ([s[0]] + Escape(s[1..], z));
      UnescapeFromDrop([s[0]] + Escape(s[1..], z));
      UnescapeFromKeep(s[0], Escape(s[1..], z), 0);
    } else {
      var z := ZerosAfter(zeros, s[0]);
      UnescapeEscape(s[1..], z);
      UnescapeFromKeep(s[0], Escape(s[1..], z), zeros);
    }
  }

  /** The scan ends after one zero exactly when the number of zeros at the end is odd. */
  lemma {:induction false} EndStateParity(s: seq<Byte>, zeros: nat)
    requires zeros <= 2
    ensures var run := TrailingZeros(s) + if TrailingZeros(s) == |s| then zeros else 0;
            EndState(s, zeros) == if run == 0 then 0 else if run % 2 == 1 then 1 else 2
    decreases |s|
  {
    if s != [] {
      EndStateParity(s[1..], if zeros == 2 && s[0] <= 3 then ZerosAfter(0, s[0]) else ZerosAfter(zeros, s[0]));
      TrailingZerosTail(s);
    }
  }

  lemma {:induction false} TrailingZerosTail(s: seq<Byte>)
    requires s != []
    ensures TrailingZeros(s) == if TrailingZeros(s[1..]) == |s| - 1 && s[0] == 0 then |s| else TrailingZeros(s[1..])
    ensures TrailingZeros(s[1..]) <= |s| - 1
    decreases |s|
  {
    if |s| > 1 {
      assert s[..|s| - 1][1..] == s[1..][..|s| - 2];
      TrailingZerosTail(s[..|s| - 1]);
    }
  }

  /**
   * The decoder recovers the RBSP from the payload exactly when the RBSP ends in an even number of zero bytes;
   * cabac_zero_words come in pairs of zero bytes. Otherwise a 0x03 is left at the end.
   */
  lemma PayloadRoundTrip(rbsp: seq<Byte>)
    ensures Unescape(Escape(rbsp, 0)) == rbsp <==> TrailingZeros(rbsp) % 2 == 0
    ensures TrailingZeros(rbsp) % 2 == 1 ==> Unescape(Escape(rbsp, 0)) == rbsp + [3]
  {
    hide Unescape, UnescapeFrom, Escape, EndState, TrailingZeros;
    UnescapeEscape(rbsp, 0);
    EndStateParity(rbsp, 0);
    UnescapeState(Escape(rbsp, 0), 0);
    assert ZeroRun(0) + Escape(rbsp, 0) == Escape(rbsp, 0);
    assert rbsp + [] == rbsp && |rbsp + [3]| == |rbsp| + 1;
  }
}
