/** The history-based motion vector table of CodingStructure.cpp. */
module MotionHistory {

  datatype Mv = Mv(hor: int, ver: int)

  const MH_NOT_VALID := -1

  /** A motion candidate; refIdx is MH_NOT_VALID for a reference list that is not used. */
  datatype HPMVInfo = HPMVInfo(mv0: Mv, mv1: Mv, refIdx0: int, refIdx1: int, bcwIdx: nat, useAltHpelIf: bool)

  /** The original's operator==: vectors of unused lists, the weight and the half-pel flag do not matter. */
  predicate Matches(a: HPMVInfo, b: HPMVInfo)
  {
    && a.refIdx0 == b.refIdx0 && (a.refIdx0 != MH_NOT_VALID ==> a.mv0 == b.mv0)
    && a.refIdx1 == b.refIdx1 && (a.refIdx1 != MH_NOT_VALID ==> a.mv1 == b.mv1)
  }

  /** The motion that a candidate stands for: vectors of unused lists, the weight and the half-pel flag blanked out. */
  function Motion(m: HPMVInfo): HPMVInfo
  {
    HPMVInfo(if m.refIdx0 < 0 then Mv(0, 0) else m.mv0, if m.refIdx1 < 0 then Mv(0, 0) else m.mv1,
             m.refIdx0, m.refIdx1, 0, false)
  }

  /** Candidates match exactly when they stand for the same motion; so matching is an equivalence. Other indices are not negative. */
  lemma MatchesIsSameMotion(a: HPMVInfo, b: HPMVInfo)
    requires a.refIdx0 >= -1 && a.refIdx1 >= -1 && b.refIdx0 >= -1 && b.refIdx1 >= -1
    ensures Matches(a, b) <==> Motion(a) == Motion(b)
  {}

  predicate Occurs(m: HPMVInfo, s: seq<HPMVInfo>)
  {
    exists i :: 0 <= i < |s| && Matches(s[i], m)
  }

  /** The candidates of a history that do not come again later in it, oldest first. */
  function LastOccurrences(h: seq<HPMVInfo>): seq<HPMVInfo>
  {
    if h == [] then []
    else if Occurs(h[0], h[1..]) then LastOccurrences(h[1..])
    else [h[0]] + LastOccurrences(h[1..])
  }

  /** The last n elements, or all if there are fewer. */
  function Newest(s: seq<HPMVInfo>, n: nat): seq<HPMVInfo>
  {
    if |s| <= n then s else s[|s| - n..]
  }

  ghost predicate NoDuplicates(s: seq<HPMVInfo>)
  {
    forall i, j :: 0 <= i < j < |s| ==> !Matches(s[i], s[j])
  }

  function Without(s: seq<HPMVInfo>, m: HPMVInfo): seq<HPMVInfo>
  {
    if s == [] then []
    else if Matches(s[0], m) then Without(s[1..], m)
    else [s[0]] + Without(s[1..], m)
  }

  lemma OccursCons(m: HPMVInfo, x: HPMVInfo, s: seq<HPMVInfo>)
    ensures Occurs(m, [x] + s) <==> Matches(x, m) || Occurs(m, s)
    ensures Occurs(m, s + [x]) <==> Matches(x, m) || Occurs(m, s)
  {
    var front, back := [x] + s, s + [x];
    if Occurs(m, s) {
      var i :| 0 <= i < |s| && Matches(s[i], m);
      assert Matches(front[i + 1], m) && Matches(back[i], m);
    }
    if Matches(x, m) {
      assert Matches(front[0], m) && Matches(back[|s|], m);
    }
    if Occurs(m, front) {
      var i :| 0 <= i < |front| && Matches(front[i], m);
      assert i > 0 ==> Matches(s[i - 1], m);
    }
    if Occurs(m, back) {
      var i :| 0 <= i < |back| && Matches(back[i], m);
      assert i < |s| ==> Matches(s[i], m);
    }
  }

  /** One more candidate drops its older match and goes to the end. */
  lemma {:induction false} LastOccurrencesStep(h: seq<HPMVInfo>, m: HPMVInfo)
    ensures LastOccurrences(h + [m]) == Without(LastOccurrences(h), m) + [m]
    decreases |h|
  {
    if h == [] {
      assert !Occurs(m, ([] + [m])[1..]);
    } else {
      var x, t := h[0], h[1..];
      assert (h + [m])[0] == x && (h + [m])[1..] == t + [m];
      LastOccurrencesStep(t, m);
      OccursCons(x, m, t);
      if !Occurs(x, t) {
        assert LastOccurrences(h)[1..] == LastOccurrences(t);
      }
    }
  }

  lemma {:induction false} LastOccurrencesDistinct(h: seq<HPMVInfo>)
    ensures NoDuplicates(LastOccurrences(h))
    ensures forall m :: Occurs(m, LastOccurrences(h)) <==> Occurs(m, h)
    decreases |h|
  {
    if h != [] {
      var x, t := h[0], h[1..];
      LastOccurrencesDistinct(t);
      assert h == [x] + t;
      forall m ensures Occurs(m, LastOccurrences(h)) <==> Occurs(m, h)
      {
        OccursCons(m, x, t);
        OccursCons(m, x, LastOccurrences(t));
        if Occurs(x, t) && Matches(x, m) {
          var i :| 0 <= i < |t| && Matches(t[i], x);
          assert Matches(t[i], m);
        }
      }
      if !Occurs(x, t) {
        var r := LastOccurrences(h);
        forall i, j | 0 <= i < j < |r| ensures !Matches(r[i], r[j])
        {
          assert i == 0 ==> r[j] == LastOccurrences(t)[j - 1] && !Occurs(x, LastOccurrences(t));
        }
      }
    }
  }

  lemma {:induction false} WithoutAbsent(s: seq<HPMVInfo>, m: HPMVInfo)
    requires !Occurs(m, s)
    ensures Without(s, m) == s
  {
    if s != [] {
      assert s == [s[0]] + s[1..];
      OccursCons(m, s[0], s[1..]);
      WithoutAbsent(s[1..], m);
    }
  }

  lemma {:induction false} WithoutOne(s: seq<HPMVInfo>, m: HPMVInfo, k: nat)
    requires NoDuplicates(s) && k < |s| && Matches(s[k], m)
    ensures Without(s, m) == s[..k] + s[k + 1..]
    decreases |s|
  {
    if k == 0 {
      forall i | 0 <= i < |s[1..]| ensures !Matches(s[1..][i], m)
      {
        assert !Matches(s[0], s[i + 1]);
      }
      WithoutAbsent(s[1..], m);
    } else {
      assert !Matches(s[0], m) by { assert !Matches(s[0], s[k]); }
      assert s[1..][k - 1] == s[k];
      WithoutOne(s[1..], m, k - 1);
      assert s[1..][..k - 1] == s[1..k] && s[1..][k..] == s[k + 1..];
    }
  }

  lemma NewestOf(p: seq<HPMVInfo>, t: seq<HPMVInfo>, capacity: nat)
    requires |t| == capacity || (|t| < capacity && p == [])
    ensures Newest(p + t, capacity) == t
  {
    if |t| == capacity {
      assert (p + t)[|p|..] == t;
    } else {
      assert p + t == t;
    }
  }

  lemma RemoveInTable<T>(p: seq<T>, t: seq<T>, k: nat, x: T)
    requires k < |t|
    ensures var d, i := p + t, |p| + k;
            d[i] == t[k] && d[..i] + d[i + 1..] + [x] == p + (t[..k] + t[k + 1..] + [x])
  {
    var d, i := p + t, |p| + k;
    assert d[..i] == p + t[..k] && d[i + 1..] == t[k + 1..];
  }

  lemma RemoveBeforeTable<T>(p: seq<T>, t: seq<T>, i: nat, x: T)
    requires i < |p| && t != []
    ensures var d := p + t;
            d[..i] + d[i + 1..] + [x] == p[..i] + p[i + 1..] + [t[0]] + (t[1..] + [x])
  {
    var d := p + t;
    assert d[..i] == p[..i] && d[i + 1..] == p[i + 1..] + t && t == [t[0]] + t[1..];
  }

  /** A history's distinct candidates are those that have left the table and those in it. */
  lemma NewestSplit(d: seq<HPMVInfo>, capacity: nat) returns (p: seq<HPMVInfo>)
    ensures var t := Newest(d, capacity);
            d == p + t && (|t| == capacity || (|t| < capacity && p == []))
  {
    p := d[..|d| - |Newest(d, capacity)|];
  }

  /** The table t has a match: its older entry goes. */
  lemma NewestReplaces(p: seq<HPMVInfo>, t: seq<HPMVInfo>, m: HPMVInfo, capacity: nat, k: nat)
    requires |t| == capacity || (|t| < capacity && p == [])
    requires NoDuplicates(p + t) && k < |t| && Matches(t[k], m)
    ensures Newest(Without(p + t, m) + [m], capacity) == t[..k] + t[k + 1..] + [m]
  {
    hide *;
    RemoveInTable(p, t, k, m);
    WithoutOne(p + t, m, |p| + k);
    NewestOf(p, t[..k] + t[k + 1..] + [m], capacity);
  }

  /** The table t is full and has no match: its oldest entry goes, whether or not an older one matches. */
  lemma NewestShifts(p: seq<HPMVInfo>, t: seq<HPMVInfo>, m: HPMVInfo, capacity: nat)
    requires NoDuplicates(p + t) && capacity > 0 && |t| == capacity && !Occurs(m, t)
    ensures Newest(Without(p + t, m) + [m], capacity) == t[1..] + [m]
  {
    hide NoDuplicates, Matches, Without, Newest;
    var d := p + t;
    if j :| 0 <= j < |p| && Matches(p[j], m) {
      assert d[j] == p[j];
      WithoutOne(d, m, j);
      RemoveBeforeTable(p, t, j, m);
      NewestOf(p[..j] + p[j + 1..] + [t[0]], t[1..] + [m], capacity);
    } else {
      assert forall j :: |p| <= j < |d| ==> d[j] == t[j - |p|];
      WithoutAbsent(d, m);
      assert d + [m] == p + [t[0]] + (t[1..] + [m]);
      NewestOf(p + [t[0]], t[1..] + [m], capacity);
    }
  }

  class MotionTable {
    const capacity: nat
    var lut: seq<HPMVInfo>
    // every candidate added since the table was empty
    ghost var history: seq<HPMVInfo>

    /** The table is the newest part of the history, without repetitions, ordered by last occurrence. */
    ghost predicate Valid()
      reads this
    {
      capacity > 0 && lut == Newest(LastOccurrences(history), capacity)
    }

    constructor (capacity: nat)
      requires capacity > 0
      ensures Valid() && this.capacity == capacity && history == []
    {
      this.capacity, lut, history := capacity, [], [];
    }

    method AddMiToLut(mi: HPMVInfo)
      requires Valid()
      modifies this
      ensures Valid() && history == old(history) + [mi]
    {
      hide LastOccurrences, Without, NoDuplicates, Newest, Matches;
      var currCnt := |lut|;
      var pruned := false;
      var sameCandIdx := 0;
      var idx := 0;
      while idx < currCnt && !pruned
        invariant 0 <= idx <= currCnt && unchanged(this)
        invariant !pruned ==> sameCandIdx == 0 && !Occurs(mi, lut[..idx])
        invariant pruned ==> 0 <= sameCandIdx < currCnt && Matches(lut[sameCandIdx], mi)
        decreases currCnt - idx, !pruned
      {
        if Matches(lut[idx], mi) {
          sameCandIdx := idx;
          pruned := true;
        } else {
          OccursCons(mi, lut[idx], lut[..idx]);
          assert lut[..idx] + [lut[idx]] == lut[..idx + 1];
          idx := idx + 1;
        }
      }
      assert !pruned ==> lut[..idx] == lut;
      LastOccurrencesDistinct(history);
      LastOccurrencesStep(history, mi);
      ghost var p := NewestSplit(LastOccurrences(history), capacity);
      if pruned {
        NewestReplaces(p, lut, mi, capacity, sameCandIdx);
      } else if currCnt == capacity {
        NewestShifts(p, lut, mi, capacity);
      } else {
        WithoutAbsent(lut, mi);
        NewestOf([], lut + [mi], capacity);
        assert [] + (lut + [mi]) == lut + [mi] && p + lut == lut;
      }
      if pruned || currCnt == capacity {
        lut := lut[..sameCandIdx] + lut[sameCandIdx + 1..];
      }
      lut := lut + [mi];
      history := history + [mi];
    }
  }

  /** What the table promises: bounded, no two entries alike, and nothing forgotten before it is full. */
  lemma TableProperties(table: MotionTable)
    requires table.Valid()
    ensures |table.lut| <= table.capacity && NoDuplicates(table.lut)
    ensures |table.lut| < table.capacity ==> forall m :: Occurs(m, table.history) ==> Occurs(m, table.lut)
    ensures table.history != [] ==> table.lut != [] && table.lut[|table.lut| - 1] == table.history[|table.history| - 1]
  {
    var h := table.history;
    LastOccurrencesDistinct(h);
    if h != [] {
      LastOccurrencesStep(h[..|h| - 1], h[|h| - 1]);
      assert h == h[..|h| - 1] + [h[|h| - 1]];
    }
  }
}
