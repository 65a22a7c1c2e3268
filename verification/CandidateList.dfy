/** The list of the best candidates so far: updateCandList of UnitTools.h. */
module CandidateLists {

  datatype ModeInfo = ModeInfo(mipFlg: bool, mipTrFlg: bool, mRefId: nat, ispMod: nat, modeId: nat)

  datatype Candidate = Candidate(mode: ModeInfo, cost: real)

  function Take<T>(s: seq<T>, n: nat): seq<T>
  {
    if |s| <= n then s else s[..n]
  }

  /** Where a candidate belongs: behind the last one that costs no more. */
  function Position(l: seq<Candidate>, cost: real): (p: nat)
    ensures p <= |l|
  {
    if l == [] || l[|l| - 1].cost <= cost then |l| else Position(l[..|l| - 1], cost)
  }

  function Insert(l: seq<Candidate>, c: Candidate): (r: seq<Candidate>)
    ensures |r| == |l| + 1
  {
    var p := Position(l, c.cost);
    l[..p] + [c] + l[p..]
  }

  ghost predicate Ordered(l: seq<Candidate>)
  {
    forall i, j :: 0 <= i < j < |l| ==> l[i].cost <= l[j].cost
  }

  lemma {:induction false} PositionInOrdered(l: seq<Candidate>, cost: real)
    requires Ordered(l)
    ensures forall i :: 0 <= i < Position(l, cost) ==> l[i].cost <= cost
    ensures forall i :: Position(l, cost) <= i < |l| ==> l[i].cost > cost
    decreases |l|
  {
    if l != [] && l[|l| - 1].cost > cost {
      PositionInOrdered(l[..|l| - 1], cost);
    }
  }

  lemma InsertKeepsOrder(l: seq<Candidate>, c: Candidate)
    requires Ordered(l)
    ensures Ordered(Insert(l, c))
  {
    PositionInOrdered(l, c.cost);
    hide Position;
  }

  // Independent definition: sort the whole history by cost, equal costs in the order of their arrival

  function Sorted(history: seq<Candidate>): (l: seq<Candidate>)
    ensures |l| == |history|
  {
    if history == [] then [] else Insert(Sorted(history[..|history| - 1]), history[|history| - 1])
  }

  /** The candidates of one cost, in order. */
  function OfCost(l: seq<Candidate>, cost: real): seq<Candidate>
  {
    if l == [] then []
    else OfCost(l[..|l| - 1], cost) + (if l[|l| - 1].cost == cost then [l[|l| - 1]] else [])
  }

  lemma {:induction false} OfCostAppend(a: seq<Candidate>, b: seq<Candidate>, cost: real)
    ensures OfCost(a + b, cost) == OfCost(a, cost) + OfCost(b, cost)
    decreases |b|
  {
    if b == [] {
      assert a + b == a;
    } else {
      OfCostAppend(a, b[..|b| - 1], cost);
      assert (a + b)[..|a + b| - 1] == a + b[..|b| - 1];
    }
  }

  lemma {:induction false} NoneOfCost(l: seq<Candidate>, cost: real)
    requires forall i :: 0 <= i < |l| ==> l[i].cost != cost
    ensures OfCost(l, cost) == []
    decreases |l|
  {
    if l != [] { NoneOfCost(l[..|l| - 1], cost); }
  }

  lemma OfCostOne(c: Candidate, cost: real)
    ensures OfCost([c], cost) == if c.cost == cost then [c] else []
  {
    assert [c][..0] == [];
  }

  lemma InsertIsStable(l: seq<Candidate>, c: Candidate, cost: real)
    requires Ordered(l)
    ensures OfCost(Insert(l, c), cost) == OfCost(l + [c], cost)
  {
    PositionInOrdered(l, c.cost);
    var front, back := l[..Position(l, c.cost)], l[Position(l, c.cost)..];
    assert l == front + back && Insert(l, c) == front + [c] + back;
    if cost == c.cost {
      NoneOfCost(back, cost);
    }
    MoveBehind(front, c, back, cost);
  }

  /** Moving a candidate behind others of different cost. */
  lemma MoveBehind(front: seq<Candidate>, c: Candidate, back: seq<Candidate>, cost: real)
    requires c.cost == cost ==> OfCost(back, cost) == []
    ensures OfCost(front + [c] + back, cost) == OfCost(front + back + [c], cost)
  {
    OfCostOne(c, cost);
    hide OfCost;
    OfCostAppend(front + [c], back, cost);
    OfCostAppend(front, [c], cost);
    OfCostAppend(front, back, cost);
    OfCostAppend(front + back, [c], cost);
  }

  /** Sorted is the stable sort: ordered by cost, the same candidates, those of equal cost as they came. */
  lemma {:induction false} SortedIsStableSort(history: seq<Candidate>)
    ensures Ordered(Sorted(history))
    ensures multiset(Sorted(history)) == multiset(history)
    ensures forall cost :: OfCost(Sorted(history), cost) == OfCost(history, cost)
    decreases |history|
  {
    if history != [] {
      var before, c := history[..|history| - 1], history[|history| - 1];
      SortedIsStableSort(before);
      InsertKeepsOrder(Sorted(before), c);
      var p := Position(Sorted(before), c.cost);
      assert Sorted(before)[..p] + Sorted(before)[p..] == Sorted(before);
      assert before + [c] == history;
      forall cost ensures OfCost(Sorted(history), cost) == OfCost(history, cost) {
        InsertIsStable(Sorted(before), c, cost);
        OfCostAppend(Sorted(before), [c], cost);
        OfCostAppend(before, [c], cost);
      }
    }
  }

  /** Keeping the n best after every candidate. */
  function Best(history: seq<Candidate>, n: nat): seq<Candidate>
  {
    if history == [] then [] else Take(Insert(Best(history[..|history| - 1], n), history[|history| - 1]), n)
  }

  lemma InsertIntoPrefix(l: seq<Candidate>, c: Candidate, n: nat)
    requires Ordered(l)
    ensures Take(Insert(Take(l, n), c), n) == Take(Insert(l, c), n)
  {
    PositionInOrdered(l, c.cost);
    PositionInOrdered(Take(l, n), c.cost);
    hide Position;
    if |l| > n {
      var m := l[..n];
      var p, q := Position(l, c.cost), Position(m, c.cost);
      assert q < n ==> m[q] == l[q] && m[q].cost > c.cost;
      assert p < n ==> m[p] == l[p] && l[p].cost > c.cost;
      assert q == if p <= n then p else n;
      assert m[..q] == l[..q];
      assert q < n ==> m[q..] == l[q..n] && l[p..] == l[q..n] + l[n..];
    }
  }

  /** The list always holds the n cheapest candidates of the whole history, as a stable sort would order them. */
  lemma {:induction false} BestIsPrefixOfSorted(history: seq<Candidate>, n: nat)
    ensures Best(history, n) == Take(Sorted(history), n)
    decreases |history|
  {
    if history != [] {
      BestIsPrefixOfSorted(history[..|history| - 1], n);
      SortedIsStableSort(history[..|history| - 1]);
      InsertIntoPrefix(Sorted(history[..|history| - 1]), history[|history| - 1], n);
    }
  }

  function Zip(modes: seq<ModeInfo>, costs: seq<real>): (l: seq<Candidate>)
    requires |modes| == |costs|
    ensures |l| == |modes| && forall i :: 0 <= i < |l| ==> l[i] == Candidate(modes[i], costs[i])
  {
    seq(|modes|, i requires 0 <= i < |modes| => Candidate(modes[i], costs[i]))
  }

  /** The first n entries with one more candidate put where it belongs, the n-th of them lost; the rest as it was. */
  function Kept(l: seq<Candidate>, c: Candidate, n: nat): seq<Candidate>
  {
    var first := Take(l, n);
    Take(Insert(first, c), n) + l[|first|..]
  }

  /** A new element at position p. */
  function Put<T>(list: seq<T>, p: nat, x: T): (r: seq<T>)
    requires p <= |list|
    ensures |r| == |list| + 1
  {
    list[..p] + [x] + list[p..]
  }

  /** A new element at position p of the first n, whose last one is lost. */
  function Replaced<T>(list: seq<T>, p: nat, n: nat, x: T): (r: seq<T>)
    requires p < n <= |list|
    ensures |r| == |list|
  {
    list[..p] + [x] + list[p..n - 1] + list[n..]
  }

  /** The two parallel lists that are updated in place. */
  class CandList {
    var modes: seq<ModeInfo>
    var costs: seq<real>

    constructor ()
      ensures modes == [] && costs == [] && Contents() == []
    {
      modes, costs := [], [];
    }

    ghost predicate Valid()
      reads this
    {
      |modes| == |costs|
    }

    ghost function Contents(): (l: seq<Candidate>)
      requires Valid()
      reads this
    {
      Zip(modes, costs)
    }

    /** How many of the first currSize entries, from the back, cost more. */
    method Scan(currSize: nat, cost: real) returns (shift: nat)
      requires Valid() && currSize <= |costs|
      ensures shift <= currSize && Position(Contents()[..currSize], cost) == currSize - shift
    {
      ghost var was := Contents()[..currSize];
      shift := 0;
      assert was[..currSize] == was;
      while shift < currSize && cost < costs[currSize - 1 - shift]
        invariant 0 <= shift <= currSize
        invariant Position(was, cost) == Position(was[..currSize - shift], cost)
      {
        assert was[..currSize - shift][..currSize - shift - 1] == was[..currSize - shift - 1];
        shift := shift + 1;
      }
    }

    /**
     * The first n entries keep the n best: the candidate is put where it belongs, or nowhere (position -1). Entries behind
     * the first n stay as they are.
     */
    method Update(mode: ModeInfo, cost: real, n: nat) returns (inserted: bool, insertPos: int)
      requires Valid()
      modifies this
      ensures Valid()
      ensures Contents() == Kept(old(Contents()), Candidate(mode, cost), n)
      ensures inserted <==> Position(Take(old(Contents()), n), cost) < n
      ensures insertPos == if inserted then Position(Take(old(Contents()), n), cost) else -1
    {
      var currSize := if n < |costs| then n else |costs|;
      var shift := Scan(currSize, cost);
      assert Contents()[..currSize] == Take(Contents(), n);
      hide Position, Zip, Kept, Take, Put, Replaced;
      Inserted(modes, costs, currSize - shift, mode, cost, n);
      if |modes| >= n && shift != 0 {
        modes := ReplaceLast(modes, currSize, shift, mode);
        costs := ReplaceLast(costs, currSize, shift, cost);
        return true, currSize - shift;
      } else if currSize < n {
        modes := Put(modes, |modes| - shift, mode);
        costs := Put(costs, |costs| - shift, cost);
        return true, |modes| - shift - 1;
      }
      return false, -1;
    }
  }

  /** Entries behind the insertion point move back by one, and the last one is lost. */
  method ReplaceLast<T>(list: seq<T>, currSize: nat, shift: nat, x: T) returns (r: seq<T>)
    requires 1 <= shift <= currSize <= |list|
    ensures r == Replaced(list, currSize - shift, currSize, x)
  {
    r := list;
    for i := 1 to shift
      invariant |r| == |list|
      invariant r == list[..currSize - i + 1] + list[currSize - i..currSize - 1] + list[currSize..]
    {
      assert r[currSize - 1 - i] == list[currSize - 1 - i];
      r := r[currSize - i := r[currSize - 1 - i]];
    }
    r := r[currSize - shift := x];
  }

  lemma ZipAppend(a: seq<ModeInfo>, b: seq<real>, a': seq<ModeInfo>, b': seq<real>)
    requires |a| == |b| && |a'| == |b'|
    ensures Zip(a + a', b + b') == Zip(a, b) + Zip(a', b')
  {}

  lemma ZipSlice(a: seq<ModeInfo>, b: seq<real>, lo: nat, hi: nat)
    requires |a| == |b| && lo <= hi <= |a|
    ensures Zip(a[lo..hi], b[lo..hi]) == Zip(a, b)[lo..hi]
  {}

  /** One entry put between two parts of the lists. */
  lemma ZipInsert(a: seq<ModeInfo>, b: seq<real>, p: nat, q: nat, mode: ModeInfo, cost: real)
    requires |a| == |b| && p <= q <= |a|
    ensures Zip(a[..p] + [mode] + a[p..q], b[..p] + [cost] + b[p..q]) == Zip(a, b)[..p] + [Candidate(mode, cost)] + Zip(a, b)[p..q]
  {
    ZipSlice(a, b, 0, p);
    ZipSlice(a, b, p, q);
    ZipAppend(a[..p], b[..p], [mode], [cost]);
    ZipAppend(a[..p] + [mode], b[..p] + [cost], a[p..q], b[p..q]);
    assert Zip([mode], [cost]) == [Candidate(mode, cost)];
    assert a[0..p] == a[..p] && b[0..p] == b[..p] && Zip(a, b)[0..p] == Zip(a, b)[..p];
  }

  /** What insertion at position p does: nothing at the end of a full list, elsewhere in it the last entry is lost. */
  lemma KeptAt(l: seq<Candidate>, c: Candidate, n: nat, p: nat)
    requires p == Position(Take(l, n), c.cost)
    ensures p == n ==> Kept(l, c, n) == l
    ensures p < n <= |l| ==> Kept(l, c, n) == l[..p] + [c] + l[p..n - 1] + l[n..]
    ensures |l| < n ==> Kept(l, c, n) == l[..p] + [c] + l[p..]
  {
    hide Position;
  }

  lemma InsertedInFull(modes: seq<ModeInfo>, costs: seq<real>, p: nat, mode: ModeInfo, cost: real, n: nat)
    requires |modes| == |costs| && p < n <= |modes|
    ensures Zip(Replaced(modes, p, n, mode), Replaced(costs, p, n, cost))
         == Zip(modes, costs)[..p] + [Candidate(mode, cost)] + Zip(modes, costs)[p..n - 1] + Zip(modes, costs)[n..]
  {
    ZipInsert(modes, costs, p, n - 1, mode, cost);
    ZipSlice(modes, costs, n, |modes|);
    assert modes[n..] == modes[n..|modes|] && costs[n..] == costs[n..|costs|];
    ZipAppend(modes[..p] + [mode] + modes[p..n - 1], costs[..p] + [cost] + costs[p..n - 1], modes[n..], costs[n..]);
  }

  lemma InsertedInShort(modes: seq<ModeInfo>, costs: seq<real>, p: nat, mode: ModeInfo, cost: real)
    requires |modes| == |costs| && p <= |modes|
    ensures Zip(Put(modes, p, mode), Put(costs, p, cost))
         == Zip(modes, costs)[..p] + [Candidate(mode, cost)] + Zip(modes, costs)[p..]
  {
    ZipInsert(modes, costs, p, |modes|, mode, cost);
    assert modes[p..] == modes[p..|modes|] && costs[p..] == costs[p..|costs|];
  }

  /** The same for the two lists. */
  lemma Inserted(modes: seq<ModeInfo>, costs: seq<real>, p: nat, mode: ModeInfo, cost: real, n: nat)
    requires |modes| == |costs| && p == Position(Take(Zip(modes, costs), n), cost)
    ensures p == n ==> Kept(Zip(modes, costs), Candidate(mode, cost), n) == Zip(modes, costs)
    ensures p < n <= |modes| ==>
      Kept(Zip(modes, costs), Candidate(mode, cost), n) == Zip(Replaced(modes, p, n, mode), Replaced(costs, p, n, cost))
    ensures |modes| < n ==>
      Kept(Zip(modes, costs), Candidate(mode, cost), n) == Zip(Put(modes, p, mode), Put(costs, p, cost))
  {
    KeptAt(Zip(modes, costs), Candidate(mode, cost), n, p);
    hide *;
    if p < n <= |modes| {
      InsertedInFull(modes, costs, p, mode, cost, n);
    }
    if |modes| < n {
      InsertedInShort(modes, costs, p, mode, cost);
    }
  }
}
