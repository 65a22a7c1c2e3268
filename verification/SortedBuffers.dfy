/** The prediction buffers of the best intra modes: SortedPelUnitBufs of Buffer.h, and how the intra search uses them. */
module SortedBuffers {
  import opened Arithmetic
  import opened CandidateLists

  /** A prediction buffer; what it shows is the mode whose prediction was written into it last. */
  class PelUnitBuf {
    var shows: ModeInfo

    constructor ()
    {
      shows := ModeInfo(false, false, 0, 0, 0);
    }
  }

  class SortedPelUnitBufs {
    const numEntries: nat
    var pacBufs: seq<PelUnitBuf>
    var testBuf: PelUnitBuf?
    var sortedList: seq<PelUnitBuf>

    constructor (numEntries: nat)
      ensures this.numEntries == numEntries && Pool() && sortedList == [] && testBuf == null
      ensures forall b :: b in pacBufs ==> fresh(b)
    {
      this.numEntries := numEntries;
      pacBufs, testBuf, sortedList := [], null, [];
      new;
      for i := 0 to numEntries + 1
        invariant |pacBufs| == i && sortedList == [] && testBuf == null
        invariant forall j :: 0 <= j < i ==> fresh(pacBufs[j])
        invariant forall j, k :: 0 <= j < k < i ==> pacBufs[j] != pacBufs[k]
      {
        var b := new PelUnitBuf();
        pacBufs := pacBufs + [b];
      }
    }

    /** The buffers that were created: one more than the list can hold, all different. */
    ghost predicate Pool()
      reads this`pacBufs
    {
      |pacBufs| == numEntries + 1 && forall j, k :: 0 <= j < k < |pacBufs| ==> pacBufs[j] != pacBufs[k]
    }

    /** The test buffer and the listed ones are different members of the pool. */
    ghost predicate Ready()
      reads this
    {
      Pool() && testBuf != null && DistinctMembers(pacBufs, [testBuf] + sortedList)
    }

    method Prepare(numModes: nat) returns (ok: bool)
      requires Pool()
      modifies `sortedList, `testBuf
      ensures ok <==> numModes <= numEntries
      ensures ok ==> Ready() && sortedList == pacBufs[..numModes] && testBuf == pacBufs[numModes]
      ensures !ok ==> sortedList == old(sortedList) && testBuf == old(testBuf)
    {
      if numModes > numEntries {
        return false;
      }
      sortedList := pacBufs[..numModes];
      testBuf := pacBufs[numModes];
      return true;
    }

    method ReduceTo(numModes: nat) returns (ok: bool)
      requires Ready()
      modifies `sortedList
      ensures Ready() && (ok <==> numModes <= old(|sortedList|))
      ensures sortedList == if ok then old(sortedList[..numModes]) else old(sortedList)
    {
      if numModes > |sortedList| {
        return false;
      }
      PrefixKeepsDistinct(pacBufs, sortedList, numModes, testBuf);
      sortedList := sortedList[..numModes];
      return true;
    }

    method Swap(pos1: nat, pos2: nat) returns (ok: bool)
      requires Ready()
      modifies `sortedList
      ensures Ready() && (ok <==> pos1 < old(|sortedList|) && pos2 < old(|sortedList|))
      ensures sortedList == if ok then Swapped(old(sortedList), pos1, pos2) else old(sortedList)
    {
      if pos1 >= |sortedList| || pos2 >= |sortedList| {
        return false;
      }
      SwappedKeepsDistinct(pacBufs, sortedList, pos1, pos2, testBuf);
      sortedList := sortedList[pos1 := sortedList[pos2]][pos2 := sortedList[pos1]];
      return true;
    }

    /**
     * The test buffer becomes entry insertPos, the entries behind it move back by one, and the last of the rdListSize
     * entries becomes the new test buffer.
     */
    method Insert(insertPos: int, rdListSize: nat)
      requires Ready() && rdListSize <= |sortedList| && -1 <= insertPos < |sortedList|
      modifies `sortedList, `testBuf
      ensures Ready()
      ensures insertPos == -1 ==> sortedList == old(sortedList) && testBuf == old(testBuf)
      ensures var last := LastMoved(insertPos, rdListSize);
              insertPos >= 0 ==>
                && testBuf == old(sortedList)[last]
                && sortedList == MovedBack<PelUnitBuf>(old(sortedList), insertPos, last, old(testBuf))
    {
      if insertPos != -1 {
        ghost var was, last := sortedList, LastMoved(insertPos, rdListSize);
        ghost var previous: PelUnitBuf := testBuf;
        hide DistinctMembers, MovedBack, Pool;
        MovedBackKeepsDistinct(pacBufs, was, insertPos, last, previous);
        MoveToFront(insertPos, rdListSize);
        MovedBackAt(was, insertPos, last, was[last], previous);
        var test: PelUnitBuf := testBuf;
        testBuf := sortedList[insertPos];
        sortedList := sortedList[insertPos := test];
      }
    }

    /** Neighbours are exchanged from the back until the last of the rdListSize entries is at the position. */
    method MoveToFront(insertPos: nat, rdListSize: nat)
      requires insertPos < |sortedList| && rdListSize <= |sortedList|
      modifies `sortedList
      ensures var was, last := old(sortedList), LastMoved(insertPos, rdListSize);
              sortedList == MovedBack(was, insertPos, last, was[last])
    {
      ghost var was, last := sortedList, LastMoved(insertPos, rdListSize);
      hide MovedBack;
      var i := rdListSize - 1;
      MovedBackStep(was, last, last, was[last]);
      while i > insertPos
        invariant insertPos <= i <= last || (i < insertPos == last)
        invariant sortedList == MovedBack(was, if i > insertPos then i else insertPos, last, was[last])
      {
        MovedBackStep(was, i, last, was[last]);
        sortedList := sortedList[i - 1 := sortedList[i]][i := sortedList[i - 1]];
        i := i - 1;
      }
    }
  }

  ghost predicate DistinctMembers(pool: seq<PelUnitBuf>, bufs: seq<PelUnitBuf>)
  {
    && (forall k :: 0 <= k < |bufs| ==> bufs[k] in pool)
    && forall j, k :: 0 <= j < k < |bufs| ==> bufs[j] != bufs[k]
  }

  function LastMoved(insertPos: int, rdListSize: int): int
  {
    if rdListSize - 1 > insertPos then rdListSize - 1 else insertPos
  }

  /** A new entry at position p, the ones from there back to last - 1 moved back by one, entry last gone. */
  function MovedBack<T>(list: seq<T>, p: nat, last: nat, x: T): (r: seq<T>)
    requires p <= last < |list|
    ensures |r| == |list|
  {
    list[..p] + [x] + list[p..last] + list[last + 1..]
  }

  /** Exchanging two neighbours takes the moving entry one place to the front. */
  lemma MovedBackStep<T>(list: seq<T>, i: nat, last: nat, x: T)
    requires i <= last < |list|
    ensures x == list[last] && i == last ==> MovedBack(list, i, last, x) == list
    ensures var s := MovedBack(list, i, last, x);
            i > 0 ==> s[i - 1 := s[i]][i := s[i - 1]] == MovedBack(list, i - 1, last, x)
  {}

  lemma MovedBackAt<T>(list: seq<T>, p: nat, last: nat, x: T, y: T)
    requires p <= last < |list|
    ensures MovedBack(list, p, last, x)[p] == x && MovedBack(list, p, last, x)[p := y] == MovedBack(list, p, last, y)
  {}

  /** Choosing different entries of different members again gives different members. */
  lemma ChosenAreDistinct(pool: seq<PelUnitBuf>, was: seq<PelUnitBuf>, now: seq<PelUnitBuf>, cameFrom: int -> int)
    requires DistinctMembers(pool, was)
    requires forall k :: 0 <= k < |now| ==> 0 <= cameFrom(k) < |was| && now[k] == was[cameFrom(k)]
    requires forall j, k :: 0 <= j < k < |now| ==> cameFrom(j) != cameFrom(k)
    ensures DistinctMembers(pool, now)
  {}

  lemma MovedBackKeepsDistinct(pool: seq<PelUnitBuf>, list: seq<PelUnitBuf>, p: nat, last: nat, test: PelUnitBuf)
    requires p <= last < |list| && DistinctMembers(pool, [test] + list)
    ensures DistinctMembers(pool, [list[last]] + MovedBack(list, p, last, test))
  {
    hide DistinctMembers;
    ChosenAreDistinct(pool, [test] + list, [list[last]] + MovedBack(list, p, last, test),
                      k => if k == 0 then last + 1 else if k == p + 1 then 0 else if p + 1 < k <= last + 1 then k - 1 else k);
  }

  lemma SwappedKeepsDistinct(pool: seq<PelUnitBuf>, list: seq<PelUnitBuf>, i: nat, j: nat, test: PelUnitBuf)
    requires i < |list| && j < |list| && DistinctMembers(pool, [test] + list)
    ensures DistinctMembers(pool, [test] + Swapped(list, i, j))
  {
    hide DistinctMembers;
    ChosenAreDistinct(pool, [test] + list, [test] + Swapped(list, i, j), k => if k == i + 1 then j + 1 else if k == j + 1 then i + 1 else k);
  }

  lemma PrefixKeepsDistinct(pool: seq<PelUnitBuf>, list: seq<PelUnitBuf>, n: nat, test: PelUnitBuf)
    requires n <= |list| && DistinctMembers(pool, [test] + list)
    ensures DistinctMembers(pool, [test] + list[..n])
  {
    hide DistinctMembers;
    ChosenAreDistinct(pool, [test] + list, [test] + list[..n], k => k);
  }

  function Swapped<T>(s: seq<T>, i: nat, j: nat): (r: seq<T>)
    requires i < |s| && j < |s|
    ensures |r| == |s|
  {
    s[i := s[j]][j := s[i]]
  }

  // The search

  /** Buffer k shows the prediction of candidate k. */
  ghost predicate Shown(list: seq<PelUnitBuf>, modes: seq<ModeInfo>)
    reads list
  {
    |modes| <= |list| && forall k :: 0 <= k < |modes| ==> list[k].shows == modes[k]
  }

  /** One mode that is tried: its prediction, its cost, and how many candidates are wanted. */
  datatype Trial = Trial(mode: ModeInfo, cost: real, wanted: nat)

  /** The candidates after all modes tried. */
  function Wanted(run: seq<Trial>): seq<Candidate>
  {
    if run == [] then []
    else
      var t := run[|run| - 1];
      Kept(Wanted(run[..|run| - 1]), Candidate(t.mode, t.cost), t.wanted)
  }

  lemma TestBufIsNotListed(bufs: SortedPelUnitBufs)
    requires bufs.Ready()
    ensures forall k :: 0 <= k < |bufs.sortedList| ==> bufs.sortedList[k] != bufs.testBuf
  {
    var s := [bufs.testBuf] + bufs.sortedList;
    forall k | 0 <= k < |bufs.sortedList| ensures bufs.sortedList[k] != bufs.testBuf {
      assert s[0] != s[k + 1];
    }
  }

  /** What became of the modes when a candidate was kept. */
  lemma KeptModes(modes: seq<ModeInfo>, costs: seq<real>, modes': seq<ModeInfo>, costs': seq<real>, c: Candidate, n: nat)
    requires |modes| == |costs| <= n && |modes'| == |costs'| && Zip(modes', costs') == Kept(Zip(modes, costs), c, n)
    ensures |modes'| <= n
    ensures var p := Position(Take(Zip(modes, costs), n), c.cost);
            && (p == n ==> modes' == modes)
            && (p < n ==> p < |modes'| <= |modes| + 1 && modes' == (modes[..p] + [c.mode] + modes[p..])[..|modes'|])
  {
    var l := Zip(modes, costs);
    var p := Position(Take(l, n), c.cost);
    KeptAt(l, c, n, p);
    hide Position, Kept, Take;
    ModesOf(modes', costs');
    ModesOf(modes, costs);
    hide Zip;
    var l' := Zip(modes', costs');
    if p == n {
      SameModes(l', l, modes', modes);
    } else {
      assert l' == (l[..p] + [c] + l[p..])[..|l'|];
      PutModes(l', l, modes', modes, p, c);
    }
  }

  lemma SameModes(l': seq<Candidate>, l: seq<Candidate>, modes': seq<ModeInfo>, modes: seq<ModeInfo>)
    requires l' == l && |l'| == |modes'| && |l| == |modes|
    requires forall k :: 0 <= k < |l'| ==> l'[k].mode == modes'[k]
    requires forall k :: 0 <= k < |l| ==> l[k].mode == modes[k]
    ensures modes' == modes
  {}

  lemma PutModes(l': seq<Candidate>, l: seq<Candidate>, modes': seq<ModeInfo>, modes: seq<ModeInfo>, p: nat, c: Candidate)
    requires |l'| == |modes'| <= |modes| + 1 && |l| == |modes| && p <= |l|
    requires forall k :: 0 <= k < |l'| ==> l'[k].mode == modes'[k]
    requires forall k :: 0 <= k < |l| ==> l[k].mode == modes[k]
    requires l' == (l[..p] + [c] + l[p..])[..|l'|]
    ensures modes' == (modes[..p] + [c.mode] + modes[p..])[..|modes'|]
  {
    forall k | 0 <= k < |modes'| ensures modes'[k] == (modes[..p] + [c.mode] + modes[p..])[k] {
      assert l'[k] == (l[..p] + [c] + l[p..])[k];
    }
  }

  lemma ModesOf(modes: seq<ModeInfo>, costs: seq<real>)
    requires |modes| == |costs|
    ensures |Zip(modes, costs)| == |modes| && forall k :: 0 <= k < |modes| ==> Zip(modes, costs)[k].mode == modes[k]
  {}

  lemma ShownAfterInsert(list: seq<PelUnitBuf>, test: PelUnitBuf, modes: seq<ModeInfo>, modes': seq<ModeInfo>, p: nat, mode: ModeInfo)
    requires Shown(list, modes) && test.shows == mode && p <= |modes| && p < |modes'| <= |modes| + 1 && |modes'| <= |list|
    requires modes' == (modes[..p] + [mode] + modes[p..])[..|modes'|]
    ensures Shown(MovedBack(list, p, |modes'| - 1, test), modes')
  {}

  /** A mode is predicted into the test buffer, and the buffer goes where the mode goes. */
  method TryMode(bufs: SortedPelUnitBufs, list: CandList, t: Trial)
    requires bufs.Ready() && list.Valid() && Shown(bufs.sortedList, list.modes)
    requires |list.modes| <= t.wanted <= |bufs.sortedList|
    modifies bufs`sortedList, bufs`testBuf, bufs.testBuf, list
    ensures bufs.Ready() && list.Valid() && Shown(bufs.sortedList, list.modes) && |bufs.sortedList| == old(|bufs.sortedList|)
    ensures list.Contents() == Kept(old(list.Contents()), Candidate(t.mode, t.cost), t.wanted) && |list.modes| <= t.wanted
  {
    hide Position, Kept, Zip, MovedBack;
    bufs.testBuf.shows := t.mode;
    TestBufIsNotListed(bufs);
    ghost var modes, costs, entries := list.modes, list.costs, bufs.sortedList;
    ghost var test: PelUnitBuf := bufs.testBuf;
    assert Shown(entries, modes);
    var _, insertPos := list.Update(t.mode, t.cost, t.wanted);
    KeptModes(modes, costs, list.modes, list.costs, Candidate(t.mode, t.cost), t.wanted);
    assert Shown(entries, modes);
    bufs.Insert(insertPos, |list.modes|);
    assert Shown(entries, modes);
    if insertPos >= 0 {
      ShownAfterInsert(entries, test, modes, list.modes, insertPos, t.mode);
      assert bufs.sortedList == MovedBack<PelUnitBuf>(entries, insertPos, |list.modes| - 1, test);
    }
  }

  /** The number of wanted candidates never shrinks during a search and never exceeds the prepared buffers. */
  ghost predicate Growing(run: seq<Trial>, numModes: nat)
  {
    && (forall i :: 0 <= i < |run| ==> run[i].wanted <= numModes)
    && forall i, j :: 0 <= i < j < |run| ==> run[i].wanted <= run[j].wanted
  }

  /** After any search, buffer k shows the prediction of candidate k, and the candidates are the wanted ones. */
  method Search(bufs: SortedPelUnitBufs, list: CandList, run: seq<Trial>, numModes: nat)
    requires bufs.Pool() && numModes <= bufs.numEntries && Growing(run, numModes)
    requires list.Valid() && list.modes == []
    modifies bufs`sortedList, bufs`testBuf, bufs.pacBufs, list
    ensures bufs.Ready() && |bufs.sortedList| == numModes
    ensures list.Valid() && list.Contents() == Wanted(run)
    ensures Shown(bufs.sortedList, list.modes)
  {
    var _ := bufs.Prepare(numModes);
    hide Kept, Zip;
    assert list.Contents() == [];
    for i := 0 to |run|
      invariant bufs.Ready() && |bufs.sortedList| == numModes
      invariant list.Valid() && list.Contents() == Wanted(run[..i]) && Shown(bufs.sortedList, list.modes)
      invariant |list.modes| <= if i == 0 then 0 else run[i - 1].wanted
    {
      assert run[..i + 1][..i] == run[..i];
      TestBufInPool(bufs);
      TryMode(bufs, list, run[i]);
    }
    assert run[..|run|] == run;
  }

  lemma TestBufInPool(bufs: SortedPelUnitBufs)
    requires bufs.Ready()
    ensures bufs.testBuf in bufs.pacBufs
  {
    assert ([bufs.testBuf] + bufs.sortedList)[0] == bufs.testBuf;
  }

  function Candidates(run: seq<Trial>): (l: seq<Candidate>)
    ensures |l| == |run|
  {
    seq(|run|, i requires 0 <= i < |run| => Candidate(run[i].mode, run[i].cost))
  }

  /** With n candidates wanted throughout, the search ends with the first n of the stable sort of all modes tried by cost. */
  lemma {:induction false} WantedAreCheapest(run: seq<Trial>, n: nat)
    requires forall i :: 0 <= i < |run| ==> run[i].wanted == n
    ensures Wanted(run) == Take(Sorted(Candidates(run)), n)
    decreases |run|
  {
    if run != [] {
      var before, t := run[..|run| - 1], run[|run| - 1];
      var c := Candidate(t.mode, t.cost);
      assert Wanted(run) == Kept(Wanted(before), c, n);
      assert Sorted(Candidates(run)) == Insert(Sorted(Candidates(before)), c) by {
        assert Candidates(run)[..|run| - 1] == Candidates(before);
      }
      hide Sorted, Insert, Kept, Wanted, Ordered, Candidates;
      WantedAreCheapest(before, n);
      SortedIsStableSort(Candidates(before));
      InsertIntoPrefix(Sorted(Candidates(before)), c, n);
      KeptOfShort(Wanted(before), c, n);
    }
  }

  lemma KeptOfShort(l: seq<Candidate>, c: Candidate, n: nat)
    requires |l| <= n
    ensures Kept(l, c, n) == Take(Insert(l, c), n)
  {}

  // Dropping candidates

  lemma {:induction false} IncreasingAtLeast(idx: seq<nat>, size: nat, k: nat)
    requires Increasing(idx, size) && k < |idx|
    ensures k <= idx[k] < size && (k > 0 ==> idx[k - 1] < idx[k])
  {
    if k > 0 { IncreasingAtLeast(idx, size, k - 1); }
  }

  lemma SwappedAt<T>(s: seq<T>, i: nat, j: nat)
    requires i < |s| && j < |s|
    ensures forall k :: 0 <= k < |s| ==> Swapped(s, i, j)[k] == if k == i then s[j] else if k == j then s[i] else s[k]
  {}

  method FindMode(modes: seq<ModeInfo>, from: nat, mode: ModeInfo, ghost at: nat) returns (j: nat)
    requires from <= at < |modes| && modes[at] == mode
    requires forall k :: from <= k < at ==> modes[k] != mode
    ensures j == at
  {
    j := from;
    while j < |modes| && mode != modes[j]
      invariant from <= j <= at
    {
      j := j + 1;
    }
  }

  /**
   * Brings the buffers of the chosen candidates to the front and drops the others. The exchanges look the modes up in the
   * old list of modes, which is not exchanged along; the buffers are still the right ones, because the chosen candidates
   * are in the order of the old list and no mode occurs twice.
   */
  method KeepBuffers(bufs: SortedPelUnitBufs, candModeList: seq<ModeInfo>, chosen: seq<ModeInfo>, ghost idx: seq<nat>)
    requires bufs.Ready() && Shown(bufs.sortedList, candModeList)
    requires forall j, k :: 0 <= j < k < |candModeList| ==> candModeList[j] != candModeList[k]
    requires Increasing(idx, |candModeList|) && |idx| == |chosen|
    requires forall k :: 0 <= k < |idx| ==> chosen[k] == candModeList[idx[k]]
    modifies bufs`sortedList
    ensures bufs.Ready() && |bufs.sortedList| == |chosen| && Shown(bufs.sortedList, chosen)
  {
    NothingChosenYet(bufs.sortedList, candModeList, idx);
    hide SortedPelUnitBufs.Ready, Increasing, Swapped, InFront, Shown;
    for i := 0 to |chosen|
      invariant bufs.Ready() && |bufs.sortedList| == old(|bufs.sortedList|)
      invariant InFront(bufs.sortedList, candModeList, idx, i)
    {
      BringToFront(bufs.sortedList, candModeList, idx, i);
      if chosen[i] != candModeList[i] {
        var j := FindMode(candModeList, i + 1, chosen[i], idx[i]);
        var _ := bufs.Swap(i, j);
      }
    }
    AllChosen(bufs.sortedList, candModeList, idx, chosen);
    var _ := bufs.ReduceTo(|chosen|);
  }

  lemma NothingChosenYet(list: seq<PelUnitBuf>, modes: seq<ModeInfo>, idx: seq<nat>)
    requires Shown(list, modes) && Increasing(idx, |modes|)
    ensures InFront(list, modes, idx, 0)
  {}

  lemma AllChosen(list: seq<PelUnitBuf>, modes: seq<ModeInfo>, idx: seq<nat>, chosen: seq<ModeInfo>)
    requires InFront(list, modes, idx, |idx|) && |chosen| == |idx|
    requires forall k :: 0 <= k < |idx| ==> idx[k] < |modes| && chosen[k] == modes[idx[k]]
    ensures |chosen| <= |list| && Shown(list[..|chosen|], chosen)
  {
    if |idx| > 0 { IncreasingAtLeast(idx, |modes|, |idx| - 1); }
  }

  /** The first i chosen candidates are in front, and the buffers behind the last of them are where they were. */
  ghost predicate InFront(list: seq<PelUnitBuf>, modes: seq<ModeInfo>, idx: seq<nat>, i: nat)
    reads list
  {
    && i <= |idx| && |modes| <= |list| && Increasing(idx, |modes|)
    && (forall k :: 0 <= k < i ==> k <= idx[k] && list[k].shows == modes[idx[k]])
    && forall k :: (if i == 0 then 0 else idx[i - 1] + 1) <= k < |modes| ==> list[k].shows == modes[k]
  }

  lemma BringToFront(list: seq<PelUnitBuf>, modes: seq<ModeInfo>, idx: seq<nat>, i: nat)
    requires InFront(list, modes, idx, i) && i < |idx|
    ensures i <= idx[i] < |modes| && InFront(Swapped(list, i, idx[i]), modes, idx, i + 1)
    ensures idx[i] == i ==> Swapped(list, i, idx[i]) == list
  {
    IncreasingAtLeast(idx, |modes|, i);
    hide Increasing;
    SwappedAt(list, i, idx[i]);
  }
}
