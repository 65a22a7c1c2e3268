/** The stack algorithm of stackcollapse-chrome-tracing.py. */
module TraceCollapse {
  import opened Arithmetic

  /** An event's name, start and duration, in exact numbers. */
  datatype Span = Span(name: string, start: real, dur: real)
  {
    function Stop(): real { start + dur }
  }

  /** One call of save_stack: the events on the stack, by position in the list, and the top one's remaining time. */
  datatype Saved = Saved(chain: seq<nat>, self: real)

  /** The positions on the stack, the time each has left, and what has been saved so far. */
  datatype State = State(stack: seq<nat>, totals: seq<real>, log: seq<Saved>)

  predicate InRange(spans: seq<Span>, s: State)
  {
    |s.totals| == |s.stack| && forall k :: 0 <= k < |s.stack| ==> s.stack[k] < |spans|
  }

  function Last<T>(s: seq<T>): T
    requires s != []
  {
    s[|s| - 1]
  }

  function Init<T>(s: seq<T>): seq<T>
    requires s != []
  {
    s[..|s| - 1]
  }

  function SaveAndPop(s: State): State
    requires s.stack != [] && |s.totals| == |s.stack|
  {
    State(Init(s.stack), Init(s.totals), s.log + [Saved(s.stack, Last(s.totals))])
  }

  /** Pops every event that has ended by time t. */
  function PopEnded(spans: seq<Span>, s: State, t: real): (r: State)
    requires InRange(spans, s)
    ensures InRange(spans, r)
    decreases |s.stack|
  {
    if s.stack != [] && spans[Last(s.stack)].Stop() <= t then PopEnded(spans, SaveAndPop(s), t) else s
  }

  /** Pushes event i, taking its duration from the event below it. */
  function Push(spans: seq<Span>, s: State, i: nat): (r: State)
    requires InRange(spans, s) && i < |spans|
    ensures InRange(spans, r)
  {
    var totals := if s.stack == [] then [] else Init(s.totals) + [Last(s.totals) - spans[i].dur];
    State(s.stack + [i], totals + [spans[i].dur], s.log)
  }

  /** The state after the first n events. */
  function Run(spans: seq<Span>, n: nat): (r: State)
    requires n <= |spans|
    ensures InRange(spans, r)
    decreases n, 0
  {
    if n == 0 then State([], [], []) else Push(spans, Before(spans, n - 1), n - 1)
  }

  /** The state in which event i is pushed. */
  function Before(spans: seq<Span>, i: nat): (r: State)
    requires i < |spans|
    ensures InRange(spans, r)
    decreases i, 1
  {
    PopEnded(spans, Run(spans, i), spans[i].start)
  }

  function Drain(s: State): (r: State)
    requires |s.totals| == |s.stack|
    ensures r.stack == []
    decreases |s.stack|
  {
    if s.stack == [] then s else Drain(SaveAndPop(s))
  }

  /** Everything that is saved for a list of events, in order. */
  function Collapse(spans: seq<Span>): seq<Saved>
  {
    Drain(Run(spans, |spans|)).log
  }

  function Sum(xs: seq<real>): real
  {
    if xs == [] then 0.0 else Sum(Init(xs)) + Last(xs)
  }

  function SelfSum(log: seq<Saved>): real
  {
    if log == [] then 0.0 else SelfSum(Init(log)) + Last(log).self
  }

  // Conservation, for any input

  /** The durations of those of the first n events that find the stack empty. */
  function RootTime(spans: seq<Span>, n: nat): real
    requires n <= |spans|
  {
    if n == 0 then 0.0
    else RootTime(spans, n - 1) + (if Before(spans, n - 1).stack == [] then spans[n - 1].dur else 0.0)
  }

  function Held(s: State): real
  {
    SelfSum(s.log) + Sum(s.totals)
  }

  lemma SaveKeepsTime(s: State)
    requires s.stack != [] && |s.totals| == |s.stack|
    ensures Held(SaveAndPop(s)) == Held(s)
  {
    assert Init(s.log + [Saved(s.stack, Last(s.totals))]) == s.log;
  }

  lemma {:induction false} PopKeepsTime(spans: seq<Span>, s: State, t: real)
    requires InRange(spans, s)
    ensures Held(PopEnded(spans, s, t)) == Held(s)
    decreases |s.stack|
  {
    if s.stack != [] && spans[Last(s.stack)].Stop() <= t {
      hide Held, SaveAndPop;
      SaveKeepsTime(s);
      PopKeepsTime(spans, SaveAndPop(s), t);
    }
  }

  lemma {:induction false} DrainKeepsTime(s: State)
    requires |s.totals| == |s.stack|
    ensures Held(Drain(s)) == Held(s)
    ensures Drain(s).totals == []
    decreases |s.stack|
  {
    if s.stack != [] {
      SaveKeepsTime(s);
      DrainKeepsTime(SaveAndPop(s));
    }
  }

  lemma SumAppend(xs: seq<real>, x: real)
    ensures Sum(xs + [x]) == Sum(xs) + x
  {
    assert Init(xs + [x]) == xs;
  }

  lemma PushTime(spans: seq<Span>, s: State, i: nat)
    requires InRange(spans, s) && i < |spans|
    ensures Held(Push(spans, s, i)) == Held(s) + (if s.stack == [] then spans[i].dur else 0.0)
  {
    if s.stack == [] {
      SumAppend([], spans[i].dur);
    } else {
      var below := Last(s.totals) - spans[i].dur;
      SumAppend(Init(s.totals), below);
      SumAppend(Init(s.totals) + [below], spans[i].dur);
    }
  }

  lemma {:induction false} RunTime(spans: seq<Span>, n: nat)
    requires n <= |spans|
    ensures Held(Run(spans, n)) == RootTime(spans, n)
  {
    if n > 0 {
      hide Push, PopEnded, Held, Last, Init, SaveAndPop;
      var b := Before(spans, n - 1);
      assert Held(b) == RootTime(spans, n - 1) by {
        RunTime(spans, n - 1);
        PopKeepsTime(spans, Run(spans, n - 1), spans[n - 1].start);
      }
      assert Run(spans, n) == Push(spans, b, n - 1);
      hide Run, Before;
      PushTime(spans, b, n - 1);
    } else {
      assert Held(State([], [], [])) == 0.0;
    }
  }

  /** Whatever the events, the saved self times add up to the durations of the events pushed on an empty stack. */
  lemma Conservation(spans: seq<Span>)
    ensures SelfSum(Collapse(spans)) == RootTime(spans, |spans|)
  {
    RunTime(spans, |spans|);
    DrainKeepsTime(Run(spans, |spans|));
  }

  // Nesting

  predicate Contains(outer: Span, inner: Span)
  {
    outer.start <= inner.start && inner.Stop() <= outer.Stop()
  }

  predicate Disjoint(a: Span, b: Span)
  {
    a.Stop() <= b.start || b.Stop() <= a.start
  }

  /** Positive durations, sorted by start as load_events leaves them, any two events nested or disjoint. */
  ghost predicate Laminar(spans: seq<Span>)
  {
    && (forall i :: 0 <= i < |spans| ==> spans[i].dur > 0.0)
    && (forall i, j :: 0 <= i < j < |spans| ==> spans[i].start <= spans[j].start)
    && (forall i, j :: 0 <= i < j < |spans| ==>
         Disjoint(spans[i], spans[j]) || Contains(spans[i], spans[j]) || Contains(spans[j], spans[i]))
  }

  /** Of two events with the same start, the earlier one in the list is not the shorter one. */
  ghost predicate OutermostFirst(spans: seq<Span>)
  {
    forall i, j :: 0 <= i < j < |spans| && spans[i].start == spans[j].start ==> spans[j].dur <= spans[i].dur
  }

  /** Event j encloses event i; of two equal events the one earlier in the list encloses the other. */
  predicate Encloses(spans: seq<Span>, j: nat, i: nat)
    requires i < |spans| && j < |spans|
  {
    && j != i
    && Contains(spans[j], spans[i])
    && (spans[j].start == spans[i].start && spans[j].dur == spans[i].dur ==> j < i)
  }

  /** Event p is the innermost event that encloses event i. */
  ghost predicate IsParent(spans: seq<Span>, p: nat, i: nat)
    requires i < |spans| && p < |spans|
  {
    && Encloses(spans, p, i)
    && forall q: nat :: q < |spans| && q != p && Encloses(spans, q, i) ==> Encloses(spans, q, p)
  }

  /** The durations of those of the first n events whose parent is p. */
  ghost function ChildTime(spans: seq<Span>, p: nat, n: nat): real
    requires p < |spans| && n <= |spans|
  {
    if n == 0 then 0.0
    else ChildTime(spans, p, n - 1) + if IsParent(spans, p, n - 1) then spans[n - 1].dur else 0.0
  }

  /** The chain lists, in list order, exactly the events enclosing its last one, and then that event. */
  ghost predicate IsEnclosingChain(spans: seq<Span>, chain: seq<nat>)
  {
    && chain != [] && Last(chain) < |spans|
    && (forall k, l :: 0 <= k < l < |chain| ==> chain[k] < chain[l])
    && (forall k :: 0 <= k < |chain| - 1 ==> chain[k] < |spans| && Encloses(spans, chain[k], Last(chain)))
    && (forall q: nat :: q < |spans| && Encloses(spans, q, Last(chain)) ==> q in Init(chain))
  }

  /** A correct line: the enclosing chain, and the time not spent in direct children, which is not negative. */
  ghost predicate GoodEntry(spans: seq<Span>, e: Saved)
  {
    && IsEnclosingChain(spans, e.chain)
    && e.self == spans[Last(e.chain)].dur - ChildTime(spans, Last(e.chain), |spans|)
    && e.self >= 0.0
  }

  /** The event at k on the stack has at least the time left that lies behind the event above it. */
  predicate TimeLeft(spans: seq<Span>, s: State, k: nat)
    requires InRange(spans, s) && k + 1 < |s.stack|
  {
    s.totals[k] >= spans[s.stack[k]].Stop() - spans[s.stack[k + 1]].Stop()
  }

  /**
   * What holds while events are popped before event i, which starts at t: the stack is nested, each event on it
   * has at least the time behind the event above it left, the top one at least the time behind t, and every
   * event that left the stack has ended by t.
   */
  ghost predicate Nested(spans: seq<Span>, s: State, n: nat, t: real)
  {
    && InRange(spans, s) && n <= |spans| && Increasing(s.stack, n)
    && (forall k, l :: 0 <= k < l < |s.stack| ==> Encloses(spans, s.stack[k], s.stack[l]))
    && (forall k :: 0 <= k < |s.stack| - 1 ==> TimeLeft(spans, s, k))
    && (s.stack != [] ==> Last(s.totals) >= 0.0 && Last(s.totals) >= spans[Last(s.stack)].Stop() - t)
    && (forall j: nat :: j < n && j !in s.stack ==> spans[j].Stop() <= t)
  }

  ghost predicate PrefixIsChain(spans: seq<Span>, stack: seq<nat>, k: nat)
    requires k < |stack|
  {
    IsEnclosingChain(spans, stack[..k + 1])
  }

  /** What has been saved and what the totals mean, after n events. */
  ghost predicate Accounted(spans: seq<Span>, s: State, n: nat)
  {
    && InRange(spans, s) && n <= |spans|
    && (forall k :: 0 <= k < |s.stack| ==> s.totals[k] == spans[s.stack[k]].dur - ChildTime(spans, s.stack[k], n))
    && (forall k :: 0 <= k < |s.stack| ==> PrefixIsChain(spans, s.stack, k))
    && (forall e :: e in s.log ==> GoodEntry(spans, e))
  }

  /** An event that has ended before all later ones start gets no more children. */
  lemma {:induction false} NoLaterChildren(spans: seq<Span>, p: nat, n: nat, m: nat)
    requires Laminar(spans) && p < |spans| && n <= m <= |spans|
    requires n < |spans| ==> spans[p].Stop() <= spans[n].start
    ensures ChildTime(spans, p, m) == ChildTime(spans, p, n)
    decreases m
  {
    if n < m {
      NoLaterChildren(spans, p, n, m - 1);
      assert spans[n].start <= spans[m - 1].start;
    }
  }

  lemma InitOrLast(s: seq<nat>)
    requires s != []
    ensures forall x :: x in s <==> x in Init(s) || x == Last(s)
  {
    assert s == Init(s) + [Last(s)];
  }

  lemma SaveNested(spans: seq<Span>, s: State, n: nat, t: real)
    requires Nested(spans, s, n, t) && s.stack != [] && spans[Last(s.stack)].Stop() <= t
    ensures Nested(spans, SaveAndPop(s), n, t)
  {
    hide Encloses, Increasing;
    var r := SaveAndPop(s);
    InitOrLast(s.stack);
    IncreasingInit(s.stack, n);
    forall k | 0 <= k < |r.stack| - 1
      ensures TimeLeft(spans, r, k)
    {
      assert TimeLeft(spans, s, k);
    }
    if r.stack != [] {
      TopHasTimeLeft(spans, s, t);
    }
  }

  lemma IncreasingInit(s: seq<nat>, n: nat)
    requires s != [] && Increasing(s, n)
    ensures Increasing(Init(s), n)
  {}

  /** When the top event has ended and is saved, the one below has the time behind it left. */
  lemma TopHasTimeLeft(spans: seq<Span>, s: State, t: real)
    requires InRange(spans, s) && |s.stack| > 1 && spans[Last(s.stack)].Stop() <= t
    requires Encloses(spans, s.stack[|s.stack| - 2], s.stack[|s.stack| - 1]) && TimeLeft(spans, s, |s.stack| - 2)
    ensures var r := SaveAndPop(s);
            Last(r.totals) >= 0.0 && Last(r.totals) >= spans[Last(r.stack)].Stop() - t
  {}

  lemma SaveAccounted(spans: seq<Span>, s: State, n: nat, t: real)
    requires Laminar(spans) && Nested(spans, s, n, t) && Accounted(spans, s, n)
    requires s.stack != [] && spans[Last(s.stack)].Stop() <= t
    requires n < |spans| ==> t == spans[n].start
    ensures Accounted(spans, SaveAndPop(s), n)
  {
    hide Encloses, Contains, ChildTime, IsParent, Laminar, IsEnclosingChain, Increasing;
    var k, r := |s.stack| - 1, SaveAndPop(s);
    NoLaterChildren(spans, s.stack[k], n, |spans|);
    assert PrefixIsChain(spans, s.stack, k) && s.stack[..k + 1] == s.stack;
    assert GoodEntry(spans, Saved(s.stack, Last(s.totals)));
    forall m | 0 <= m < |r.stack|
      ensures PrefixIsChain(spans, r.stack, m)
    {
      assert PrefixIsChain(spans, s.stack, m) && r.stack[..m + 1] == s.stack[..m + 1];
    }
  }

  lemma {:induction false} PopSteps(spans: seq<Span>, s: State, n: nat, t: real)
    requires Laminar(spans) && n < |spans| && t == spans[n].start
    requires Nested(spans, s, n, t) && Accounted(spans, s, n)
    ensures var r := PopEnded(spans, s, t);
            Nested(spans, r, n, t) && Accounted(spans, r, n) && (r.stack != [] ==> spans[Last(r.stack)].Stop() > t)
    decreases |s.stack|
  {
    if s.stack != [] && spans[Last(s.stack)].Stop() <= t {
      SaveNested(spans, s, n, t);
      SaveAccounted(spans, s, n, t);
      PopSteps(spans, SaveAndPop(s), n, t);
    }
  }

  /** After the pops, the stack holds exactly the events that enclose the next one. */
  lemma StackEncloses(spans: seq<Span>, s: State, n: nat)
    requires Laminar(spans) && OutermostFirst(spans) && n < |spans| && Nested(spans, s, n, spans[n].start)
    requires s.stack != [] ==> spans[Last(s.stack)].Stop() > spans[n].start
    ensures forall q: nat :: q < |spans| ==> (Encloses(spans, q, n) <==> q in s.stack)
  {
    forall q: nat | q < |spans|
      ensures Encloses(spans, q, n) <==> q in s.stack
    {
      if q in s.stack {
        var k :| 0 <= k < |s.stack| && s.stack[k] == q;
        assert k < |s.stack| - 1 ==> Encloses(spans, q, Last(s.stack));
        assert spans[q].Stop() > spans[n].start && q < n;
      } else if q < n {
        assert spans[q].Stop() <= spans[n].start;
      }
    }
  }

  /** The top of the stack is the parent of the next event, and nothing else is. */
  lemma TopIsParent(spans: seq<Span>, s: State, n: nat, p: nat)
    requires n < |spans| && p < |spans| && InRange(spans, s)
    requires forall q: nat :: q < |spans| ==> (Encloses(spans, q, n) <==> q in s.stack)
    requires forall k, l :: 0 <= k < l < |s.stack| ==> Encloses(spans, s.stack[k], s.stack[l])
    ensures IsParent(spans, p, n) <==> s.stack != [] && p == Last(s.stack)
  {
    if s.stack != [] {
      var top := Last(s.stack);
      assert top in s.stack;
      forall q: nat | q < |spans| && q != top && Encloses(spans, q, n)
        ensures Encloses(spans, q, top)
      {
        var k :| 0 <= k < |s.stack| && s.stack[k] == q;
      }
      if p in s.stack && p != top {
        assert Encloses(spans, p, top);
        assert !Encloses(spans, top, p);
      }
    }
  }

  lemma PushChain(spans: seq<Span>, s: State, n: nat)
    requires n < |spans| && InRange(spans, s) && Increasing(s.stack, n)
    requires forall k, l :: 0 <= k < l < |s.stack| ==> Encloses(spans, s.stack[k], s.stack[l])
    requires forall q :: q in s.stack ==> Encloses(spans, q, n)
    ensures Increasing(s.stack + [n], n + 1)
    ensures forall k, l :: 0 <= k < l < |s.stack| + 1 ==> Encloses(spans, (s.stack + [n])[k], (s.stack + [n])[l])
  {
    hide Encloses;
    var r, m := s.stack + [n], |s.stack|;
    forall k, l | 0 <= k < l < |r|
      ensures Encloses(spans, r[k], r[l]) && r[k] < r[l]
    {
      assert r[k] == s.stack[k] && s.stack[k] in s.stack;
      if l < m { assert r[l] == s.stack[l]; }
    }
  }

  lemma PushNested(spans: seq<Span>, s: State, n: nat, t: real)
    requires Laminar(spans) && n < |spans| && Nested(spans, s, n, spans[n].start) && t >= spans[n].start
    requires forall q :: q in s.stack ==> Encloses(spans, q, n)
    ensures Nested(spans, Push(spans, s, n), n + 1, t)
  {
    hide Encloses, Disjoint, Contains, Increasing;
    var r, m := Push(spans, s, n), |s.stack|;
    PushChain(spans, s, n);
    assert r.stack[m] == n && r.totals[m] == spans[n].dur > 0.0;
    forall k | 0 <= k < |r.stack| - 1
      ensures TimeLeft(spans, r, k)
    {
      if k + 1 < m {
        assert TimeLeft(spans, s, k);
        assert r.totals[k] == s.totals[k] && r.stack[k + 1] == s.stack[k + 1];
      } else {
        assert r.totals[k] == s.totals[k] - spans[n].dur;
      }
    }
    forall j: nat | j < n + 1 && j !in r.stack
      ensures spans[j].Stop() <= t
    {
      assert n in r.stack && forall x :: x in s.stack ==> x in r.stack;
      assert j < n && j !in s.stack;
    }
  }

  lemma NotSelfEnclosing(spans: seq<Span>, n: nat)
    requires n < |spans|
    ensures !Encloses(spans, n, n) && !IsParent(spans, n, n)
  {}

  lemma PushAccounted(spans: seq<Span>, s: State, n: nat)
    requires n < |spans| && Increasing(s.stack, n) && Accounted(spans, s, n) && ChildTime(spans, n, n) == 0.0
    requires forall q: nat :: q < |spans| ==> (Encloses(spans, q, n) <==> q in s.stack)
    requires forall k, l :: 0 <= k < l < |s.stack| ==> Encloses(spans, s.stack[k], s.stack[l])
    ensures Accounted(spans, Push(spans, s, n), n + 1)
  {
    hide Contains, Encloses, GoodEntry, IsParent;
    var r := Push(spans, s, n);
    var m := |s.stack|;
    forall k | 0 <= k < |r.stack|
      ensures r.totals[k] == spans[r.stack[k]].dur - ChildTime(spans, r.stack[k], n + 1)
    {
      TopIsParent(spans, s, n, r.stack[k]);
      if k == m { NotSelfEnclosing(spans, n); }
    }
    assert Init(r.stack) == s.stack && Last(r.stack) == n;
    assert forall k :: 0 <= k < |s.stack| ==> s.stack[k] in s.stack;
    assert IsEnclosingChain(spans, r.stack);
    forall k | 0 <= k < |r.stack|
      ensures PrefixIsChain(spans, r.stack, k)
    {
      if k < m {
        assert PrefixIsChain(spans, s.stack, k) && r.stack[..k + 1] == s.stack[..k + 1];
      } else {
        assert r.stack[..k + 1] == r.stack;
      }
    }
  }

  /** No event is enclosed by one later in the list. */
  lemma {:induction false} NoEarlyChildren(spans: seq<Span>, p: nat, n: nat)
    requires Laminar(spans) && OutermostFirst(spans) && n <= p < |spans|
    ensures ChildTime(spans, p, n) == 0.0
  {
    if n > 0 {
      NoEarlyChildren(spans, p, n - 1);
      assert spans[n - 1].start <= spans[p].start;
    }
  }

  lemma {:induction false} RunNested(spans: seq<Span>, n: nat, t: real)
    requires Laminar(spans) && OutermostFirst(spans) && n <= |spans|
    requires n > 0 ==> t >= spans[n - 1].start
    ensures Nested(spans, Run(spans, n), n, t) && Accounted(spans, Run(spans, n), n)
    decreases n, 0
  {
    if n > 0 {
      var i := n - 1;
      BeforeNested(spans, i);
      NoEarlyChildren(spans, i, i);
      PushNested(spans, Before(spans, i), i, t);
      PushAccounted(spans, Before(spans, i), i);
    }
  }

  lemma {:induction false} BeforeNested(spans: seq<Span>, i: nat)
    requires Laminar(spans) && OutermostFirst(spans) && i < |spans|
    ensures Nested(spans, Before(spans, i), i, spans[i].start) && Accounted(spans, Before(spans, i), i)
    ensures forall q: nat :: q < |spans| ==> (Encloses(spans, q, i) <==> q in Before(spans, i).stack)
    decreases i, 1
  {
    RunNested(spans, i, spans[i].start);
    PopSteps(spans, Run(spans, i), i, spans[i].start);
    StackEncloses(spans, Before(spans, i), i);
  }

  /** The rest of the stack, saved at the end, is correct too. */
  lemma {:induction false} DrainGood(spans: seq<Span>, s: State, t: real)
    requires Laminar(spans) && Nested(spans, s, |spans|, t) && Accounted(spans, s, |spans|)
    requires forall k :: 0 <= k < |s.stack| ==> spans[s.stack[k]].Stop() <= t
    ensures forall e :: e in Drain(s).log ==> GoodEntry(spans, e)
    decreases |s.stack|
  {
    if s.stack != [] {
      SaveNested(spans, s, |spans|, t);
      SaveAccounted(spans, s, |spans|, t);
      DrainGood(spans, SaveAndPop(s), t);
    }
  }

  // Every event is saved once, under the stack it was pushed on

  function Tops(log: seq<Saved>): seq<nat>
    requires forall e :: e in log ==> e.chain != []
  {
    seq(|log|, k requires 0 <= k < |log| => Last(log[k].chain))
  }

  function Positions(n: nat): seq<nat>
  {
    seq(n, i => i)
  }

  /** Saved and stacked events are the first n, each once; each chain is an event on top of the stack it found. */
  ghost predicate Complete(spans: seq<Span>, s: State, n: nat)
  {
    && InRange(spans, s) && n <= |spans|
    && (forall e :: e in s.log ==> e.chain != [] && PushedOn(spans, e.chain))
    && (forall k :: 0 <= k < |s.stack| ==> PrefixPushed(spans, s.stack, k))
    && multiset(Tops(s.log)) + multiset(s.stack) == multiset(Positions(n))
  }

  predicate PushedOn(spans: seq<Span>, chain: seq<nat>)
    requires chain != []
  {
    Last(chain) < |spans| && Before(spans, Last(chain)).stack == Init(chain)
  }

  predicate PrefixPushed(spans: seq<Span>, stack: seq<nat>, k: nat)
    requires k < |stack|
  {
    PushedOn(spans, stack[..k + 1])
  }

  lemma SaveComplete(spans: seq<Span>, s: State, n: nat)
    requires Complete(spans, s, n) && s.stack != []
    ensures Complete(spans, SaveAndPop(s), n)
  {
    hide PushedOn, SelfSum, Sum, Drain, Run, PopEnded;
    var r, k := SaveAndPop(s), |s.stack| - 1;
    assert PrefixPushed(spans, s.stack, k) && s.stack[..k + 1] == s.stack;
    assert s.stack == r.stack + [Last(s.stack)];
    assert Tops(r.log) == Tops(s.log) + [Last(s.stack)];
    forall m | 0 <= m < |r.stack|
      ensures PrefixPushed(spans, r.stack, m)
    {
      assert PrefixPushed(spans, s.stack, m) && r.stack[..m + 1] == s.stack[..m + 1];
    }
  }

  lemma {:induction false} PopComplete(spans: seq<Span>, s: State, n: nat, t: real)
    requires Complete(spans, s, n)
    ensures Complete(spans, PopEnded(spans, s, t), n)
    decreases |s.stack|
  {
    if s.stack != [] && spans[Last(s.stack)].Stop() <= t {
      SaveComplete(spans, s, n);
      PopComplete(spans, SaveAndPop(s), n, t);
    }
  }

  lemma {:induction false} DrainComplete(spans: seq<Span>, s: State, n: nat)
    requires Complete(spans, s, n)
    ensures Complete(spans, Drain(s), n)
    decreases |s.stack|
  {
    if s.stack != [] {
      SaveComplete(spans, s, n);
      DrainComplete(spans, SaveAndPop(s), n);
    }
  }

  lemma PushedNext(spans: seq<Span>, n: nat)
    requires n < |spans|
    ensures Run(spans, n + 1).stack == Before(spans, n).stack + [n] && Run(spans, n + 1).log == Before(spans, n).log
    ensures PushedOn(spans, Before(spans, n).stack + [n])
  {
    hide PopEnded, InRange;
    assert Init(Before(spans, n).stack + [n]) == Before(spans, n).stack;
  }

  lemma PushComplete(spans: seq<Span>, n: nat)
    requires n < |spans| && Complete(spans, Before(spans, n), n)
    ensures Complete(spans, Run(spans, n + 1), n + 1)
  {
    hide PopEnded, PushedOn, Run, Before, Push, Last, Init;
    var s, r := Before(spans, n), Run(spans, n + 1);
    PushedNext(spans, n);
    assert Positions(n + 1) == Positions(n) + [n];
    forall m | 0 <= m < |r.stack|
      ensures PrefixPushed(spans, r.stack, m)
    {
      if m < |s.stack| {
        assert PrefixPushed(spans, s.stack, m) && r.stack[..m + 1] == s.stack[..m + 1];
      } else {
        assert r.stack[..m + 1] == r.stack;
      }
    }
  }

  lemma BeforeComplete(spans: seq<Span>, n: nat)
    requires n < |spans| && Complete(spans, Run(spans, n), n)
    ensures Complete(spans, Before(spans, n), n)
  {
    PopComplete(spans, Run(spans, n), n, spans[n].start);
  }

  lemma {:induction false} RunComplete(spans: seq<Span>, n: nat)
    requires n <= |spans|
    ensures Complete(spans, Run(spans, n), n)
  {
    if n > 0 {
      hide Complete, Run, Before;
      RunComplete(spans, n - 1);
      BeforeComplete(spans, n - 1);
      PushComplete(spans, n - 1);
    } else {
      assert Tops([]) == [] && Positions(0) == [];
    }
  }

  /** Whatever the events, each one is saved exactly once, under the stack it was pushed on. */
  lemma SavedOnce(spans: seq<Span>)
    ensures forall e :: e in Collapse(spans) ==> e.chain != [] && PushedOn(spans, e.chain)
    ensures multiset(Tops(Collapse(spans))) == multiset(Positions(|spans|))
  {
    RunComplete(spans, |spans|);
    DrainComplete(spans, Run(spans, |spans|), |spans|);
  }

  lemma SavedEntry(spans: seq<Span>, i: nat) returns (e: Saved)
    requires i < |spans|
    ensures e in Collapse(spans) && e.chain != [] && Last(e.chain) == i && Init(e.chain) == Before(spans, i).stack
  {
    SavedOnce(spans);
    var log := Collapse(spans);
    assert Positions(|spans|)[i] == i;
    assert i in multiset(Tops(log));
    var k :| 0 <= k < |Tops(log)| && Tops(log)[k] == i;
    e := log[k];
  }

  lemma {:induction false} PopKeeps(spans: seq<Span>, s: State, t: real, i: nat)
    requires InRange(spans, s) && i in s.stack && i < |spans| && spans[i].Stop() > t
    ensures i in PopEnded(spans, s, t).stack
    decreases |s.stack|
  {
    if spans[Last(s.stack)].Stop() <= t {
      var k :| 0 <= k < |s.stack| && s.stack[k] == i;
      assert Init(s.stack)[k] == i;
      PopKeeps(spans, SaveAndPop(s), t, i);
    }
  }

  /** An event that has not ended stays on the stack. */
  lemma PushedLast(spans: seq<Span>, j: nat)
    requires 0 < j <= |spans|
    ensures Run(spans, j).stack == Before(spans, j - 1).stack + [j - 1]
    ensures forall i :: i in Run(spans, j).stack <==> i in Before(spans, j - 1).stack || i == j - 1
  {
    hide Before;
  }

  lemma {:induction false} StaysOnStack(spans: seq<Span>, i: nat, j: nat)
    requires Laminar(spans) && i < j < |spans| && spans[i].Stop() > spans[j].start
    ensures i in Before(spans, j).stack
    decreases j
  {
    assert spans[j - 1].start <= spans[j].start;
    assert Before(spans, j) == PopEnded(spans, Run(spans, j), spans[j].start);
    hide Push, PopEnded, Run, Before, SaveAndPop;
    PushedLast(spans, j);
    if i + 1 < j {
      StaysOnStack(spans, i, j - 1);
    }
    PopKeeps(spans, Run(spans, j), spans[j].start, i);
  }

  /**
   * For sorted events of positive length, pairwise nested or disjoint: every event is saved under exactly the
   * chain of events enclosing it if and only if the list has the outermost of events with the same start first.
   * Sorting by start alone, as load_events does, does not ensure that.
   */
  lemma ChainsAreEnclosing(spans: seq<Span>)
    requires Laminar(spans)
    ensures (forall e :: e in Collapse(spans) ==> IsEnclosingChain(spans, e.chain)) <==> OutermostFirst(spans)
  {
    if OutermostFirst(spans) {
      EntriesAreGood(spans);
    } else {
      var i, j :| 0 <= i < j < |spans| && spans[i].start == spans[j].start && spans[j].dur > spans[i].dur;
      StaysOnStack(spans, i, j);
      var e := SavedEntry(spans, j);
      var k :| 0 <= k < |Init(e.chain)| && Init(e.chain)[k] == i;
      assert e.chain[k] == i && !Encloses(spans, i, j);
    }
  }

  lemma EntriesAreGood(spans: seq<Span>)
    requires Laminar(spans) && OutermostFirst(spans)
    ensures forall e :: e in Collapse(spans) ==> GoodEntry(spans, e)
  {
    var n := |spans|;
    if n > 0 {
      var s := Run(spans, n);
      var t := spans[s.stack[0]].Stop();
      assert Last(s.stack) == n - 1;
      RunNested(spans, n, spans[n - 1].start);
      assert |s.stack| > 1 ==> Encloses(spans, s.stack[0], s.stack[|s.stack| - 1]);
      RunNested(spans, n, t);
      forall k | 0 <= k < |s.stack|
        ensures spans[s.stack[k]].Stop() <= t
      {
        if k > 0 { assert Encloses(spans, s.stack[0], s.stack[k]); }
      }
      DrainGood(spans, s, t);
    }
  }

  // Negative times

  /** Some event on the stack or in the log is left with less than no time. */
  ghost predicate Negative(s: State)
  {
    (exists k :: 0 <= k < |s.totals| && s.totals[k] < 0.0) || (exists e :: e in s.log && e.self < 0.0)
  }

  lemma SaveKeepsNegative(s: State)
    requires s.stack != [] && |s.totals| == |s.stack| && Negative(s)
    ensures Negative(SaveAndPop(s))
  {
    var r := SaveAndPop(s);
    if k :| 0 <= k < |s.totals| && s.totals[k] < 0.0 {
      if k < |r.totals| {
        assert r.totals[k] < 0.0;
      } else {
        assert r.log[|s.log|].self < 0.0;
      }
    } else {
      var e :| e in s.log && e.self < 0.0;
      assert e in r.log;
    }
  }

  lemma {:induction false} PopKeepsNegative(spans: seq<Span>, s: State, t: real)
    requires InRange(spans, s) && Negative(s)
    ensures Negative(PopEnded(spans, s, t))
    decreases |s.stack|
  {
    if s.stack != [] && spans[Last(s.stack)].Stop() <= t {
      hide Negative;
      SaveKeepsNegative(s);
      PopKeepsNegative(spans, SaveAndPop(s), t);
    }
  }

  lemma PushKeepsNegative(spans: seq<Span>, s: State, i: nat)
    requires InRange(spans, s) && i < |spans| && spans[i].dur > 0.0 && Negative(s)
    ensures Negative(Push(spans, s, i))
  {
    var r := Push(spans, s, i);
    if k :| 0 <= k < |s.totals| && s.totals[k] < 0.0 {
      assert r.totals[k] < 0.0;
    }
  }

  lemma {:induction false} RunKeepsNegative(spans: seq<Span>, m: nat, n: nat)
    requires Laminar(spans) && m <= n <= |spans| && Negative(Run(spans, m))
    ensures Negative(Run(spans, n))
    decreases n
  {
    if m < n {
      hide Negative, PopEnded, Push, Run, Before, Laminar, InRange;
      RunKeepsNegative(spans, m, n - 1);
      StepKeepsNegative(spans, n - 1);
    }
  }

  lemma StepKeepsNegative(spans: seq<Span>, i: nat)
    requires Laminar(spans) && i < |spans| && Negative(Run(spans, i))
    ensures Negative(Run(spans, i + 1))
  {
    assert spans[i].dur > 0.0;
    hide Negative, PopEnded, Push, Laminar;
    PopKeepsNegative(spans, Run(spans, i), spans[i].start);
    PushKeepsNegative(spans, Before(spans, i), i);
  }

  lemma {:induction false} DrainKeepsNegative(s: State)
    requires |s.totals| == |s.stack| && Negative(s)
    ensures exists e :: e in Drain(s).log && e.self < 0.0
    decreases |s.stack|
  {
    if s.stack != [] {
      SaveKeepsNegative(s);
      DrainKeepsNegative(SaveAndPop(s));
    }
  }

  /** A longer event directly behind a shorter one of the same start is charged to it at once. */
  lemma ChargedAtOnce(spans: seq<Span>, k: nat)
    requires Laminar(spans) && k + 1 < |spans| && spans[k].start == spans[k + 1].start && spans[k].dur < spans[k + 1].dur
    ensures Negative(Run(spans, k + 2))
  {
    var s := Run(spans, k + 1);
    assert Last(s.stack) == k && Last(s.totals) == spans[k].dur;
    assert Before(spans, k + 1) == s;
    assert Run(spans, k + 2).totals[|s.totals| - 1] == spans[k].dur - spans[k + 1].dur;
  }

  /** Where some pair is out of order, a neighbouring pair is. */
  lemma {:induction false} NeighboursOutOfOrder(spans: seq<Span>, i: nat, j: nat) returns (k: nat)
    requires Laminar(spans) && i < j < |spans| && spans[i].start == spans[j].start && spans[i].dur < spans[j].dur
    ensures k + 1 < |spans| && spans[k].start == spans[k + 1].start && spans[k].dur < spans[k + 1].dur
    decreases j - i
  {
    assert spans[i].start <= spans[i + 1].start <= spans[j].start;
    if spans[i].dur < spans[i + 1].dur {
      k := i;
    } else {
      k := NeighboursOutOfOrder(spans, i + 1, j);
    }
  }

  /**
   * For the same events: self times are never negative if and only if the outermost of equal starts comes first, and
   * exactly then every line is correct, with what the direct children leave of the event.
   */
  lemma SelfTimes(spans: seq<Span>)
    requires Laminar(spans)
    ensures (forall e :: e in Collapse(spans) ==> e.self >= 0.0) <==> OutermostFirst(spans)
    ensures (forall e :: e in Collapse(spans) ==> GoodEntry(spans, e)) <==> OutermostFirst(spans)
  {
    hide Laminar, OutermostFirst, GoodEntry, Collapse;
    GoodIsNonNegative(spans);
    if OutermostFirst(spans) {
      EntriesAreGood(spans);
    } else {
      SomeEntryIsNegative(spans);
    }
  }

  lemma SomeEntryIsNegative(spans: seq<Span>)
    requires Laminar(spans) && !OutermostFirst(spans)
    ensures exists e :: e in Collapse(spans) && e.self < 0.0
  {
    var i, j :| 0 <= i < j < |spans| && spans[i].start == spans[j].start && spans[j].dur > spans[i].dur;
    hide Laminar, OutermostFirst, Negative, Run, Drain;
    var k := NeighboursOutOfOrder(spans, i, j);
    ChargedAtOnce(spans, k);
    RunKeepsNegative(spans, k + 2, |spans|);
    DrainKeepsNegative(Run(spans, |spans|));
  }

  lemma GoodIsNonNegative(spans: seq<Span>)
    ensures forall e :: GoodEntry(spans, e) ==> e.self >= 0.0
  {}

  lemma DrainOne(a: nat, x: real, log: seq<Saved>)
    ensures Drain(State([a], [x], log)).log == log + [Saved([a], x)]
  {
    var s := SaveAndPop(State([a], [x], log));
    assert s == State([], [], log + [Saved([a], x)]);
    assert Drain(s) == s;
  }

  lemma DrainTwo(a: nat, b: nat, x: real, y: real)
    ensures Drain(State([a, b], [x, y], [])).log == [Saved([a, b], y)] + [Saved([a], x)]
  {
    var s := State([a, b], [x, y], []);
    assert SaveAndPop(s) == State([a], [x], [Saved([a, b], y)]);
    assert Drain(s) == Drain(SaveAndPop(s));
    DrainOne(a, x, [Saved([a, b], y)]);
  }

  lemma RunTwo(spans: seq<Span>)
    requires |spans| == 2 && spans[1].start < spans[0].Stop()
    ensures Run(spans, 2) == State([0, 1], [spans[0].dur - spans[1].dur, spans[1].dur], [])
  {
    assert PopEnded(spans, Run(spans, 0), spans[0].start) == Run(spans, 0);
    assert Run(spans, 1) == State([0], [spans[0].dur], []);
    assert PopEnded(spans, Run(spans, 1), spans[1].start) == Run(spans, 1);
    assert Run(spans, 2) == Push(spans, Run(spans, 1), 1);
  }

  lemma PairIsLaminar(first: Span, second: Span)
    requires first.start == second.start && 0.0 < first.dur < second.dur
    ensures Laminar([first, second])
  {
    assert Contains(second, first);
  }

  /** Any two events with the same start in the other order: the shorter one is charged for the longer one. */
  lemma ShorterFirst(first: Span, second: Span)
    requires first.start == second.start && 0.0 < first.dur < second.dur
    ensures Laminar([first, second])
    ensures Saved([0], first.dur - second.dur) in Collapse([first, second])
  {
    var spans := [first, second];
    PairIsLaminar(first, second);
    hide Laminar;
    RunTwo(spans);
    DrainTwo(0, 1, first.dur - second.dur, second.dur);
    hide Run, Drain;
    assert Collapse(spans) == [Saved([0, 1], second.dur)] + [Saved([0], first.dur - second.dur)];
  }
}
