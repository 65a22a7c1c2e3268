/** stackcollapse-chrome-tracing.py as it runs: a stack of events, whose remaining time shrinks, and a dictionary. */
module TraceCollapser {
  import opened Arithmetic
  import opened TraceCollapse

  class Event {
    const name: string
    const timestamp: real
    const duration: real
    var totalDuration: real

    constructor (name: string, timestamp: real, dur: real)
      ensures this.name == name && this.timestamp == timestamp && duration == dur && totalDuration == dur
    {
      this.name, this.timestamp, duration, totalDuration := name, timestamp, dur, dur;
    }

    function GetStopTimestamp(): real
    {
      timestamp + duration
    }
  }

  function SpanOf(e: Event): Span
  {
    Span(e.name, e.timestamp, e.duration)
  }

  function SpansOf(events: seq<Event>): (spans: seq<Span>)
    ensures |spans| == |events|
    ensures forall i :: 0 <= i < |events| ==> spans[i] == SpanOf(events[i])
  {
    seq(|events|, i requires 0 <= i < |events| => SpanOf(events[i]))
  }

  /** The names joined with semicolons. */
  function Join(names: seq<string>): string
  {
    if names == [] then "" else if |names| == 1 then names[0] else Join(Init(names)) + ";" + Last(names)
  }

  /** A line's frames, as flame graph tools cut it up: at every semicolon. */
  function Cut(line: string): (names: seq<string>)
    ensures names != []
  {
    if line == "" then [""]
    else
      var names := Cut(line[..|line| - 1]);
      if Last(line) == ';' then names + [""] else names[..|names| - 1] + [names[|names| - 1] + [Last(line)]]
  }

  lemma {:induction false} CutPlain(name: string)
    requires ';' !in name
    ensures Cut(name) == [name]
  {
    if name != "" {
      CutPlain(Init(name));
      assert Init(name) + [Last(name)] == name;
    }
  }

  lemma {:induction false} CutNextName(line: string, name: string)
    requires ';' !in name
    ensures Cut(line + ";" + name) == Cut(line) + [name]
    decreases |name|
  {
    var whole := line + ";" + name;
    if name == "" {
      assert whole[..|whole| - 1] == line && Last(whole) == ';';
    } else {
      CutNextName(line, Init(name));
      assert whole[..|whole| - 1] == line + ";" + Init(name) && Last(whole) == Last(name);
      assert Init(name) + [Last(name)] == name;
    }
  }

  predicate Plain(names: seq<string>)
  {
    forall i :: 0 <= i < |names| ==> ';' !in names[i]
  }

  /** Cutting a joined identifier gives back the names, exactly when none of them has a semicolon of its own. */
  lemma CutOfJoin(names: seq<string>)
    requires names != []
    ensures Plain(names) <==> Cut(Join(names)) == names
  {
    hide Cut, Join;
    CutHasNoSemicolons(Join(names));
    if Plain(names) {
      CutOfJoinPlain(names);
    }
  }

  lemma PlainFront(names: seq<string>)
    requires names != [] && Plain(names)
    ensures Plain(Init(names)) && ';' !in Last(names) && names == Init(names) + [Last(names)]
  {}

  lemma {:induction false} CutOfJoinPlain(names: seq<string>)
    requires names != [] && Plain(names)
    ensures Cut(Join(names)) == names
  {
    hide Cut, Plain;
    PlainFront(names);
    if |names| == 1 {
      CutPlain(names[0]);
    } else {
      CutOfJoinPlain(Init(names));
      CutNextName(Join(Init(names)), Last(names));
      assert Join(names) == Join(Init(names)) + ";" + Last(names);
    }
  }

  lemma {:induction false} CutHasNoSemicolons(line: string)
    ensures Plain(Cut(line))
  {
    if line != "" {
      CutHasNoSemicolons(line[..|line| - 1]);
    }
  }

  function Names(spans: seq<Span>, chain: seq<nat>): seq<string>
  {
    seq(|chain|, k requires 0 <= k < |chain| => if chain[k] < |spans| then spans[chain[k]].name else "")
  }

  function Identifier(spans: seq<Span>, chain: seq<nat>): string
  {
    Join(Names(spans, chain))
  }

  function Lookup(m: map<string, real>, id: string): real
  {
    if id in m then m[id] else 0.0
  }

  /** The dictionary after all entries of a log have been added to it. */
  function RecordAll(spans: seq<Span>, m: map<string, real>, log: seq<Saved>): map<string, real>
  {
    if log == [] then m
    else
      var before := RecordAll(spans, m, Init(log));
      var id := Identifier(spans, Last(log).chain);
      before[id := Lookup(before, id) + Last(log).self]
  }

  /** The self times of the entries with a given identifier. */
  function TimeUnder(spans: seq<Span>, log: seq<Saved>, id: string): real
  {
    if log == [] then 0.0
    else TimeUnder(spans, Init(log), id) + (if Identifier(spans, Last(log).chain) == id then Last(log).self else 0.0)
  }

  /** Entries with the same identifier are merged: the dictionary has their sum, and no other keys. */
  lemma {:induction false} RecordedTime(spans: seq<Span>, m: map<string, real>, log: seq<Saved>, id: string)
    ensures Lookup(RecordAll(spans, m, log), id) == Lookup(m, id) + TimeUnder(spans, log, id)
    ensures id in RecordAll(spans, m, log) <==> id in m || exists e :: e in log && Identifier(spans, e.chain) == id
    decreases |log|
  {
    if log != [] {
      RecordedTime(spans, m, Init(log), id);
      assert Last(log) in log && forall e :: e in Init(log) ==> e in log;
      assert forall e :: e in log ==> e in Init(log) || e == Last(log) by {
        assert log == Init(log) + [Last(log)];
      }
    }
  }

  lemma RecordOne(spans: seq<Span>, m: map<string, real>, log: seq<Saved>, e: Saved)
    ensures var before := RecordAll(spans, m, log);
            var id := Identifier(spans, e.chain);
            RecordAll(spans, m, log + [e]) == before[id := Lookup(before, id) + e.self]
  {
    assert Init(log + [e]) == log;
  }

  class StackCollapser {
    var stackIdentifiers: map<string, real>

    /** Adds the top event's remaining time under the names of the whole stack. */
    method SaveStack(stack: seq<Event>)
      modifies this
      ensures stack == [] ==> stackIdentifiers == old(stackIdentifiers)
      ensures stack != [] ==>
        var id := Join(seq(|stack|, k requires 0 <= k < |stack| => stack[k].name));
        stackIdentifiers == old(stackIdentifiers)[id := Lookup(old(stackIdentifiers), id) + Last(stack).totalDuration]
    {
      ghost var names := seq(|stack|, k requires 0 <= k < |stack| => stack[k].name);
      var first := true;
      var identifier := "";
      for k := 0 to |stack|
        invariant first == (k == 0) && identifier == Join(names[..k])
      {
        if first {
          first := false;
        } else {
          identifier := identifier + ";";
        }
        identifier := identifier + stack[k].name;
        assert Init(names[..k + 1]) == names[..k];
      }
      assert names[..|stack|] == names;
      if stack == [] {
        return;
      }
      var event := stack[|stack| - 1];
      if identifier in stackIdentifiers {
        stackIdentifiers := stackIdentifiers[identifier := stackIdentifiers[identifier] + event.totalDuration];
      } else {
        stackIdentifiers := stackIdentifiers[identifier := event.totalDuration];
      }
    }

    /** The events on the stack are those at the positions of s, with the times of s left. */
    ghost predicate Represents(events: seq<Event>, stack: seq<Event>, s: State, n: nat)
      reads stack
    {
      && n <= |events| && |stack| == |s.stack| == |s.totals| && Increasing(s.stack, n)
      && (forall k :: 0 <= k < |stack| ==> stack[k] == events[s.stack[k]] && stack[k].totalDuration == s.totals[k])
    }

    /** Saves the top of the stack and pops it. */
    method SaveAndPopEvent(events: seq<Event>, stack: seq<Event>, ghost s: State, ghost n: nat,
                           ghost start: map<string, real>) returns (rest: seq<Event>)
      requires stack != [] && Represents(events, stack, s, n)
      requires stackIdentifiers == RecordAll(SpansOf(events), start, s.log)
      modifies this
      ensures Represents(events, rest, SaveAndPop(s), n)
      ensures stackIdentifiers == RecordAll(SpansOf(events), start, SaveAndPop(s).log)
    {
      ghost var spans := SpansOf(events);
      assert seq(|stack|, k requires 0 <= k < |stack| => stack[k].name) == Names(spans, s.stack);
      RecordOne(spans, start, s.log, Saved(s.stack, Last(s.totals)));
      SaveStack(stack);
      rest := stack[..|stack| - 1];
    }

    /** Pops the events that have ended by time t. */
    method PopEndedEvents(events: seq<Event>, stack: seq<Event>, ghost s: State, ghost n: nat, t: real,
                          ghost start: map<string, real>) returns (rest: seq<Event>, ghost s': State)
      requires Represents(events, stack, s, n) && InRange(SpansOf(events), s)
      requires stackIdentifiers == RecordAll(SpansOf(events), start, s.log)
      modifies this
      ensures s' == PopEnded(SpansOf(events), s, t) && Represents(events, rest, s', n)
      ensures stackIdentifiers == RecordAll(SpansOf(events), start, s'.log)
    {
      hide PopEnded, RecordAll;
      ghost var spans := SpansOf(events);
      rest, s' := stack, s;
      while rest != [] && rest[|rest| - 1].GetStopTimestamp() <= t
        invariant InRange(spans, s') && PopEnded(spans, s', t) == PopEnded(spans, s, t)
        invariant Represents(events, rest, s', n)
        invariant stackIdentifiers == RecordAll(spans, start, s'.log)
        decreases |rest|
      {
        PopOne(spans, s', t);
        rest := SaveAndPopEvent(events, rest, s', n, start);
        s' := SaveAndPop(s');
      }
      PopOne(spans, s', t);
    }

    /** Takes the duration of event i from the event on top, and puts event i on top of it. */
    method PushEvent(events: seq<Event>, stack: seq<Event>, ghost s: State, i: nat) returns (pushed: seq<Event>)
      requires forall k, l :: 0 <= k < l < |events| ==> events[k] != events[l]
      requires i < |events| && Represents(events, stack, s, i) && InRange(SpansOf(events), s)
      requires forall j :: i <= j < |events| ==> events[j].totalDuration == events[j].duration
      modifies events
      ensures Represents(events, pushed, Push(SpansOf(events), s, i), i + 1)
      ensures forall j :: i < j < |events| ==> events[j].totalDuration == events[j].duration
    {
      var e := events[i];
      ghost var spans, r := SpansOf(events), Push(SpansOf(events), s, i);
      if stack != [] {
        var top := stack[|stack| - 1];
        assert top == events[s.stack[|stack| - 1]];
        top.totalDuration := top.totalDuration - e.duration;
      }
      pushed := stack + [e];
      forall k | 0 <= k < |pushed|
        ensures pushed[k] == events[r.stack[k]] && pushed[k].totalDuration == r.totals[k]
      {
        if k < |stack| - 1 {
          assert stack[k] != stack[|stack| - 1];
        }
      }
    }

    /** Saves and pops what is left on the stack. */
    method DrainEvents(events: seq<Event>, stack: seq<Event>, ghost s: State, ghost start: map<string, real>)
      requires Represents(events, stack, s, |events|)
      requires stackIdentifiers == RecordAll(SpansOf(events), start, s.log)
      modifies this
      ensures stackIdentifiers == RecordAll(SpansOf(events), start, Drain(s).log)
    {
      hide RecordAll;
      var rest := stack;
      ghost var s' := s;
      while rest != []
        invariant Represents(events, rest, s', |events|) && Drain(s') == Drain(s)
        invariant stackIdentifiers == RecordAll(SpansOf(events), start, s'.log)
        decreases |rest|
      {
        rest := SaveAndPopEvent(events, rest, s', |events|, start);
        s' := SaveAndPop(s');
      }
    }

    /** Collapses one list of events into the dictionary. */
    method LoadStackIdentifiers(events: seq<Event>)
      requires forall i, j :: 0 <= i < j < |events| ==> events[i] != events[j]
      requires forall i :: 0 <= i < |events| ==> events[i].totalDuration == events[i].duration
      modifies this, events
      ensures stackIdentifiers == RecordAll(SpansOf(events), old(stackIdentifiers), Collapse(SpansOf(events)))
    {
      hide PopEnded, RecordAll, Push, Represents;
      ghost var spans, start := SpansOf(events), stackIdentifiers;
      var eventStack: seq<Event> := [];
      ghost var s := State([], [], []);
      RecordNone(spans, start);
      RepresentsNone(events);
      for i := 0 to |events|
        invariant s == Run(spans, i) && Represents(events, eventStack, s, i)
        invariant forall j :: i <= j < |events| ==> events[j].totalDuration == events[j].duration
        invariant stackIdentifiers == RecordAll(spans, start, s.log)
      {
        if eventStack == [] {
          PopNone(events, s, i, spans[i].start);
        } else {
          eventStack, s := PopEndedEvents(events, eventStack, s, i, events[i].timestamp, start);
        }
        eventStack := PushEvent(events, eventStack, s, i);
        PushLog(spans, s, i);
        s := Push(spans, s, i);
      }
      DrainEvents(events, eventStack, s, start);
    }

    lemma RepresentsNone(events: seq<Event>)
      ensures Represents(events, [], State([], [], []), 0)
    {}

    lemma PopNone(events: seq<Event>, s: State, n: nat, t: real)
      requires InRange(SpansOf(events), s) && Represents(events, [], s, n)
      ensures PopEnded(SpansOf(events), s, t) == s
    {}

    lemma PushLog(spans: seq<Span>, s: State, i: nat)
      requires InRange(spans, s) && i < |spans|
      ensures Push(spans, s, i).log == s.log
    {}
  }

  lemma RecordNone(spans: seq<Span>, m: map<string, real>)
    ensures RecordAll(spans, m, []) == m
  {}

  lemma PopOne(spans: seq<Span>, s: State, t: real)
    requires InRange(spans, s)
    ensures PopEnded(spans, s, t)
         == if s.stack != [] && spans[Last(s.stack)].Stop() <= t then PopEnded(spans, SaveAndPop(s), t) else s
  {}
}
