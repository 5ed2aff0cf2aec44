/** The error state of the metric repository: calls first compare under a read lock
    and, when the state seems to change, compare again under the write lock. */
module ErrorLatch {
  import opened Common

  /** An error, by its message; none is "no error". */
  type Err = Option<string>

  /** What the lock protects: the error, when it occurred (0 is the zero time), and
      the lines logged on changes. */
  datatype Shared = Shared(err: Err, occurred: int, log: seq<string>)

  /** A reported outcome and the time at which a change to it would be stored. */
  datatype Report = Report(err: Err, now: int)

  const CLEARED := "Error Cleared"

  function Line(e: Err): string {
    "REPOSITORY: " + if e.None? then CLEARED else e.value
  }

  /** The comparison and update under the write lock. */
  function Update(s: Shared, r: Report): Shared {
    if s.err == r.err then s
    else Shared(r.err, if r.err.None? then 0 else r.now, s.log + [Line(r.err)])
  }

  class Repository {
    var err: Err
    var occurred: int
    var log: seq<string>

    constructor (err: Err, occurred: int)
      ensures Abs() == Shared(err, occurred, [])
    {
      this.err, this.occurred, this.log := err, occurred, [];
    }

    ghost function Abs(): Shared
      reads this
    {
      Shared(err, occurred, log)
    }

    /** The first look, under the read lock. */
    method Unchanged(report: Err) returns (same: bool)
      ensures same <==> err == report
    {
      if err == None && report == None {
        return true;
      }
      if err != None && report != None {
        if err.value == report.value {
          return true;
        }
      }
      return false;
    }

    /** The second look and the update, under the write lock. */
    method Store(report: Err, now: int)
      modifies this
      ensures Abs() == Update(old(Abs()), Report(report, now))
      ensures err == report
      ensures old(err) == report ==> occurred == old(occurred) && log == old(log)
      ensures old(err) != report ==>
                && occurred == (if report == None then 0 else now)
                && log == old(log) + ["REPOSITORY: " + if report == None then "Error Cleared" else report.value]
    {
      var same := Unchanged(report);
      if same {
        return;
      }
      if report == None {
        assert "REPOSITORY: Error Cleared" == Line(None);
        log := log + ["REPOSITORY: Error Cleared"];
        err, occurred := None, 0;
        return;
      }
      log := log + ["REPOSITORY: " + report.value];
      err, occurred := report, now;
    }

    /** A call with no other call in between. */
    method HandleError(report: Err, now: int)
      modifies this
      ensures Abs() == Update(old(Abs()), Report(report, now))
    {
      var same := Unchanged(report);
      if !same {
        Store(report, now);
      }
    }
  }

  // ----- concurrent calls -----

  /** A call that has not looked yet, or has seen a change and waits for the lock. */
  datatype Pending = Begun(err: Err) | Waiting(err: Err)

  /** The shared state, the calls under way, and the calls that took effect so far. */
  datatype System = System(shared: Shared, calls: map<nat, Pending>, done: seq<Report>)

  datatype Event = Begin(call: nat, err: Err) | Look(call: nat) | Lock(call: nat, now: int)

  /** One atomic step; a step that is not enabled does nothing. A call takes effect
      at its first look when that finds nothing to do, and else under the lock. */
  function Next(s: System, e: Event): System {
    match e
    case Begin(c, err) =>
      if c in s.calls then s else s.(calls := s.calls[c := Begun(err)])
    case Look(c) =>
      if c !in s.calls || !s.calls[c].Begun? then s
      else if s.shared.err == s.calls[c].err then
        s.(calls := s.calls - {c}, done := s.done + [Report(s.calls[c].err, 0)])
      else s.(calls := s.calls[c := Waiting(s.calls[c].err)])
    case Lock(c, now) =>
      if c !in s.calls || !s.calls[c].Waiting? then s
      else
        var r := Report(s.calls[c].err, now);
        System(Update(s.shared, r), s.calls - {c}, s.done + [r])
  }

  function Run(start: Shared, events: seq<Event>): System {
    if events == [] then System(start, map[], [])
    else Next(Run(start, events[..|events| - 1]), events[|events| - 1])
  }

  /** Reports handled one after the other, each in one step. */
  function Sequential(start: Shared, reports: seq<Report>): Shared {
    if reports == [] then start
    else Update(Sequential(start, reports[..|reports| - 1]), reports[|reports| - 1])
  }

  /** Every interleaving, stale first looks included, leaves what the same calls
      would leave one after the other in the order they took effect. */
  lemma {:induction false} InterleavingIsSequential(start: Shared, events: seq<Event>)
    ensures Run(start, events).shared == Sequential(start, Run(start, events).done)
  {
    if events != [] {
      var s, t := Run(start, events[..|events| - 1]), Run(start, events);
      InterleavingIsSequential(start, events[..|events| - 1]);
      if t.done != s.done {
        assert t.done[..|t.done| - 1] == s.done;
      }
    }
  }

  /** How many calls reporting `err` have begun. */
  function Begins(start: Shared, events: seq<Event>, err: Err): nat {
    if events == [] then 0
    else
      var n := |events| - 1;
      var isNew := events[n].Begin? && events[n].call !in Run(start, events[..n]).calls && events[n].err == err;
      Begins(start, events[..n], err) + if isNew then 1 else 0
  }

  function CountErr(reports: seq<Report>, err: Err): nat {
    if reports == [] then 0
    else CountErr(reports[..|reports| - 1], err) + if reports[|reports| - 1].err == err then 1 else 0
  }

  function Unfinished(calls: map<nat, Pending>, err: Err): set<nat> {
    set c | c in calls && calls[c].err == err
  }

  lemma UnfinishedPut(calls: map<nat, Pending>, c: nat, p: Pending, err: Err)
    ensures Unfinished(calls[c := p], err) ==
            if p.err == err then Unfinished(calls, err) + {c} else Unfinished(calls, err) - {c}
  {
  }

  lemma UnfinishedDrop(calls: map<nat, Pending>, c: nat, err: Err)
    ensures Unfinished(calls - {c}, err) == Unfinished(calls, err) - {c}
  {
  }

  lemma CountErrPush(reports: seq<Report>, r: Report, err: Err)
    ensures CountErr(reports + [r], err) == CountErr(reports, err) + if r.err == err then 1 else 0
  {
    assert (reports + [r])[..|reports|] == reports;
  }

  lemma StepAccounts(s: System, e: Event, err: Err)
    ensures var t := Next(s, e);
            CountErr(t.done, err) + |Unfinished(t.calls, err)| ==
            CountErr(s.done, err) + |Unfinished(s.calls, err)|
            + if e.Begin? && e.call !in s.calls && e.err == err then 1 else 0
  {
    match e {
      case Begin(c, e') =>
        UnfinishedPut(s.calls, c, Begun(e'), err);
      case Look(c) =>
        if c in s.calls && s.calls[c].Begun? {
          UnfinishedPut(s.calls, c, Waiting(s.calls[c].err), err);
          UnfinishedDrop(s.calls, c, err);
          CountErrPush(s.done, Report(s.calls[c].err, 0), err);
        }
      case Lock(c, now) =>
        if c in s.calls && s.calls[c].Waiting? {
          UnfinishedDrop(s.calls, c, err);
          CountErrPush(s.done, Report(s.calls[c].err, now), err);
        }
    }
  }

  /** Every call that began takes effect once, with what it reported, or is still
      under way. */
  lemma {:induction false} CallsTakeEffectOnce(start: Shared, events: seq<Event>, err: Err)
    ensures var s := Run(start, events);
            Begins(start, events, err) == CountErr(s.done, err) + |Unfinished(s.calls, err)|
  {
    if events == [] {
      assert Unfinished(map[], err) == {};
    } else {
      CallsTakeEffectOnce(start, events[..|events| - 1], err);
      StepAccounts(Run(start, events[..|events| - 1]), events[|events| - 1], err);
    }
  }

  /** The calls under way report what they began with. */
  ghost predicate CallsWereBegun(calls: map<nat, Pending>, events: seq<Event>) {
    forall c :: c in calls ==> WasBegun(events, calls[c].err)
  }

  /** What took effect was reported by a call, and has the time of a locked section
      or changed nothing. */
  ghost predicate DoneWasCalled(done: seq<Report>, events: seq<Event>) {
    forall r :: r in done ==> WasBegun(events, r.err) && (r.now == 0 || WasLocked(events, r.now))
  }

  lemma MoreEvents(events: seq<Event>, e: Event)
    ensures forall err :: WasBegun(events, err) ==> WasBegun(events + [e], err)
    ensures forall now :: WasLocked(events, now) ==> WasLocked(events + [e], now)
    ensures e.Begin? ==> WasBegun(events + [e], e.err)
    ensures e.Lock? ==> WasLocked(events + [e], e.now)
  {
    assert e in events + [e];
    forall err | WasBegun(events, err)
      ensures WasBegun(events + [e], err)
    {
      var b :| b in events && b.Begin? && b.err == err;
      assert b in events + [e];
    }
    forall now | WasLocked(events, now)
      ensures WasLocked(events + [e], now)
    {
      var l :| l in events && l.Lock? && l.now == now;
      assert l in events + [e];
    }
  }

  /** Nothing takes effect that was not reported, and a change that is stored carries
      the time of a locked section. */
  lemma {:induction false} EffectsComeFromCalls(start: Shared, events: seq<Event>)
    ensures CallsWereBegun(Run(start, events).calls, events) && DoneWasCalled(Run(start, events).done, events)
  {
    if events != [] {
      var init, e := events[..|events| - 1], events[|events| - 1];
      EffectsComeFromCalls(start, init);
      assert events == init + [e];
      MoreEvents(init, e);
      var s, t := Run(start, init), Run(start, events);
      assert forall c :: c in s.calls ==> WasBegun(events, s.calls[c].err);
      assert t == Next(s, e);
    }
  }

  predicate WasBegun(events: seq<Event>, err: Err) {
    exists e :: e in events && e.Begin? && e.err == err
  }

  predicate WasLocked(events: seq<Event>, now: int) {
    exists e :: e in events && e.Lock? && e.now == now
  }

  /** The reports that changed the error, in order. */
  function Changes(e: Err, reports: seq<Report>): seq<Report> {
    if reports == [] then []
    else
      var n := |reports| - 1;
      var before := Changes(e, reports[..n]);
      if reports[n].err == LastErr(e, before) then before else before + [reports[n]]
  }

  function LastErr(e: Err, changes: seq<Report>): Err {
    if changes == [] then e else changes[|changes| - 1].err
  }

  function Lines(changes: seq<Report>): (log: seq<string>)
    ensures |log| == |changes| && forall i :: 0 <= i < |log| ==> log[i] == Line(changes[i].err)
  {
    if changes == [] then [] else Lines(changes[..|changes| - 1]) + [Line(changes[|changes| - 1].err)]
  }

  /** The log shows every change once, and the stored error and time are those of
      the last change. */
  lemma {:induction false} SequentialLogsChanges(start: Shared, reports: seq<Report>)
    requires start.log == []
    ensures var s, c := Sequential(start, reports), Changes(start.err, reports);
            && s.err == LastErr(start.err, c) && s.log == Lines(c)
            && s.occurred == (if c == [] then start.occurred else if s.err.None? then 0 else c[|c| - 1].now)
  {
    if reports != [] {
      var n := |reports| - 1;
      SequentialLogsChanges(start, reports[..n]);
      var before := Changes(start.err, reports[..n]);
      LinesPush(before, reports[n]);
    }
  }

  lemma LinesPush(changes: seq<Report>, r: Report)
    ensures Lines(changes + [r]) == Lines(changes) + [Line(r.err)]
  {
    assert (changes + [r])[..|changes|] == changes;
  }

  /** A change differs from the state before it. */
  lemma {:induction false} ChangesDiffer(e: Err, reports: seq<Report>, i: nat)
    requires i < |Changes(e, reports)|
    ensures Changes(e, reports)[i].err != LastErr(e, Changes(e, reports)[..i])
  {
    var n := |reports| - 1;
    var before, c := Changes(e, reports[..n]), Changes(e, reports);
    if i < |before| {
      ChangesDiffer(e, reports[..n], i);
      assert c[..i] == before[..i];
    } else {
      assert c[..i] == before;
    }
  }

  /** Two different states give the same line only in one case. */
  predicate SameLine(a: Err, b: Err) {
    (a == None && b == Some(CLEARED)) || (b == None && a == Some(CLEARED))
  }

  lemma LinesTellStatesApart(a: Err, b: Err)
    requires a != b
    ensures Line(a) == Line(b) <==> SameLine(a, b)
  {
    var p := "REPOSITORY: ";
    var x, y := if a.None? then CLEARED else a.value, if b.None? then CLEARED else b.value;
    assert (p + x)[|p|..] == x && (p + y)[|p|..] == y;
  }

  /** The error is set exactly when it has a time. */
  predicate Consistent(s: Shared) {
    s.err == None <==> s.occurred == 0
  }

  /** In every interleaving of calls: the stored error is that of the last line,
      which reads "Error Cleared" when there is none; the time is zero exactly when
      there is no error; and neighbouring lines differ, unless a clearance meets an
      error whose own message is "Error Cleared". */
  lemma EveryInterleaving(start: Shared, events: seq<Event>)
    requires start.log == [] && Consistent(start)
    requires forall i :: 0 <= i < |events| && events[i].Lock? ==> events[i].now != 0
    ensures var s := Run(start, events).shared;
            && Consistent(s)
            && (s.log == [] ==> s == start)
            && (s.log != [] ==> s.log[|s.log| - 1] == Line(s.err))
    ensures var s, c := Run(start, events).shared, Changes(start.err, Run(start, events).done);
            && s.log == Lines(c)
            && forall i :: 0 < i < |c| ==>
                 c[i - 1].err != c[i].err && (s.log[i - 1] == s.log[i] <==> SameLine(c[i - 1].err, c[i].err))
  {
    var done := Run(start, events).done;
    var c := Changes(start.err, done);
    InterleavingIsSequential(start, events);
    SequentialLogsChanges(start, done);
    TimesAreSet(start, events);
    if c == [] {
      UnchangedStays(start, done);
    }
    forall i | 0 < i < |c|
      ensures c[i - 1].err != c[i].err
      ensures Line(c[i - 1].err) == Line(c[i].err) <==> SameLine(c[i - 1].err, c[i].err)
    {
      ChangesDiffer(start.err, done, i);
      assert c[..i][i - 1] == c[i - 1];
      LinesTellStatesApart(c[i - 1].err, c[i].err);
    }
  }

  lemma {:induction false} UnchangedStays(start: Shared, reports: seq<Report>)
    requires Changes(start.err, reports) == []
    ensures Sequential(start, reports) == start
  {
    if reports != [] {
      UnchangedStays(start, reports[..|reports| - 1]);
    }
  }

  /** Calls that took effect under the lock have a time. */
  lemma {:induction false} TimesAreSet(start: Shared, events: seq<Event>)
    requires Consistent(start)
    requires forall i :: 0 <= i < |events| && events[i].Lock? ==> events[i].now != 0
    ensures Consistent(Run(start, events).shared)
  {
    if events != [] {
      TimesAreSet(start, events[..|events| - 1]);
    }
  }

  /** The exception is real: these two changes log the same line twice. */
  lemma ClearanceCanLookLikeAnError()
    ensures var start := Shared(None, 0, []);
            var events := [Begin(0, Some(CLEARED)), Look(0), Lock(0, 1), Begin(1, None), Look(1), Lock(1, 2)];
            var log := Run(start, events).shared.log;
            |log| == 2 && log[0] == log[1]
  {
    var start := Shared(None, 0, []);
    var e := [Begin(0, Some(CLEARED)), Look(0), Lock(0, 1), Begin(1, None), Look(1), Lock(1, 2)];
    assert e[..6] == e;
    assert e[..6][..5] == e[..5] && e[..5][..4] == e[..4] && e[..4][..3] == e[..3];
    assert e[..3][..2] == e[..2] && e[..2][..1] == e[..1] && e[..1][..0] == [];
    assert Run(start, []) == System(start, map[], []);
    assert Run(start, e[..1]) == System(start, map[0 := Begun(Some(CLEARED))], []);
    assert Run(start, e[..2]) == System(start, map[0 := Waiting(Some(CLEARED))], []);
    var s := Run(start, e[..3]);
    assert s.shared == Shared(Some(CLEARED), 1, [Line(Some(CLEARED))]) && s.calls == map[];
    assert Run(start, e[..4]).shared == s.shared && Run(start, e[..4]).calls == map[1 := Begun(None)];
    assert Run(start, e[..5]).shared == s.shared && Run(start, e[..5]).calls == map[1 := Waiting(None)];
  }
}
