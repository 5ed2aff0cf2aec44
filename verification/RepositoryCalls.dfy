/** Concurrent calls of the repository. A write looks its ring up under the read lock,
    makes a missing ring under the write lock after looking again, and enqueues
    without the lock; a read looks its ring up under the read lock and reads it
    without the lock. Deletions and the close are one locked section each. */
module RepositoryCalls {
  import opened Common
  import opened WaitRing
  import R = WaitRepository

  /** `Get` is any of the reads of one key. */
  datatype Request = Put(key: string, w: WaitList) | Get(key: string)

  /** How far a call has come, and when: it looked, found its ring, ended. */
  datatype Phase =
    | Begun
    | Missing(looked: nat)
    | Found(looked: nat, found: nat, ring: nat)
    | Done(looked: nat, ended: nat, used: Option<nat>, seen: R.Log)

  datatype Call = Call(req: Request, begun: nat, phase: Phase)

  /** A ring is retired when its key is deleted or the repository is closed. Calls
      that found it before do not notice. */
  datatype Shelf = Shelf(key: string, retired: Option<nat>, log: R.Log)

  /** Calls and rings are numbered in the order they come. Times are kept for the
      statements below; no step depends on them. */
  datatype System = System(time: nat, closed: Option<nat>, servers: map<string, nat>,
                           rings: seq<Shelf>, calls: seq<Call>)

  datatype Event = Begin(req: Request) | Look(call: nat) | Make(call: nat) | Finish(call: nat)
                 | Delete(key: string) | Close

  /** The section under the read lock. */
  function Looked(s: System, req: Request): Phase {
    if s.closed.Some? then Done(s.time, s.time, None, [])
    else if req.key in s.servers then Found(s.time, s.time, s.servers[req.key])
    else if req.Put? then Missing(s.time)
    else Done(s.time, s.time, None, [])
  }

  /** The enqueue, or the read of a ring. */
  function Finished(s: System, req: Request, phase: Phase): Phase
    requires phase.Found?
  {
    var log := if phase.ring < |s.rings| then s.rings[phase.ring].log else [];
    Done(phase.looked, s.time, Some(phase.ring), if req.Get? then LastN(log, R.RING_SIZE) else [])
  }

  function Retired(shelf: Shelf, time: nat): Shelf {
    if shelf.retired.None? then shelf.(retired := Some(time)) else shelf
  }

  function PhaseOf(s: System, c: nat): Phase {
    if c < |s.calls| then s.calls[c].phase else Begun
  }

  function WithPhase(s: System, c: nat, phase: Phase): System
    requires c < |s.calls|
  {
    s.(calls := s.calls[c := s.calls[c].(phase := phase)])
  }

  /** What a step does besides letting time pass. */
  function Effect(s: System, e: Event): System {
    match e
    case Begin(req) => s.(calls := s.calls + [Call(req, s.time, Begun)])
    case Look(c) =>
      if c < |s.calls| && s.calls[c].phase.Begun? then WithPhase(s, c, Looked(s, s.calls[c].req)) else s
    case Make(c) =>
      if c < |s.calls| && s.calls[c].phase.Missing? then
        var key, looked := s.calls[c].req.key, s.calls[c].phase.looked;
        if key in s.servers then WithPhase(s, c, Found(looked, s.time, s.servers[key]))
        else
          WithPhase(s, c, Found(looked, s.time, |s.rings|))
          .(servers := s.servers[key := |s.rings|], rings := s.rings + [Shelf(key, None, [])])
      else s
    case Finish(c) =>
      if c < |s.calls| && s.calls[c].phase.Found? then
        var req, phase := s.calls[c].req, s.calls[c].phase;
        var r := phase.ring;
        WithPhase(s, c, Finished(s, req, phase))
        .(rings := if req.Put? && r < |s.rings| then s.rings[r := s.rings[r].(log := s.rings[r].log + [req.w])]
                   else s.rings)
      else s
    case Delete(key) =>
      if s.closed.None? && key in s.servers && s.servers[key] < |s.rings| then
        var r := s.servers[key];
        s.(servers := s.servers - {key}, rings := s.rings[r := Retired(s.rings[r], s.time)])
      else s
    case Close =>
      if s.closed.None? then
        s.(closed := Some(s.time),
           rings := seq(|s.rings|, i requires 0 <= i < |s.rings| => Retired(s.rings[i], s.time)))
      else s
  }

  function Next(s: System, e: Event): System {
    Effect(s, e).(time := s.time + 1)
  }

  const START := System(0, None, map[], [], [])

  function RunFrom(s: System, events: seq<Event>): System
    decreases |events|
  {
    if events == [] then s else RunFrom(Next(s, events[0]), events[1..])
  }

  function Run(events: seq<Event>): System {
    RunFrom(START, events)
  }

  // ----- what every step keeps -----

  /** The ring that a call works on, once it has found one. */
  function RingOf(phase: Phase): Option<nat> {
    match phase
    case Found(_, _, r) => Some(r)
    case Done(_, _, used, _) => used
    case _ => None
  }

  predicate TimesRight(s: System, call: Call) {
    && call.begun < s.time
    && (!call.phase.Begun? ==> call.begun < call.phase.looked < s.time)
    && (call.phase.Found? ==> call.phase.looked <= call.phase.found < s.time)
    && (call.phase.Done? ==> call.phase.looked <= call.phase.ended < s.time)
  }

  /** A call works on a ring of its key, and looked before that ring was retired. */
  predicate RingRight(s: System, call: Call) {
    RingOf(call.phase).Some? ==>
      var r := RingOf(call.phase).value;
      && r < |s.rings| && s.rings[r].key == call.req.key
      && (s.rings[r].retired.Some? ==> call.phase.looked < s.rings[r].retired.value)
  }

  /** A write that waits for a ring looked before the close, and a read that found a
      ring can only have done so before the close. */
  predicate CloseRight(s: System, call: Call) {
    && (call.phase.Missing? ==> call.req.Put? && (s.closed.Some? ==> call.phase.looked < s.closed.value))
    && (call.phase.Found? && call.req.Get? && s.closed.Some? && call.phase.ring < |s.rings| ==>
          s.rings[call.phase.ring].retired.Some?)
  }

  predicate CallRight(s: System, call: Call) {
    TimesRight(s, call) && RingRight(s, call) && CloseRight(s, call)
  }

  /** Keys lead to rings of their own, which are retired by nothing but the close. */
  predicate KeyRight(s: System, k: string) {
    k in s.servers ==>
      && s.servers[k] < |s.rings| && s.rings[s.servers[k]].key == k
      && (s.rings[s.servers[k]].retired.None? || s.rings[s.servers[k]].retired == s.closed)
  }

  /** While the repository is open, every ring that is not retired is in use. */
  predicate ShelfRight(s: System, r: nat)
    requires r < |s.rings|
  {
    && (s.rings[r].retired.Some? ==> s.rings[r].retired.value < s.time)
    && (s.rings[r].retired.None? && s.closed.None? ==>
          s.rings[r].key in s.servers && s.servers[s.rings[r].key] == r)
  }

  ghost predicate Inv(s: System) {
    && (s.closed.Some? ==> s.closed.value < s.time)
    && (forall k :: KeyRight(s, k))
    && (forall r :: 0 <= r < |s.rings| ==> ShelfRight(s, r))
    && (forall c :: 0 <= c < |s.calls| ==> CallRight(s, s.calls[c]))
  }

  /** What a step does to a ring and to the lock-protected fields. */
  lemma ShelfStep(s: System, e: Event, r: nat)
    requires r < |s.rings|
    ensures var t := Next(s, e);
            && r < |t.rings| && t.rings[r].key == s.rings[r].key
            && (t.rings[r].retired == s.rings[r].retired
                || (s.rings[r].retired.None? && t.rings[r].retired == Some(s.time)))
            && (e.Close? && s.closed.None? ==> t.rings[r].retired.Some?)
  {
  }

  lemma KeyKept(s: System, e: Event, k: string)
    requires Inv(s)
    ensures KeyRight(Next(s, e), k)
  {
    assert KeyRight(s, k);
    if e.Delete? {
      assert KeyRight(s, e.key);
    }
    if k in s.servers {
      ShelfStep(s, e, s.servers[k]);
    }
  }

  lemma ShelfKept(s: System, e: Event, r: nat)
    requires Inv(s) && r < |Next(s, e).rings|
    ensures ShelfRight(Next(s, e), r)
  {
    if r < |s.rings| {
      assert ShelfRight(s, r);
      ShelfStep(s, e, r);
      if e.Delete? {
        assert KeyRight(s, e.key);
      }
    }
  }

  /** A call that does not move stays right. */
  lemma CallKept(s: System, e: Event, call: Call)
    requires Inv(s) && CallRight(s, call)
    ensures CallRight(Next(s, e), call)
  {
    if RingOf(call.phase).Some? {
      ShelfStep(s, e, RingOf(call.phase).value);
    }
  }

  lemma LookKept(s: System, c: nat)
    requires Inv(s) && c < |s.calls| && s.calls[c].phase.Begun?
    ensures CallRight(Next(s, Look(c)), Next(s, Look(c)).calls[c])
  {
    assert CallRight(s, s.calls[c]) && KeyRight(s, s.calls[c].req.key);
  }

  lemma MakeKept(s: System, c: nat)
    requires Inv(s) && c < |s.calls| && s.calls[c].phase.Missing?
    ensures CallRight(Next(s, Make(c)), Next(s, Make(c)).calls[c])
  {
    assert CallRight(s, s.calls[c]) && KeyRight(s, s.calls[c].req.key);
  }

  lemma FinishKept(s: System, c: nat)
    requires Inv(s) && c < |s.calls| && s.calls[c].phase.Found?
    ensures CallRight(Next(s, Finish(c)), Next(s, Finish(c)).calls[c])
  {
    assert CallRight(s, s.calls[c]);
  }

  lemma CallStep(s: System, e: Event, c: nat)
    requires Inv(s) && c < |Next(s, e).calls|
    ensures CallRight(Next(s, e), Next(s, e).calls[c])
  {
    if c < |s.calls| && Next(s, e).calls[c] != s.calls[c] {
      match e {
        case Look(_) => LookKept(s, c);
        case Make(_) => MakeKept(s, c);
        case Finish(_) => FinishKept(s, c);
      }
    } else if c < |s.calls| {
      CallKept(s, e, s.calls[c]);
    }
  }

  lemma StepKeepsInv(s: System, e: Event)
    requires Inv(s)
    ensures Inv(Next(s, e))
  {
    forall k
      ensures KeyRight(Next(s, e), k)
    {
      KeyKept(s, e, k);
    }
    forall r | 0 <= r < |Next(s, e).rings|
      ensures ShelfRight(Next(s, e), r)
    {
      ShelfKept(s, e, r);
    }
    forall c | 0 <= c < |Next(s, e).calls|
      ensures CallRight(Next(s, e), Next(s, e).calls[c])
    {
      CallStep(s, e, c);
    }
  }

  /** Rings keep their keys and stay retired, and calls that are done stay as they are. */
  predicate Grows(s: System, t: System) {
    && s.time <= t.time && |s.rings| <= |t.rings| && |s.calls| <= |t.calls|
    && (forall r :: 0 <= r < |s.rings| ==> ShelfGrows(s, s.rings[r], t.rings[r]))
    && (forall c :: 0 <= c < |s.calls| ==> s.calls[c].req == t.calls[c].req)
    && (forall c :: 0 <= c < |s.calls| && s.calls[c].phase.Done? ==> t.calls[c] == s.calls[c])
    && (forall c :: 0 <= c < |t.calls| && PhaseOf(t, c).Done? && !PhaseOf(s, c).Done? ==>
          s.time <= t.calls[c].phase.ended)
  }

  predicate ShelfGrows(s: System, a: Shelf, b: Shelf) {
    && a.key == b.key
    && (if a.retired.Some? then b.retired == a.retired else b.retired.Some? ==> s.time <= b.retired.value)
  }

  lemma StepGrows(s: System, e: Event)
    ensures Grows(s, Next(s, e))
  {
  }

  lemma {:induction false} RunGrows(s: System, events: seq<Event>)
    ensures Grows(s, RunFrom(s, events))
    decreases |events|
  {
    if events != [] {
      var m := Next(s, events[0]);
      StepGrows(s, events[0]);
      RunGrows(m, events[1..]);
      GrowsTransitive(s, m, RunFrom(m, events[1..]));
    }
  }

  lemma GrowsTransitive(s: System, m: System, t: System)
    requires Grows(s, m) && Grows(m, t)
    ensures Grows(s, t)
  {
    forall r | 0 <= r < |s.rings|
      ensures ShelfGrows(s, s.rings[r], t.rings[r])
    {
      assert ShelfGrows(s, s.rings[r], m.rings[r]) && ShelfGrows(m, m.rings[r], t.rings[r]);
    }
  }

  // ----- sequential histories -----

  datatype What = Did(e: R.Event) | Saw(key: string, list: R.Log)

  /** One thing that happens at one moment: on behalf of a call, or a deletion or close. */
  datatype Point = Point(call: Option<nat>, at: nat, what: What)

  function Play(state: R.State, p: Point): R.State {
    match p.what
    case Did(e) => R.Step(state, e)
    case Saw(_, _) => state
  }

  function Replay(state: R.State, h: seq<Point>): R.State
    decreases |h|
  {
    if h == [] then state else Replay(Play(state, h[0]), h[1..])
  }

  /** Every read shows what the repository shows at its place. */
  predicate Legal(state: R.State, h: seq<Point>)
    decreases |h|
  {
    h != [] ==>
      && (h[0].what.Saw? ==> h[0].what.list == R.Visible(state, h[0].what.key))
      && Legal(Play(state, h[0]), h[1..])
  }

  lemma {:induction false} LegalConcat(state: R.State, a: seq<Point>, b: seq<Point>)
    ensures Legal(state, a + b) <==> Legal(state, a) && Legal(Replay(state, a), b)
    ensures Replay(state, a + b) == Replay(Replay(state, a), b)
    decreases |a|
  {
    if a == [] {
      assert a + b == b;
    } else {
      assert (a + b)[1..] == a[1..] + b;
      LegalConcat(Play(state, a[0]), a[1..], b);
    }
  }

  predicate Sorted(h: seq<Point>) {
    forall i, j :: 0 <= i < j < |h| ==> h[i].at <= h[j].at
  }

  /** The points of one call, or the deletions and closes. */
  function PointsOf(h: seq<Point>, call: Option<nat>): seq<Point> {
    if h == [] then [] else (if h[0].call == call then [h[0]] else []) + PointsOf(h[1..], call)
  }

  lemma {:induction false} PointsOfConcat(a: seq<Point>, b: seq<Point>, call: Option<nat>)
    ensures PointsOf(a + b, call) == PointsOf(a, call) + PointsOf(b, call)
  {
    if a == [] {
      assert a + b == b;
    } else {
      assert (a + b)[1..] == a[1..] + b;
      PointsOfConcat(a[1..], b, call);
      var own := if a[0].call == call then [a[0]] else [];
      assert own + (PointsOf(a[1..], call) + PointsOf(b, call)) == (own + PointsOf(a[1..], call)) + PointsOf(b, call);
    }
  }

  // ----- the history of a run -----

  function WhatOf(req: Request, seen: R.Log): What {
    match req
    case Put(key, w) => Did(R.Event.Write(key, w))
    case Get(key) => Saw(key, seen)
  }

  /** When a finished call took effect: when its ring was retired, if that came
      before its end, and else at its end. */
  function TookEffect(s: System, phase: Phase): nat
    requires phase.Done?
  {
    if phase.used.Some? && phase.used.value < |s.rings| && s.rings[phase.used.value].retired.Some?
       && s.rings[phase.used.value].retired.value < phase.ended
    then s.rings[phase.used.value].retired.value
    else phase.ended
  }

  function PointOf(s: System, c: nat): Point
    requires PhaseOf(s, c).Done?
  {
    Point(Some(c), TookEffect(s, s.calls[c].phase), WhatOf(s.calls[c].req, s.calls[c].phase.seen))
  }

  /** A step that ends a call. */
  predicate Ends(s: System, e: Event) {
    && (e.Look? || e.Finish?) && e.call < |s.calls|
    && !PhaseOf(s, e.call).Done? && PhaseOf(Next(s, e), e.call).Done?
  }

  /** The point of a call that ends now, placed at some time. */
  function EndPoint(s: System, e: Event, at: nat): Point
    requires Ends(s, e)
  {
    Point(Some(e.call), at, WhatOf(s.calls[e.call].req, PhaseOf(Next(s, e), e.call).seen))
  }

  predicate EndsOn(s: System, e: Event, rings: set<nat>) {
    Ends(s, e) && e.Finish? && s.calls[e.call].phase.ring in rings
  }

  /** The calls on some rings that end later, in that order, all placed at one time. */
  function Late(at: nat, rings: set<nat>, s: System, events: seq<Event>): seq<Point>
    decreases |events|
  {
    if events == [] then []
    else
      var e := events[0];
      (if EndsOn(s, e, rings) then [EndPoint(s, e, at)] else [])
      + Late(at, rings, Next(s, e), events[1..])
  }

  function Retiring(s: System, e: Event): set<nat> {
    set r: nat | r < |s.rings| && s.rings[r].retired.None? && Next(s, e).rings[r].retired.Some?
  }

  /** The step ends a call that has not been placed earlier. */
  predicate EndsInTime(s: System, e: Event) {
    Ends(s, e) && (e.Finish? ==>
      var r := s.calls[e.call].phase.ring; r < |s.rings| && s.rings[r].retired.None?)
  }

  /** The points placed at the time of the next event. */
  function Now(s: System, events: seq<Event>): seq<Point>
    requires events != []
  {
    match events[0]
    case Delete(_) => Retirement(s, events) + Deletion(s.time, events[0])
    case Close => Retirement(s, events) + Deletion(s.time, events[0])
    case _ => if EndsInTime(s, events[0]) then [EndPoint(s, events[0], s.time)] else []
  }

  /** Just before a ring is retired, everything that will still be done with it. */
  function Retirement(s: System, events: seq<Event>): seq<Point>
    requires events != []
  {
    Late(s.time, Retiring(s, events[0]), Next(s, events[0]), events[1..])
  }

  function HistoryFrom(s: System, events: seq<Event>): seq<Point>
    decreases |events|
  {
    if events == [] then [] else Now(s, events) + HistoryFrom(Next(s, events[0]), events[1..])
  }

  /** The deletions and closes of a run. */
  function Deletions(time: nat, events: seq<Event>): seq<Point>
    decreases |events|
  {
    if events == [] then [] else Deletion(time, events[0]) + Deletions(time + 1, events[1..])
  }

  function Deletion(time: nat, e: Event): seq<Point> {
    match e
    case Delete(key) => [Point(None, time, Did(R.Event.Delete(key)))]
    case Close => [Point(None, time, Did(R.Event.Close))]
    case _ => []
  }

  // ----- the history is legal -----

  /** The log of the ring that a key leads to. */
  function CurrentLog(s: System, key: string): R.Log {
    if key in s.servers && s.servers[key] < |s.rings| then s.rings[s.servers[key]].log else []
  }

  /** Calls that begin now will find what the sequential repository holds. */
  ghost predicate Agrees(s: System, state: R.State) {
    && state.open == s.closed.None?
    && (state.open ==> forall k :: R.LogOf(state, k) == CurrentLog(s, k))
  }

  /** The sequential repository still holds what some rings of different keys hold. */
  ghost predicate Mirrors(state: R.State, rings: set<nat>, s: System) {
    && state.open
    && (forall r :: r in rings ==> r < |s.rings| && R.LogOf(state, s.rings[r].key) == s.rings[r].log)
    && (forall q, r :: q in rings && r in rings && q != r ==> s.rings[q].key != s.rings[r].key)
  }

  /** Only a write that ends changes the log of a ring. */
  lemma LogStep(s: System, e: Event, r: nat)
    requires r < |s.rings|
    ensures var t := Next(s, e);
            t.rings[r].log ==
            if Ends(s, e) && e.Finish? && s.calls[e.call].phase.ring == r && s.calls[e.call].req.Put?
            then s.rings[r].log + [s.calls[e.call].req.w] else s.rings[r].log
  {
  }

  lemma MirrorsStep(state: R.State, rings: set<nat>, s: System, e: Event)
    requires Inv(s) && Mirrors(state, rings, s)
    requires !EndsOn(s, e, rings)
    ensures Mirrors(state, rings, Next(s, e))
  {
    forall r | r in rings
      ensures r < |Next(s, e).rings| && Next(s, e).rings[r].log == s.rings[r].log
      ensures Next(s, e).rings[r].key == s.rings[r].key
    {
      LogStep(s, e, r);
      ShelfStep(s, e, r);
    }
  }

  lemma MirrorsLate(state: R.State, rings: set<nat>, s: System, e: Event, at: nat)
    requires Inv(s) && Mirrors(state, rings, s)
    requires EndsOn(s, e, rings)
    ensures var p := EndPoint(s, e, at);
            && Legal(state, [p]) && Mirrors(Play(state, p), rings, Next(s, e))
            && (forall k :: (forall r :: r in rings ==> s.rings[r].key != k) ==>
                  R.LogOf(Play(state, p), k) == R.LogOf(state, k))
  {
    var call := s.calls[e.call];
    assert CallRight(s, call);
    var q, p := call.phase.ring, EndPoint(s, e, at);
    assert s.rings[q].key == call.req.key;
    assert Legal(Play(state, p), []);
    forall r | r in rings
      ensures r < |Next(s, e).rings| && Next(s, e).rings[r].key == s.rings[r].key
      ensures R.LogOf(Play(state, p), s.rings[r].key) == Next(s, e).rings[r].log
    {
      LogStep(s, e, r);
      ShelfStep(s, e, r);
    }
  }

  /** Whatever is still done with rings about to be retired can be done before. */
  lemma {:induction false} LateLegal(at: nat, rings: set<nat>, s: System, events: seq<Event>, state: R.State)
    requires Inv(s) && Mirrors(state, rings, s)
    ensures var h := Late(at, rings, s, events);
            && Legal(state, h) && Replay(state, h).open
            && (forall k :: (forall r :: r in rings ==> s.rings[r].key != k) ==>
                  R.LogOf(Replay(state, h), k) == R.LogOf(state, k))
    decreases |events|
  {
    if events != [] {
      var e, t := events[0], Next(s, events[0]);
      StepKeepsInv(s, e);
      forall r | r in rings
        ensures r < |t.rings| && t.rings[r].key == s.rings[r].key
      {
        ShelfStep(s, e, r);
      }
      if EndsOn(s, e, rings) {
        var p := EndPoint(s, e, at);
        MirrorsLate(state, rings, s, e, at);
        LateLegal(at, rings, t, events[1..], Play(state, p));
        LegalConcat(state, [p], Late(at, rings, t, events[1..]));
        assert Replay(state, [p]) == Play(state, p);
      } else {
        MirrorsStep(state, rings, s, e);
        LateLegal(at, rings, t, events[1..], state);
        assert Late(at, rings, s, events) == Late(at, rings, t, events[1..]);
      }
    }
  }

  lemma RetirementLegal(s: System, events: seq<Event>, state: R.State)
    requires Inv(s) && events != [] && Agrees(s, state) && s.closed.None?
    ensures var h := Retirement(s, events);
            && Legal(state, h) && Replay(state, h).open
            && (forall k :: (forall r :: r in Retiring(s, events[0]) ==> s.rings[r].key != k) ==>
                  R.LogOf(Replay(state, h), k) == R.LogOf(state, k))
  {
    var e, t := events[0], Next(s, events[0]);
    StepKeepsInv(s, e);
    var rings := Retiring(s, e);
    forall r | r in rings
      ensures r < |t.rings| && t.rings[r].key == s.rings[r].key && t.rings[r].log == s.rings[r].log
      ensures s.rings[r].key in s.servers && s.servers[s.rings[r].key] == r
    {
      ShelfStep(s, e, r);
      LogStep(s, e, r);
      assert ShelfRight(s, r);
    }
    LateLegal(s.time, rings, t, events[1..], state);
  }

  /** Nothing retires in a closed repository. */
  lemma {:induction false} LateNone(at: nat, s: System, events: seq<Event>)
    ensures Late(at, {}, s, events) == []
    decreases |events|
  {
    if events != [] {
      LateNone(at, Next(s, events[0]), events[1..]);
    }
  }

  lemma ClosedNow(s: System, events: seq<Event>, state: R.State)
    requires events != [] && s.closed.Some? && (events[0].Delete? || events[0].Close?)
    ensures Retirement(s, events) == []
  {
    assert Retiring(s, events[0]) == {};
    LateNone(s.time, Next(s, events[0]), events[1..]);
  }

  lemma DeleteLegal(s: System, events: seq<Event>, state: R.State)
    requires Inv(s) && events != [] && Agrees(s, state) && events[0].Delete?
    ensures Legal(state, Now(s, events)) && Agrees(Next(s, events[0]), Replay(state, Now(s, events)))
  {
    var key, t := events[0].key, Next(s, events[0]);
    var h, p := Retirement(s, events), Point(None, s.time, Did(R.Event.Delete(key)));
    LegalConcat(state, h, [p]);
    assert Replay(Replay(state, h), [p]) == Play(Replay(state, h), p);
    assert Legal(Play(Replay(state, h), p), []);
    if s.closed.Some? {
      ClosedNow(s, events, state);
    } else {
      RetirementLegal(s, events, state);
      assert KeyRight(s, key);
      assert forall r :: r in Retiring(s, events[0]) ==> s.rings[r].key == key;
      forall k
        ensures R.LogOf(Play(Replay(state, h), p), k) == CurrentLog(t, k)
      {
        assert KeyRight(s, k) && R.LogOf(state, k) == CurrentLog(s, k);
        if k in s.servers {
          LogStep(s, events[0], s.servers[k]);
        }
      }
    }
  }

  lemma CloseLegal(s: System, events: seq<Event>, state: R.State)
    requires Inv(s) && events != [] && Agrees(s, state) && events[0].Close?
    ensures Legal(state, Now(s, events)) && Agrees(Next(s, events[0]), Replay(state, Now(s, events)))
  {
    var h, p := Retirement(s, events), Point(None, s.time, Did(R.Event.Close));
    LegalConcat(state, h, [p]);
    assert Replay(Replay(state, h), [p]) == Play(Replay(state, h), p);
    assert Legal(Play(Replay(state, h), p), []);
    if s.closed.Some? {
      ClosedNow(s, events, state);
    } else {
      RetirementLegal(s, events, state);
    }
  }

  lemma LookLegal(s: System, c: nat, state: R.State)
    requires Inv(s) && Agrees(s, state) && Ends(s, Look(c))
    ensures var p := EndPoint(s, Look(c), s.time);
            Legal(state, [p]) && Agrees(Next(s, Look(c)), Play(state, p))
  {
    var p := EndPoint(s, Look(c), s.time);
    assert Legal(Play(state, p), []);
    assert s.closed.None? ==> R.LogOf(state, s.calls[c].req.key) == CurrentLog(s, s.calls[c].req.key);
    assert forall k :: CurrentLog(Next(s, Look(c)), k) == CurrentLog(s, k);
  }

  lemma FinishLegal(s: System, c: nat, state: R.State)
    requires Inv(s) && Agrees(s, state) && EndsInTime(s, Finish(c))
    ensures var p := EndPoint(s, Finish(c), s.time);
            Legal(state, [p]) && Agrees(Next(s, Finish(c)), Play(state, p))
  {
    var p, call, t := EndPoint(s, Finish(c), s.time), s.calls[c], Next(s, Finish(c));
    var r := call.phase.ring;
    assert Legal(Play(state, p), []);
    assert CallRight(s, call) && ShelfRight(s, r);
    if s.closed.None? {
      forall k
        ensures R.LogOf(Play(state, p), k) == CurrentLog(t, k)
      {
        assert KeyRight(s, k) && R.LogOf(state, k) == CurrentLog(s, k);
        assert t.servers == s.servers && |t.rings| == |s.rings|;
        if k in s.servers {
          LogStep(s, Finish(c), s.servers[k]);
        }
      }
    }
  }

  lemma QuietLegal(s: System, e: Event, state: R.State)
    requires Inv(s) && Agrees(s, state) && !e.Delete? && !e.Close? && !EndsInTime(s, e)
    ensures Agrees(Next(s, e), state)
  {
    if s.closed.None? {
      forall k
        ensures CurrentLog(Next(s, e), k) == CurrentLog(s, k)
      {
        assert KeyRight(s, k);
        if k in s.servers {
          LogStep(s, e, s.servers[k]);
        }
      }
    }
  }

  lemma NowLegal(s: System, events: seq<Event>, state: R.State)
    requires Inv(s) && events != [] && Agrees(s, state)
    ensures Legal(state, Now(s, events)) && Agrees(Next(s, events[0]), Replay(state, Now(s, events)))
  {
    var e := events[0];
    if e.Delete? {
      DeleteLegal(s, events, state);
    } else if e.Close? {
      CloseLegal(s, events, state);
    } else if EndsInTime(s, e) {
      var p := EndPoint(s, e, s.time);
      assert Replay(state, [p]) == Play(state, p);
      if e.Look? {
        LookLegal(s, e.call, state);
      } else {
        FinishLegal(s, e.call, state);
      }
    } else {
      QuietLegal(s, e, state);
    }
  }

  lemma {:induction false} HistoryLegal(s: System, events: seq<Event>, state: R.State)
    requires Inv(s) && Agrees(s, state)
    ensures var h := HistoryFrom(s, events);
            Legal(state, h) && Agrees(RunFrom(s, events), Replay(state, h))
    decreases |events|
  {
    if events != [] {
      var t := Next(s, events[0]);
      var h := Now(s, events);
      NowLegal(s, events, state);
      StepKeepsInv(s, events[0]);
      HistoryLegal(t, events[1..], Replay(state, h));
      LegalConcat(state, h, HistoryFrom(t, events[1..]));
    }
  }

  // ----- every call takes effect once, between its look and its end -----

  lemma DoneStep(s: System, e: Event, c: nat)
    ensures var t := Next(s, e);
            if Ends(s, e) && e.call == c
            then PhaseOf(t, c).Done? && PhaseOf(t, c).used == if e.Finish? then Some(s.calls[c].phase.ring) else None
            else PhaseOf(t, c).Done? <==> PhaseOf(s, c).Done?
  {
  }

  lemma {:induction false} LatePoints(at: nat, rings: set<nat>, s: System, events: seq<Event>, c: nat)
    ensures var f := RunFrom(s, events);
            PointsOf(Late(at, rings, s, events), Some(c)) ==
            if PhaseOf(f, c).Done? && !PhaseOf(s, c).Done? && UsesOneOf(f, c, rings)
            then [Point(Some(c), at, WhatOf(f.calls[c].req, f.calls[c].phase.seen))] else []
    decreases |events|
  {
    if events != [] {
      var e, t := events[0], Next(s, events[0]);
      LatePoints(at, rings, t, events[1..], c);
      RunGrows(t, events[1..]);
      DoneStep(s, e, c);
      var h := if EndsOn(s, e, rings) then [EndPoint(s, e, at)] else [];
      PointsOfConcat(h, Late(at, rings, t, events[1..]), Some(c));
    }
  }

  predicate UsesOneOf(f: System, c: nat, rings: set<nat>) {
    PhaseOf(f, c).Done? && PhaseOf(f, c).used.Some? && PhaseOf(f, c).used.value in rings
  }

  /** The call ends after `s` in the run to `f` and was not placed before `s`. */
  predicate Pending(s: System, f: System, c: nat) {
    && PhaseOf(f, c).Done? && !PhaseOf(s, c).Done?
    && !(var used := PhaseOf(f, c).used;
         used.Some? && used.value < |s.rings| && s.rings[used.value].retired.Some?)
  }

  lemma RetirementPoints(s: System, events: seq<Event>, c: nat)
    requires events != [] && (events[0].Delete? || events[0].Close?)
    ensures var t, f := Next(s, events[0]), RunFrom(s, events);
            && (Pending(t, f, c) ==> Pending(s, f, c))
            && PointsOf(Now(s, events), Some(c)) ==
               if Pending(s, f, c) && !Pending(t, f, c) then [PointOf(f, c)] else []
  {
    var e, t, f := events[0], Next(s, events[0]), RunFrom(s, events);
    LatePoints(s.time, Retiring(s, e), t, events[1..], c);
    RunGrows(t, events[1..]);
    PointsOfConcat(Retirement(s, events), Deletion(s.time, e), Some(c));
    assert PhaseOf(t, c) == PhaseOf(s, c);
    if PhaseOf(f, c).Done? && PhaseOf(f, c).used.Some? && PhaseOf(f, c).used.value < |s.rings| {
      ShelfStep(s, e, PhaseOf(f, c).used.value);
    }
  }

  lemma EndPoints(s: System, events: seq<Event>, c: nat)
    requires Inv(s) && events != [] && Ends(s, events[0]) && events[0].call == c
    ensures var t, f := Next(s, events[0]), RunFrom(s, events);
            && !Pending(t, f, c)
            && (Pending(s, f, c) <==> EndsInTime(s, events[0]))
            && (Pending(s, f, c) ==> PointOf(f, c) == EndPoint(s, events[0], s.time))
  {
    var t := Next(s, events[0]);
    RunGrows(t, events[1..]);
    assert CallRight(s, s.calls[c]);
    assert t.rings[..] == t.rings;
    if events[0].Finish? {
      ShelfStep(s, events[0], s.calls[c].phase.ring);
    }
  }

  lemma OtherPoints(s: System, events: seq<Event>, c: nat)
    requires events != [] && !events[0].Delete? && !events[0].Close?
    requires !(Ends(s, events[0]) && events[0].call == c)
    ensures var t, f := Next(s, events[0]), RunFrom(s, events);
            Pending(t, f, c) <==> Pending(s, f, c)
  {
  }

  lemma NowPoints(s: System, events: seq<Event>, c: nat)
    requires Inv(s) && events != []
    ensures var t, f := Next(s, events[0]), RunFrom(s, events);
            && (Pending(t, f, c) ==> Pending(s, f, c))
            && PointsOf(Now(s, events), Some(c)) ==
               if Pending(s, f, c) && !Pending(t, f, c) then [PointOf(f, c)] else []
  {
    var e := events[0];
    if e.Delete? || e.Close? {
      RetirementPoints(s, events, c);
    } else if Ends(s, e) && e.call == c {
      EndPoints(s, events, c);
    } else {
      OtherPoints(s, events, c);
    }
  }

  lemma {:induction false} HistoryPoints(s: System, events: seq<Event>, c: nat)
    requires Inv(s)
    ensures PointsOf(HistoryFrom(s, events), Some(c)) ==
            if Pending(s, RunFrom(s, events), c) then [PointOf(RunFrom(s, events), c)] else []
    decreases |events|
  {
    if events != [] {
      StepKeepsInv(s, events[0]);
      NowPoints(s, events, c);
      HistoryPoints(Next(s, events[0]), events[1..], c);
      PointsOfConcat(Now(s, events), HistoryFrom(Next(s, events[0]), events[1..]), Some(c));
    }
  }

  lemma {:induction false} LateTimes(at: nat, rings: set<nat>, s: System, events: seq<Event>)
    ensures forall p :: p in Late(at, rings, s, events) ==> p.at == at && p.call.Some?
    ensures PointsOf(Late(at, rings, s, events), None) == []
    decreases |events|
  {
    if events != [] {
      var e, t := events[0], Next(s, events[0]);
      LateTimes(at, rings, t, events[1..]);
      var h := if EndsOn(s, e, rings) then [EndPoint(s, e, at)] else [];
      PointsOfConcat(h, Late(at, rings, t, events[1..]), None);
    }
  }

  lemma NowTimes(s: System, events: seq<Event>)
    requires events != []
    ensures forall p :: p in Now(s, events) ==> p.at == s.time
    ensures PointsOf(Now(s, events), None) == Deletion(s.time, events[0])
  {
    var e := events[0];
    if e.Delete? || e.Close? {
      LateTimes(s.time, Retiring(s, e), Next(s, e), events[1..]);
      PointsOfConcat(Retirement(s, events), Deletion(s.time, e), None);
    }
  }

  predicate NotBefore(h: seq<Point>, time: nat) {
    forall p :: p in h ==> time <= p.at
  }

  lemma {:induction false} HistorySorted(s: System, events: seq<Event>)
    ensures Sorted(HistoryFrom(s, events)) && NotBefore(HistoryFrom(s, events), s.time)
    decreases |events|
  {
    if events != [] {
      NowTimes(s, events);
      HistorySorted(Next(s, events[0]), events[1..]);
      SortedConcat(Now(s, events), HistoryFrom(Next(s, events[0]), events[1..]), s.time);
    }
  }

  lemma SortedConcat(a: seq<Point>, b: seq<Point>, time: nat)
    requires Sorted(b) && NotBefore(b, time + 1)
    requires forall p :: p in a ==> p.at == time
    ensures Sorted(a + b) && NotBefore(a + b, time)
  {
    forall i, j | 0 <= i < j < |a + b|
      ensures (a + b)[i].at <= (a + b)[j].at
    {
      assert (a + b)[i] in a || (i >= |a| && (a + b)[i] == b[i - |a|]);
      assert (a + b)[j] in a || (j >= |a| && (a + b)[j] == b[j - |a|]);
    }
  }

  lemma {:induction false} HistoryDeletions(s: System, events: seq<Event>)
    ensures PointsOf(HistoryFrom(s, events), None) == Deletions(s.time, events)
    decreases |events|
  {
    if events != [] {
      NowTimes(s, events);
      HistoryDeletions(Next(s, events[0]), events[1..]);
      PointsOfConcat(Now(s, events), HistoryFrom(Next(s, events[0]), events[1..]), None);
    }
  }

  lemma {:induction false} RunKeepsInv(s: System, events: seq<Event>)
    requires Inv(s)
    ensures Inv(RunFrom(s, events)) && RunFrom(s, events).time == s.time + |events|
    decreases |events|
  {
    if events != [] {
      StepKeepsInv(s, events[0]);
      RunKeepsInv(Next(s, events[0]), events[1..]);
    }
  }

  function HistoryOf(events: seq<Event>): seq<Point> {
    HistoryFrom(START, events)
  }

  /** The history tells what the run did, one thing after the other: in the order of
      time, every read shows what the repository shows at its place, every call that
      is done has exactly one point, with its own key and list, and no other call has
      one; deletions and closes stand where they were; and a call that begins now
      will find what the history leaves. */
  ghost predicate Linearizes(h: seq<Point>, events: seq<Event>) {
    var s := Run(events);
    && Sorted(h) && Legal(R.Run([]), h) && Agrees(s, Replay(R.Run([]), h))
    && (forall c: nat :: PointsOf(h, Some(c)) == if PhaseOf(s, c).Done? then [PointOf(s, c)] else [])
    && PointsOf(h, None) == Deletions(0, events)
  }

  /** Every interleaving of writes, reads, deletions and closes is linearizable. */
  lemma EveryRunLinearizes(events: seq<Event>)
    ensures Linearizes(HistoryOf(events), events)
  {
    HistoryLegal(START, events, R.Run([]));
    HistorySorted(START, events);
    HistoryDeletions(START, events);
    forall c: nat
      ensures var s := Run(events);
              PointsOf(HistoryOf(events), Some(c)) == if PhaseOf(s, c).Done? then [PointOf(s, c)] else []
    {
      HistoryPoints(START, events, c);
    }
  }

  /** A call takes effect after it began, between its look and its end. */
  lemma EffectWithinCall(events: seq<Event>, c: nat)
    requires PhaseOf(Run(events), c).Done?
    ensures var s := Run(events); var call := s.calls[c];
            call.begun < call.phase.looked <= PointOf(s, c).at <= call.phase.ended < |events|
  {
    RunKeepsInv(START, events);
    assert CallRight(Run(events), Run(events).calls[c]);
  }

  lemma {:induction false} PointIn(h: seq<Point>, i: nat)
    requires i < |h|
    ensures h[i] in PointsOf(h, h[i].call)
  {
    if i > 0 {
      PointIn(h[1..], i - 1);
    }
  }

  lemma PointAt(events: seq<Event>, i: nat, c: nat)
    requires i < |HistoryOf(events)| && HistoryOf(events)[i].call == Some(c) && PhaseOf(Run(events), c).Done?
    ensures HistoryOf(events)[i] == PointOf(Run(events), c)
  {
    HistoryPoints(START, events, c);
    PointIn(HistoryOf(events), i);
  }

  /** A call that ended before another one began comes before it in the history. */
  lemma RealTimeOrder(events: seq<Event>, i: nat, j: nat, c: nat, d: nat)
    requires PhaseOf(Run(events), c).Done? && PhaseOf(Run(events), d).Done?
    requires Run(events).calls[c].phase.ended < Run(events).calls[d].begun
    requires i < |HistoryOf(events)| && HistoryOf(events)[i].call == Some(c)
    requires j < |HistoryOf(events)| && HistoryOf(events)[j].call == Some(d)
    ensures i < j
  {
    HistorySorted(START, events);
    PointAt(events, i, c);
    PointAt(events, j, d);
    EffectWithinCall(events, c);
    EffectWithinCall(events, d);
  }

  // ----- which writes reach the ring in use -----

  lemma {:induction false} RunStep(s: System, events: seq<Event>, e: Event)
    ensures RunFrom(s, events + [e]) == Next(RunFrom(s, events), e)
    decreases |events|
  {
    if events == [] {
      assert RunFrom(Next(s, e), []) == Next(s, e);
    } else {
      RunStep(Next(s, events[0]), events[1..], e);
      assert (events + [e])[1..] == events[1..] + [e];
    }
  }

  /** No deletion of the key comes after the given event. */
  predicate NotDeletedSince(events: seq<Event>, since: nat, key: string) {
    forall i :: since < i < |events| ==> events[i] != Event.Delete(key)
  }

  /** A call that finds its ring finds one that is not retired. */
  lemma FindsInUse(s: System, e: Event, c: nat)
    requires Inv(s) && Next(s, e).closed.None? && PhaseOf(Next(s, e), c).Found? && !PhaseOf(s, c).Found?
    ensures var t := Next(s, e); var phase := t.calls[c].phase;
            phase.ring < |t.rings| && phase.found == s.time && t.rings[phase.ring].retired.None?
  {
    assert c < |s.calls| && CallRight(s, s.calls[c]) && KeyRight(s, s.calls[c].req.key);
  }

  /** After that only a deletion of its key retires the ring. */
  lemma StaysInUse(s: System, e: Event, c: nat)
    requires Inv(s) && Next(s, e).closed.None? && PhaseOf(Next(s, e), c).Found? && PhaseOf(s, c).Found?
    ensures var t := Next(s, e); var phase := s.calls[c].phase;
            && t.calls[c] == s.calls[c] && phase.ring < |s.rings| <= |t.rings|
            && (t.rings[phase.ring].retired.None? <==>
                  s.rings[phase.ring].retired.None? && e != Event.Delete(s.calls[c].req.key))
  {
    var r := s.calls[c].phase.ring;
    assert CallRight(s, s.calls[c]) && ShelfRight(s, r);
    ShelfStep(s, e, r);
    if e.Delete? {
      assert KeyRight(s, e.key);
    }
  }

  lemma {:induction false} FoundIsInUse(events: seq<Event>, c: nat)
    requires var s := Run(events); s.closed.None? && PhaseOf(s, c).Found?
    ensures var s := Run(events); var call := s.calls[c];
            && call.phase.ring < |s.rings| && call.phase.found < |events|
            && (s.rings[call.phase.ring].retired.None? <==>
                  NotDeletedSince(events, call.phase.found, call.req.key))
  {
    if events != [] {
      var init, e := events[..|events| - 1], events[|events| - 1];
      var s := Run(init);
      assert events == init + [e];
      RunStep(START, init, e);
      RunKeepsInv(START, init);
      if PhaseOf(s, c).Found? {
        StaysInUse(s, e, c);
        FoundIsInUse(init, c);
      } else {
        FindsInUse(s, e, c);
      }
    }
  }

  /** In an open repository a write that has found its ring reaches the ring in use,
      and so later readers, exactly when its key was not deleted after the find. No
      other key is touched in either case. */
  lemma WriteReachesReaders(events: seq<Event>, c: nat)
    requires var s := Run(events); s.closed.None? && PhaseOf(s, c).Found? && s.calls[c].req.Put?
    ensures var s := Run(events); var t := Run(events + [Finish(c)]);
            var call := s.calls[c]; var key := call.req.key;
            && PhaseOf(t, c).Done?
            && (NotDeletedSince(events, call.phase.found, key) <==>
                  CurrentLog(t, key) == CurrentLog(s, key) + [call.req.w])
            && (forall k :: k != key || !NotDeletedSince(events, call.phase.found, key) ==>
                  CurrentLog(t, k) == CurrentLog(s, k))
  {
    var s := Run(events);
    RunStep(START, events, Finish(c));
    RunKeepsInv(START, events);
    FoundIsInUse(events, c);
    var r, key := s.calls[c].phase.ring, s.calls[c].req.key;
    assert CallRight(s, s.calls[c]) && ShelfRight(s, r);
    forall k
      ensures CurrentLog(Next(s, Finish(c)), k) ==
              if k == key && s.rings[r].retired.None? then CurrentLog(s, k) + [s.calls[c].req.w] else CurrentLog(s, k)
    {
      assert KeyRight(s, k);
      if k in s.servers {
        LogStep(s, Finish(c), s.servers[k]);
      }
    }
  }

  /** The shortest run in which it does not: the list goes into a ring that nobody
      will look at again. */
  lemma OvertakenWrite(key: string, w: WaitList)
    ensures var s := Run([Begin(Put(key, w)), Look(0), Make(0), Event.Delete(key), Finish(0)]);
            PhaseOf(s, 0).Done? && s.closed.None? && CurrentLog(s, key) == []
  {
    var s1 := Next(START, Begin(Put(key, w)));
    var s2 := Next(s1, Look(0));
    var s3 := Next(s2, Make(0));
    var s4 := Next(s3, Event.Delete(key));
    assert s2.calls[0].phase == Missing(1);
    assert s3.servers == map[key := 0] && s3.rings == [Shelf(key, None, [])] && s3.calls[0].phase == Found(1, 2, 0);
    assert s4.servers == map[] && s4.calls == s3.calls;
    RunFive(Begin(Put(key, w)), Look(0), Make(0), Event.Delete(key), Finish(0));
  }

  lemma RunFive(a: Event, b: Event, c: Event, d: Event, e: Event)
    ensures Run([a, b, c, d, e]) == Next(Next(Next(Next(Next(START, a), b), c), d), e)
  {
    RunStep(START, [], a);
    RunStep(START, [a], b);
    RunStep(START, [a, b], c);
    RunStep(START, [a, b, c], d);
    RunStep(START, [a, b, c, d], e);
    assert [] + [a] == [a] && [a] + [b] == [a, b] && [a, b] + [c] == [a, b, c];
    assert [a, b, c] + [d] == [a, b, c, d] && [a, b, c, d] + [e] == [a, b, c, d, e];
  }
}
