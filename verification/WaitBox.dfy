/** Wait accounting of one server: polls charge the growth of waits to wait groups,
    emits hand the accumulated charges over. */
module WaitBox {
  import opened Common

  type Id = Int16

  datatype Request = Request(started: int, wait: string, ms: int)

  /** What a wait is mapped to; an empty group means the wait itself. */
  datatype Mapping = Mapping(mappedTo: string, excluded: bool)

  /** The wait table. */
  type Lookup = string -> Mapping

  type Requests = map<Id, Request>

  /** The result of one successful query. */
  datatype Snapshot = Snapshot(domain: string, server: string, booted: int, requests: Requests)

  datatype Row = Row(domain: string, server: string, booted: int, id: Id, request: Request)

  // ----- charges -----

  /** The group that a wait is charged to, if it is counted at all. */
  function GroupOf(wait: string, lookup: Lookup): Option<string> {
    if wait == "" || lookup(wait).excluded then None
    else if lookup(wait).mappedTo != "" then Some(lookup(wait).mappedTo)
    else Some(wait)
  }

  predicate SameWait(a: Request, b: Request) {
    a.started == b.started && a.wait == b.wait
  }

  /** What request `id` of a new poll is charged, given the requests of the poll
      before; none when a known wait has not moved. */
  function ChargeOf(before: Requests, now: Requests, id: Id): Option<int>
    requires id in now
  {
    if id in before && SameWait(before[id], now[id]) then
      if now[id].ms > before[id].ms then Some(now[id].ms - before[id].ms)
      else if now[id].ms < before[id].ms then Some(now[id].ms)
      else None
    else Some(now[id].ms)
  }

  function Amount(before: Requests, now: Requests, id: Id): int
    requires id in now
  {
    match ChargeOf(before, now, id)
    case Some(ms) => ms
    case None => 0
  }

  /** Request `id` adds an entry to, or increases, group `g`. */
  predicate Touches(before: Requests, now: Requests, id: Id, g: string, lookup: Lookup) {
    id in now && ChargeOf(before, now, id).Some? && GroupOf(now[id].wait, lookup) == Some(g)
  }

  function Contribution(before: Requests, now: Requests, id: Id, g: string, lookup: Lookup): int {
    if Touches(before, now, id, g, lookup) then Amount(before, now, id) else 0
  }

  /** The charges of some of the polled requests to group `g`. */
  ghost function ChargeOver(ids: set<Id>, before: Requests, now: Requests, g: string, lookup: Lookup): int {
    if ids == {} then 0
    else
      var id :| id in ids;
      Contribution(before, now, id, g, lookup) + ChargeOver(ids - {id}, before, now, g, lookup)
  }

  /** The charge of a poll to group `g`. */
  ghost function PollCharge(before: Requests, now: Requests, g: string, lookup: Lookup): int {
    ChargeOver(now.Keys, before, now, g, lookup)
  }

  /** The order in which requests are summed does not matter. */
  lemma {:induction false} ChargeOverSplit(ids: set<Id>, id: Id, before: Requests, now: Requests,
                                           g: string, lookup: Lookup)
    requires id in ids
    ensures ChargeOver(ids, before, now, g, lookup) ==
            Contribution(before, now, id, g, lookup) + ChargeOver(ids - {id}, before, now, g, lookup)
    decreases ids
  {
    var x :| x in ids && ChargeOver(ids, before, now, g, lookup) ==
      Contribution(before, now, x, g, lookup) + ChargeOver(ids - {x}, before, now, g, lookup);
    if x != id {
      ChargeOverSplit(ids - {x}, id, before, now, g, lookup);
      assert ids - {x} - {id} == ids - {id} - {x};
      ChargeOverSplit(ids - {id}, x, before, now, g, lookup);
    }
  }

  // ----- the box as a state machine -----

  datatype State = State(requests: Requests, waits: map<string, int>, first: bool,
                         domain: string, server: string, booted: int, emitted: seq<map<string, int>>)

  datatype Event = Poll(snap: Snapshot) | FailedPoll | Emit

  /** The first poll, or one that answers from another or a restarted server. */
  predicate Resets(s: State, snap: Snapshot) {
    s.first || s.domain != snap.domain || s.server != snap.server || s.booted != snap.booted
  }

  function TouchedGroups(before: Requests, now: Requests, ids: set<Id>, lookup: Lookup): set<string> {
    set id | id in ids && id in now && ChargeOf(before, now, id).Some? && GroupOf(now[id].wait, lookup).Some?
      :: GroupOf(now[id].wait, lookup).value
  }

  ghost function Charged(waits: map<string, int>, before: Requests, now: Requests, lookup: Lookup): map<string, int> {
    map g | g in waits.Keys + TouchedGroups(before, now, now.Keys, lookup)
      :: AmountIn(waits, g) + PollCharge(before, now, g, lookup)
  }

  ghost function Step(s: State, e: Event, lookup: Lookup): State {
    match e
    case Poll(snap) =>
      if Resets(s, snap) then
        s.(requests := snap.requests, first := false,
           domain := snap.domain, server := snap.server, booted := snap.booted)
      else
        s.(requests := snap.requests, waits := Charged(s.waits, s.requests, snap.requests, lookup))
    case FailedPoll => s
    case Emit => s.(waits := map[], emitted := s.emitted + [s.waits])
  }

  ghost function Run(s: State, events: seq<Event>, lookup: Lookup): State
    decreases |events|
  {
    if events == [] then s else Run(Step(s, events[0], lookup), events[1..], lookup)
  }

  /** `m` is `start` with the charges of the requests `done`. */
  ghost predicate Accounted(m: map<string, int>, start: map<string, int>, before: Requests, now: Requests,
                            done: set<Id>, lookup: Lookup) {
    && (forall g :: AmountIn(m, g) == AmountIn(start, g) + ChargeOver(done, before, now, g, lookup))
    && (forall g :: g in m <==> g in start || g in TouchedGroups(before, now, done, lookup))
  }

  lemma AccountedStep(m: map<string, int>, was: map<string, int>, start: map<string, int>,
                      before: Requests, now: Requests, done: set<Id>, id: Id, lookup: Lookup)
    requires id !in done && id in now && Accounted(was, start, before, now, done, lookup)
    requires forall g :: AmountIn(m, g) == AmountIn(was, g) + Contribution(before, now, id, g, lookup)
    requires forall g :: g in m <==> g in was || Touches(before, now, id, g, lookup)
    ensures Accounted(m, start, before, now, done + {id}, lookup)
  {
    assert done + {id} - {id} == done;
    forall g
      ensures AmountIn(m, g) == AmountIn(start, g) + ChargeOver(done + {id}, before, now, g, lookup)
      ensures g in TouchedGroups(before, now, done + {id}, lookup) <==>
                g in TouchedGroups(before, now, done, lookup) || Touches(before, now, id, g, lookup)
    {
      ChargeOverSplit(done + {id}, id, before, now, g, lookup);
    }
  }

  lemma AccountedAll(m: map<string, int>, start: map<string, int>, before: Requests, now: Requests, lookup: Lookup)
    requires Accounted(m, start, before, now, now.Keys, lookup)
    ensures m == Charged(start, before, now, lookup)
  {
    var c := Charged(start, before, now, lookup);
    assert m.Keys == c.Keys;
    assert forall g :: g in m ==> m[g] == AmountIn(m, g);
  }

  // ----- the box in place -----

  /** A Go map: shared by reference. */
  class WaitMap {
    var m: map<string, int>

    constructor ()
      ensures m == map[]
    {
      m := map[];
    }
  }

  ghost function MapsOf(ms: seq<WaitMap>): (r: seq<map<string, int>>)
    reads ms
    ensures |r| == |ms| && forall i :: 0 <= i < |ms| ==> r[i] == ms[i].m
  {
    if ms == [] then [] else MapsOf(ms[..|ms| - 1]) + [ms[|ms| - 1].m]
  }

  class Box {
    var requests: Requests
    var waits: WaitMap
    var first: bool
    var domain: string
    var server: string
    var booted: int
    const lookup: Lookup
    ghost var emitted: seq<WaitMap>

    /** The map being filled is none of those handed over. */
    ghost predicate Valid()
      reads this
    {
      waits !in emitted
    }

    ghost function Abs(): State
      reads this, waits, emitted
    {
      State(requests, waits.m, first, domain, server, booted, MapsOf(emitted))
    }

    constructor (domain: string, server: string, booted: int, lookup: Lookup)
      ensures Valid() && this.lookup == lookup
      ensures Abs() == State(map[], map[], true, domain, server, booted, [])
    {
      requests, first := map[], true;
      waits := new WaitMap();
      this.domain, this.server, this.booted := domain, server, booted;
      this.lookup := lookup;
      emitted := [];
    }

    /** Adds milliseconds to the group of a wait, unless the wait is not counted. */
    method MapAndSaveWait(wait: string, ms: int)
      modifies waits
      ensures wait == "" || lookup(wait).excluded ==> waits.m == old(waits.m)
      ensures wait != "" && !lookup(wait).excluded ==>
                var g := if lookup(wait).mappedTo == "" then wait else lookup(wait).mappedTo;
                waits.m == old(waits.m)[g := AmountIn(old(waits.m), g) + ms]
    {
      if wait == "" {
        return;
      }
      var wm := lookup(wait);
      if wm.excluded {
        return;
      }
      var group := wait;
      if wm.mappedTo != "" {
        group := wm.mappedTo;
      }
      if group !in waits.m {
        waits.m := waits.m[group := ms];
      } else {
        waits.m := waits.m[group := waits.m[group] + ms];
      }
    }

    /** Compares one polled request with the stored one, charges it and stores it. */
    method PollRequest(id: Id, active: Request, ghost before: Requests, ghost now: Requests)
      requires id in now && active == now[id]
      requires id in requests <==> id in before
      requires id in before ==> requests[id] == before[id]
      modifies this`requests, waits
      ensures requests == old(requests)[id := active]
      ensures forall g :: AmountIn(waits.m, g) == AmountIn(old(waits.m), g) + Contribution(before, now, id, g, lookup)
      ensures forall g :: g in waits.m <==> g in old(waits.m) || Touches(before, now, id, g, lookup)
    {
      if id !in requests {
        requests := requests[id := active];
        MapAndSaveWait(active.wait, active.ms);
        return;
      }
      var r := requests[id];
      if r.started == active.started {
        if r.wait == active.wait {
          if active.ms > r.ms {
            MapAndSaveWait(active.wait, active.ms - r.ms);
          } else if active.ms < r.ms {
            MapAndSaveWait(active.wait, active.ms);
          }
          requests := requests[id := active];
          return;
        }
      }
      requests := requests[id := active];
      MapAndSaveWait(active.wait, active.ms);
    }

    /** Charges all polled requests, in whatever order the map yields them. */
    method ChargeRequests(now: Requests)
      modifies this`requests, waits
      ensures waits.m == Charged(old(waits.m), old(requests), now, lookup)
      ensures requests == old(requests) + now
    {
      ghost var before := requests;
      var todo := now.Keys;
      ghost var done: set<Id> := {};
      while todo != {}
        invariant done + todo == now.Keys && done !! todo
        invariant Accounted(waits.m, old(waits.m), before, now, done, lookup)
        invariant requests.Keys == before.Keys + done
        invariant forall id :: id in requests ==> requests[id] == if id in done then now[id] else before[id]
        decreases todo
      {
        var id :| id in todo;
        ghost var was := waits.m;
        PollRequest(id, now[id], before, now);
        todo := todo - {id};
        AccountedStep(waits.m, was, old(waits.m), before, now, done, id, lookup);
        done := done + {id};
      }
      assert done == now.Keys;
      AccountedAll(waits.m, old(waits.m), before, now, lookup);
      assert requests == before + now;
    }

    /** Forgets the stored requests that the poll no longer shows. */
    method RemoveInactive(now: Requests)
      modifies this`requests
      ensures requests == map id | id in old(requests) && id in now :: old(requests)[id]
    {
      var todo := requests.Keys;
      while todo != {}
        invariant todo <= requests.Keys <= old(requests).Keys
        invariant forall id :: id in requests ==> requests[id] == old(requests)[id]
        invariant forall id :: id in old(requests) && id !in todo ==> (id in requests <==> id in now)
        decreases todo
      {
        var id :| id in todo;
        todo := todo - {id};
        if id !in now {
          requests := requests - {id};
        }
      }
    }

    /** One poll; none is a query that failed. */
    method PollWaits(result: Option<Snapshot>)
      requires Valid()
      modifies this, waits
      ensures Valid() && waits == old(waits) && emitted == old(emitted)
      ensures Abs() == Step(old(Abs()), if result.Some? then Poll(result.value) else FailedPoll, lookup)
      ensures result.Some? ==> requests == result.value.requests
    {
      if result.None? {
        return;
      }
      var snap := result.value;
      if first || domain != snap.domain || server != snap.server || booted != snap.booted {
        requests := snap.requests;
        domain, server, booted := snap.domain, snap.server, snap.booted;
        first := false;
        return;
      }
      ChargeRequests(snap.requests);
      RemoveInactive(snap.requests);
      assert requests == snap.requests;
    }

    /** Hands the accumulated map over and starts a fresh one. */
    method EmitWaits() returns (list: WaitMap)
      requires Valid()
      modifies this
      ensures Valid() && emitted == old(emitted) + [list] && fresh(waits)
      ensures Abs() == Step(old(Abs()), Emit, lookup)
      ensures list == old(waits) && list.m == old(waits.m) && waits.m == map[]
    {
      list := waits;
      emitted := emitted + [waits];
      waits := new WaitMap();
    }
  }

  // ----- every run -----

  /** What all emitted lists together hold for a group. */
  function EmittedTotal(emitted: seq<map<string, int>>, g: string): int {
    if emitted == [] then 0
    else EmittedTotal(emitted[..|emitted| - 1], g) + AmountIn(emitted[|emitted| - 1], g)
  }

  /** What the polls of a run charge to a group; resets and failures charge nothing. */
  ghost function RunCharge(s: State, events: seq<Event>, g: string, lookup: Lookup): int
    decreases |events|
  {
    if events == [] then 0
    else
      (match events[0]
       case Poll(snap) => if Resets(s, snap) then 0 else PollCharge(s.requests, snap.requests, g, lookup)
       case FailedPoll => 0
       case Emit => 0)
      + RunCharge(Step(s, events[0], lookup), events[1..], g, lookup)
  }

  lemma {:induction false} UntouchedGroupsGetNothing(ids: set<Id>, before: Requests, now: Requests,
                                                     g: string, lookup: Lookup)
    requires g !in TouchedGroups(before, now, ids, lookup)
    ensures ChargeOver(ids, before, now, g, lookup) == 0
    decreases ids
  {
    if ids != {} {
      var x :| x in ids;
      assert !Touches(before, now, x, g, lookup);
      ChargeOverSplit(ids, x, before, now, g, lookup);
      UntouchedGroupsGetNothing(ids - {x}, before, now, g, lookup);
    }
  }

  lemma StepConserves(s: State, e: Event, g: string, lookup: Lookup)
    ensures var t := Step(s, e, lookup);
            EmittedTotal(t.emitted, g) + AmountIn(t.waits, g) ==
            EmittedTotal(s.emitted, g) + AmountIn(s.waits, g) + RunCharge(s, [e], g, lookup)
    ensures s.emitted <= Step(s, e, lookup).emitted
  {
    if e.Poll? && g !in TouchedGroups(s.requests, e.snap.requests, e.snap.requests.Keys, lookup) {
      UntouchedGroupsGetNothing(e.snap.requests.Keys, s.requests, e.snap.requests, g, lookup);
    }
    if e.Emit? {
      assert (s.emitted + [s.waits])[..|s.emitted|] == s.emitted;
    }
    assert RunCharge(Step(s, e, lookup), [], g, lookup) == 0;
  }

  /** For every interleaving of polls, failed polls and emits, the emitted amounts
      and the amount still held are the charges of the polls, and no step changes a
      list emitted before it. */
  lemma {:induction false} RunConserves(s: State, events: seq<Event>, g: string, lookup: Lookup)
    ensures var t := Run(s, events, lookup);
            EmittedTotal(t.emitted, g) + AmountIn(t.waits, g) ==
            EmittedTotal(s.emitted, g) + AmountIn(s.waits, g) + RunCharge(s, events, g, lookup)
    ensures s.emitted <= Run(s, events, lookup).emitted
    decreases |events|
  {
    if events != [] {
      StepConserves(s, events[0], g, lookup);
      RunConserves(Step(s, events[0], lookup), events[1..], g, lookup);
    }
  }

  /** The last reading of a wait that counts against the next one. */
  function Reading(s: State, id: Id, started: int, wait: string): int {
    if id in s.requests && s.requests[id].started == started && s.requests[id].wait == wait then s.requests[id].ms
    else 0
  }

  /** Over the run no poll resets, and every poll shows the same wait of request `id`
      with a time that does not go down. */
  ghost predicate Steady(s: State, events: seq<Event>, id: Id, started: int, wait: string, lookup: Lookup)
    decreases |events|
  {
    events != [] ==>
      && (events[0].Poll? ==>
            var now := events[0].snap.requests;
            && !Resets(s, events[0].snap)
            && id in now && now[id].started == started && now[id].wait == wait
            && (id in s.requests && SameWait(s.requests[id], now[id]) ==> s.requests[id].ms <= now[id].ms))
      && Steady(Step(s, events[0], lookup), events[1..], id, started, wait, lookup)
  }

  /** What request `id` adds to group `g` over a run. */
  ghost function RequestCharge(s: State, events: seq<Event>, id: Id, g: string, lookup: Lookup): int
    decreases |events|
  {
    if events == [] then 0
    else
      (if events[0].Poll? && !Resets(s, events[0].snap)
       then Contribution(s.requests, events[0].snap.requests, id, g, lookup) else 0)
      + RequestCharge(Step(s, events[0], lookup), events[1..], id, g, lookup)
  }

  /** Charges telescope: over a steady run a wait is charged, to its group only, its
      last reading minus the reading stored before the run, or minus nothing when it
      was not stored. */
  lemma {:induction false} ChargesTelescope(s: State, events: seq<Event>, id: Id, started: int, wait: string,
                                            g: string, lookup: Lookup)
    requires Steady(s, events, id, started, wait, lookup)
    ensures RequestCharge(s, events, id, g, lookup) ==
            if GroupOf(wait, lookup) == Some(g)
            then Reading(Run(s, events, lookup), id, started, wait) - Reading(s, id, started, wait)
            else 0
    decreases |events|
  {
    if events != [] {
      ChargesTelescope(Step(s, events[0], lookup), events[1..], id, started, wait, g, lookup);
    }
  }

  /** The charges of several requests to a group over a run. */
  ghost function RequestsCharge(ids: set<Id>, s: State, events: seq<Event>, g: string, lookup: Lookup): int {
    if ids == {} then 0
    else
      var id :| id in ids;
      RequestCharge(s, events, id, g, lookup) + RequestsCharge(ids - {id}, s, events, g, lookup)
  }

  lemma {:induction false} OthersAddNothing(ids: set<Id>, more: set<Id>, before: Requests, now: Requests,
                                            g: string, lookup: Lookup)
    requires ids <= more && forall id :: id in more && id !in ids ==> id !in now
    ensures ChargeOver(more, before, now, g, lookup) == ChargeOver(ids, before, now, g, lookup)
    decreases more
  {
    if more != ids {
      var x :| x in more && x !in ids;
      ChargeOverSplit(more, x, before, now, g, lookup);
      OthersAddNothing(ids, more - {x}, before, now, g, lookup);
    }
  }

  lemma {:induction false} RequestsChargeStep(ids: set<Id>, s: State, events: seq<Event>, g: string, lookup: Lookup)
    requires events != []
    ensures RequestsCharge(ids, s, events, g, lookup) ==
            (if events[0].Poll? && !Resets(s, events[0].snap)
             then ChargeOver(ids, s.requests, events[0].snap.requests, g, lookup) else 0)
            + RequestsCharge(ids, Step(s, events[0], lookup), events[1..], g, lookup)
    decreases ids
  {
    if ids != {} {
      var t, rest := Step(s, events[0], lookup), events[1..];
      var x :| x in ids && RequestsCharge(ids, s, events, g, lookup) ==
        RequestCharge(s, events, x, g, lookup) + RequestsCharge(ids - {x}, s, events, g, lookup);
      RequestsChargeStep(ids - {x}, s, events, g, lookup);
      RequestsChargeSplit(ids, x, t, rest, g, lookup);
      assert RequestCharge(s, events, x, g, lookup) ==
             (if events[0].Poll? && !Resets(s, events[0].snap)
              then Contribution(s.requests, events[0].snap.requests, x, g, lookup) else 0)
             + RequestCharge(t, rest, x, g, lookup);
      if events[0].Poll? {
        ChargeOverSplit(ids, x, s.requests, events[0].snap.requests, g, lookup);
      }
    }
  }

  lemma {:induction false} RequestsChargeSplit(ids: set<Id>, id: Id, s: State, events: seq<Event>,
                                               g: string, lookup: Lookup)
    requires id in ids
    ensures RequestsCharge(ids, s, events, g, lookup) ==
            RequestCharge(s, events, id, g, lookup) + RequestsCharge(ids - {id}, s, events, g, lookup)
    decreases ids
  {
    var x :| x in ids && RequestsCharge(ids, s, events, g, lookup) ==
      RequestCharge(s, events, x, g, lookup) + RequestsCharge(ids - {x}, s, events, g, lookup);
    if x != id {
      RequestsChargeSplit(ids - {x}, id, s, events, g, lookup);
      assert ids - {x} - {id} == ids - {id} - {x};
      RequestsChargeSplit(ids - {id}, x, s, events, g, lookup);
    }
  }

  /** Nothing is counted twice or left out: what a run charges to a group is the sum,
      over the requests polled, of what each of them is charged. */
  lemma {:induction false} RunChargeIsPerRequest(ids: set<Id>, s: State, events: seq<Event>, g: string, lookup: Lookup)
    requires forall i :: 0 <= i < |events| && events[i].Poll? ==> events[i].snap.requests.Keys <= ids
    ensures RunCharge(s, events, g, lookup) == RequestsCharge(ids, s, events, g, lookup)
    decreases |events|
  {
    if events == [] {
      NoEventsNoCharge(ids, s, g, lookup);
    } else {
      RequestsChargeStep(ids, s, events, g, lookup);
      if events[0].Poll? {
        OthersAddNothing(events[0].snap.requests.Keys, ids, s.requests, events[0].snap.requests, g, lookup);
      }
      RunChargeIsPerRequest(ids, Step(s, events[0], lookup), events[1..], g, lookup);
    }
  }

  lemma {:induction false} NoEventsNoCharge(ids: set<Id>, s: State, g: string, lookup: Lookup)
    ensures RequestsCharge(ids, s, [], g, lookup) == 0
    decreases ids
  {
    if ids != {} {
      var x :| x in ids && RequestsCharge(ids, s, [], g, lookup) ==
        RequestCharge(s, [], x, g, lookup) + RequestsCharge(ids - {x}, s, [], g, lookup);
      assert RequestCharge(s, [], x, g, lookup) == 0;
      NoEventsNoCharge(ids - {x}, s, g, lookup);
    }
  }

  /** The last successful poll of a run. */
  function LastPoll(events: seq<Event>): Option<Snapshot> {
    if events == [] then None
    else if events[|events| - 1].Poll? then Some(events[|events| - 1].snap)
    else LastPoll(events[..|events| - 1])
  }

  lemma {:induction false} RunStep(s: State, events: seq<Event>, e: Event, lookup: Lookup)
    ensures Run(s, events + [e], lookup) == Step(Run(s, events, lookup), e, lookup)
    decreases |events|
  {
    if events == [] {
      assert Run(Step(s, e, lookup), [], lookup) == Step(s, e, lookup);
    } else {
      RunStep(Step(s, events[0], lookup), events[1..], e, lookup);
      assert (events + [e])[1..] == events[1..] + [e];
    }
  }

  /** After any run the box remembers its last successful poll and nothing older:
      the next poll is compared with exactly that one, whether that one reset or not. */
  lemma {:induction false} RunRemembersLastPoll(s: State, events: seq<Event>, lookup: Lookup)
    ensures var t, last := Run(s, events, lookup), LastPoll(events);
            if last.None?
            then t.requests == s.requests && t.first == s.first && SameOrigin(t, s.domain, s.server, s.booted)
            else t.requests == last.value.requests && !t.first
                 && SameOrigin(t, last.value.domain, last.value.server, last.value.booted)
    decreases |events|
  {
    if events != [] {
      var init, e := events[..|events| - 1], events[|events| - 1];
      RunRemembersLastPoll(s, init, lookup);
      assert events == init + [e];
      RunStep(s, init, e, lookup);
    }
  }

  predicate SameOrigin(s: State, domain: string, server: string, booted: int) {
    s.domain == domain && s.server == server && s.booted == booted
  }

  /** An emit hands over exactly what is held, and leaves nothing. */
  lemma EmitHandsOver(s: State, events: seq<Event>, lookup: Lookup)
    ensures var t, u := Run(s, events, lookup), Run(s, events + [Emit], lookup);
            u.waits == map[] && u.emitted == t.emitted + [t.waits] && u.requests == t.requests
  {
    RunStep(s, events, Emit, lookup);
  }

  lemma {:induction false} NothingEmitted(s: State, events: seq<Event>, lookup: Lookup)
    requires Emit !in events
    ensures Run(s, events, lookup).emitted == s.emitted
    decreases |events|
  {
    if events != [] {
      assert events[0] in events;
      NothingEmitted(Step(s, events[0], lookup), events[1..], lookup);
    }
  }

  /** A list handed over holds, for every group, what was held at the start and what
      the polls since then charged: no list holds charges of another one. */
  lemma EmitHoldsCharges(s: State, events: seq<Event>, g: string, lookup: Lookup)
    requires Emit !in events
    ensures var u := Run(s, events + [Emit], lookup);
            && |u.emitted| == |s.emitted| + 1
            && AmountIn(u.emitted[|s.emitted|], g) == AmountIn(s.waits, g) + RunCharge(s, events, g, lookup)
  {
    EmitHandsOver(s, events, lookup);
    NothingEmitted(s, events, lookup);
    RunConserves(s, events, g, lookup);
  }

  // ----- charges told by the readings alone -----

  /** What a successful poll shows; `uncharged` says that it starts the comparison
      afresh. */
  datatype Look = Look(requests: Requests, uncharged: bool)

  predicate SameServer(a: Snapshot, b: Snapshot) {
    a.domain == b.domain && a.server == b.server && a.booted == b.booted
  }

  /** The polls of a run after snapshot `last`, or after none. */
  function Looks(last: Option<Snapshot>, events: seq<Event>): seq<Look>
    decreases |events|
  {
    if events == [] then []
    else if !events[0].Poll? then Looks(last, events[1..])
    else
      var snap := events[0].snap;
      [Look(snap.requests, last.None? || !SameServer(last.value, snap))] + Looks(Some(snap), events[1..])
  }

  predicate CountsFor(wait: string, g: string, lookup: Lookup) {
    && wait != "" && !lookup(wait).excluded
    && g == if lookup(wait).mappedTo == "" then wait else lookup(wait).mappedTo
  }

  /** The time that request `id` shows for a wait of group `g`. */
  function Shown(l: Look, id: Id, g: string, lookup: Lookup): int {
    if id in l.requests && CountsFor(l.requests[id].wait, g, lookup) then l.requests[id].ms else 0
  }

  /** The next poll shows the same wait of the request again, with no less time. */
  predicate Continues(a: Look, b: Look, id: Id) {
    && !b.uncharged && id in a.requests && id in b.requests
    && a.requests[id].started == b.requests[id].started && a.requests[id].wait == b.requests[id].wait
    && a.requests[id].ms <= b.requests[id].ms
  }

  /** The readings that no later one continues, minus those that are not charged. */
  function Metered(looks: seq<Look>, id: Id, g: string, lookup: Lookup): int {
    if looks == [] then 0
    else
      var shown := Shown(looks[0], id, g, lookup);
      (if |looks| > 1 && Continues(looks[0], looks[1], id) then 0 else shown)
      - (if looks[0].uncharged then shown else 0)
      + Metered(looks[1..], id, g, lookup)
  }

  /** The state of a box whose last successful poll was `last`. */
  predicate Remembers(s: State, last: Option<Snapshot>) {
    if last.None? then s.first
    else !s.first && SameOrigin(s, last.value.domain, last.value.server, last.value.booted)
         && s.requests == last.value.requests
  }

  /** Every reading of a wait is charged in full and once: when it ends, falls, or
      gives way to another wait or server. Only the readings stored before the run, or
      by a reset, are not. No reading is left out for falling. */
  lemma {:induction false} ChargeIsMetered(s: State, last: Option<Snapshot>, events: seq<Event>, id: Id,
                                           g: string, lookup: Lookup)
    requires Remembers(s, last)
    ensures RequestCharge(s, events, id, g, lookup) ==
            Metered([Look(s.requests, true)] + Looks(last, events), id, g, lookup)
    decreases |events|
  {
    var looks := [Look(s.requests, true)] + Looks(last, events);
    assert looks[1..] == Looks(last, events);
    if events != [] {
      var t, e := Step(s, events[0], lookup), events[0];
      if e.Poll? {
        ChargeIsMetered(t, Some(e.snap), events[1..], id, g, lookup);
        MeteredFirst(Look(e.snap.requests, looks[1].uncharged), Looks(Some(e.snap), events[1..]), id, g, lookup);
        MeteredStep(s, e.snap, id, g, lookup);
      } else {
        ChargeIsMetered(t, last, events[1..], id, g, lookup);
      }
    }
  }

  /** A first look that is charged adds what it shows. */
  lemma MeteredFirst(l: Look, rest: seq<Look>, id: Id, g: string, lookup: Lookup)
    ensures Metered([l] + rest, id, g, lookup) ==
            Metered([Look(l.requests, true)] + rest, id, g, lookup)
            + if l.uncharged then 0 else Shown(l, id, g, lookup)
  {
    assert ([l] + rest)[1..] == rest && ([Look(l.requests, true)] + rest)[1..] == rest;
  }

  lemma MeteredStep(s: State, snap: Snapshot, id: Id, g: string, lookup: Lookup)
    ensures var a, b := Look(s.requests, true), Look(snap.requests, Resets(s, snap));
            (if Resets(s, snap) then 0 else Contribution(s.requests, snap.requests, id, g, lookup)) ==
            (if Continues(a, b, id) then 0 else Shown(a, id, g, lookup)) - Shown(a, id, g, lookup)
            + if b.uncharged then 0 else Shown(b, id, g, lookup)
  {
  }

  /** The same over several requests. */
  ghost function MeterTotal(ids: set<Id>, looks: seq<Look>, g: string, lookup: Lookup): int {
    if ids == {} then 0
    else
      var id :| id in ids;
      Metered(looks, id, g, lookup) + MeterTotal(ids - {id}, looks, g, lookup)
  }

  lemma {:induction false} ChargesAreMetered(ids: set<Id>, s: State, last: Option<Snapshot>, events: seq<Event>,
                                             g: string, lookup: Lookup)
    requires Remembers(s, last)
    ensures RequestsCharge(ids, s, events, g, lookup) ==
            MeterTotal(ids, [Look(s.requests, true)] + Looks(last, events), g, lookup)
    decreases ids
  {
    var looks := [Look(s.requests, true)] + Looks(last, events);
    if ids != {} {
      var x :| x in ids && MeterTotal(ids, looks, g, lookup) ==
        Metered(looks, x, g, lookup) + MeterTotal(ids - {x}, looks, g, lookup);
      RequestsChargeSplit(ids, x, s, events, g, lookup);
      ChargeIsMetered(s, last, events, x, g, lookup);
      ChargesAreMetered(ids - {x}, s, last, events, g, lookup);
    }
  }

  /** For every interleaving of polls, failed polls, resets and emits, what a group
      has been handed over and still holds is told by the polled readings alone. */
  lemma WaitsAreMetered(ids: set<Id>, s: State, last: Option<Snapshot>, events: seq<Event>, g: string, lookup: Lookup)
    requires Remembers(s, last)
    requires forall i :: 0 <= i < |events| && events[i].Poll? ==> events[i].snap.requests.Keys <= ids
    ensures var t := Run(s, events, lookup);
            EmittedTotal(t.emitted, g) + AmountIn(t.waits, g) ==
            EmittedTotal(s.emitted, g) + AmountIn(s.waits, g)
            + MeterTotal(ids, [Look(s.requests, true)] + Looks(last, events), g, lookup)
  {
    RunConserves(s, events, g, lookup);
    RunChargeIsPerRequest(ids, s, events, g, lookup);
    ChargesAreMetered(ids, s, last, events, g, lookup);
  }

  /** The poll shows a wait of the group that is new, or known with another time. */
  predicate Moved(before: Requests, now: Requests, id: Id, g: string, lookup: Lookup) {
    id in now && CountsFor(now[id].wait, g, lookup) && !(id in before && before[id] == now[id])
  }

  lemma TouchedIsMoved(before: Requests, now: Requests, id: Id, g: string, lookup: Lookup)
    ensures Touches(before, now, id, g, lookup) <==> Moved(before, now, id, g, lookup)
  {
  }

  /** A poll that does not reset gives a group an entry exactly when some request
      moved in it. */
  lemma ChargedGroups(s: State, snap: Snapshot, g: string, lookup: Lookup)
    requires !Resets(s, snap)
    ensures g in Step(s, Poll(snap), lookup).waits <==>
              g in s.waits || exists id :: Moved(s.requests, snap.requests, id, g, lookup)
  {
    forall id
      ensures Touches(s.requests, snap.requests, id, g, lookup) <==> Moved(s.requests, snap.requests, id, g, lookup)
    {
      TouchedIsMoved(s.requests, snap.requests, id, g, lookup);
    }
    var before, now := s.requests, snap.requests;
    if exists id :: Touches(before, now, id, g, lookup) {
      var id: Id :| Touches(before, now, id, g, lookup);
      assert id in now.Keys;
    }
    if g in TouchedGroups(before, now, now.Keys, lookup) {
      var id: Id :| id in now && ChargeOf(before, now, id).Some? && GroupOf(now[id].wait, lookup) == Some(g);
      assert Touches(before, now, id, g, lookup);
    }
  }

  // ----- reading the rows of a query -----

  /** The snapshot of a query: the server of its last row, and the last row of each
      request. Without rows the server is unknown. */
  function Collected(rows: seq<Row>): Snapshot {
    if rows == [] then Snapshot("", "", 0, map[])
    else
      var last := rows[|rows| - 1];
      Snapshot(last.domain, last.server, last.booted, Collected(rows[..|rows| - 1]).requests[last.id := last.request])
  }

  /** No later row is of the same request. */
  predicate LastOfRequest(rows: seq<Row>, i: nat)
    requires i < |rows|
  {
    forall j :: i < j < |rows| ==> rows[j].id != rows[i].id
  }

  predicate IsListed(rows: seq<Row>, id: Id) {
    exists i :: 0 <= i < |rows| && rows[i].id == id
  }

  lemma ListedStep(rows: seq<Row>, r: Row, id: Id)
    ensures IsListed(rows + [r], id) <==> IsListed(rows, id) || r.id == id
  {
    if i :| 0 <= i < |rows| && rows[i].id == id {
      assert (rows + [r])[i] == rows[i];
    }
    assert (rows + [r])[|rows|] == r;
  }

  lemma LastOfRequestStep(rows: seq<Row>, r: Row, i: nat)
    requires i < |rows| && LastOfRequest(rows + [r], i)
    ensures LastOfRequest(rows, i) && r.id != rows[i].id
  {
    assert forall j :: 0 <= j < |rows| ==> (rows + [r])[j] == rows[j];
    assert (rows + [r])[|rows|] == r;
  }

  /** The snapshot holds the last row of each request, and no other request. */
  lemma {:induction false} CollectedIsLast(rows: seq<Row>)
    ensures forall id :: id in Collected(rows).requests <==> IsListed(rows, id)
    ensures forall i :: 0 <= i < |rows| && LastOfRequest(rows, i) ==>
              rows[i].id in Collected(rows).requests && Collected(rows).requests[rows[i].id] == rows[i].request
  {
    if rows != [] {
      var init, r := rows[..|rows| - 1], rows[|rows| - 1];
      assert rows == init + [r];
      CollectedIsLast(init);
      forall id
        ensures id in Collected(rows).requests <==> IsListed(rows, id)
      {
        ListedStep(init, r, id);
      }
      forall i | 0 <= i < |init| && LastOfRequest(rows, i)
        ensures rows[i].id in Collected(rows).requests && Collected(rows).requests[rows[i].id] == rows[i].request
      {
        LastOfRequestStep(init, r, i);
      }
    }
  }

  method QueryWaits(rows: seq<Row>) returns (snap: Snapshot)
    ensures snap == Collected(rows)
    ensures forall id :: id in snap.requests <==> IsListed(rows, id)
    ensures rows != [] ==>
              var r := rows[|rows| - 1]; snap.domain == r.domain && snap.server == r.server && snap.booted == r.booted
    ensures forall i :: 0 <= i < |rows| && LastOfRequest(rows, i) ==>
              rows[i].id in snap.requests && snap.requests[rows[i].id] == rows[i].request
  {
    var rr: Requests := map[];
    var domain, server, booted := "", "", 0;
    for i := 0 to |rows|
      invariant Snapshot(domain, server, booted, rr) == Collected(rows[..i])
    {
      assert rows[..i + 1][..i] == rows[..i];
      domain, server, booted := rows[i].domain, rows[i].server, rows[i].booted;
      rr := rr[rows[i].id := rows[i].request];
    }
    assert rows[..|rows|] == rows;
    CollectedIsLast(rows);
    return Snapshot(domain, server, booted, rr);
  }

  /** The poll found rows of this server only, possibly none. */
  ghost predicate Answers(snap: Snapshot, domain: string, server: string, booted: int) {
    exists rows :: snap == Collected(rows) && RowsOf(rows, domain, server, booted)
  }

  predicate RowsOf(rows: seq<Row>, domain: string, server: string, booted: int) {
    forall r :: r in rows ==> r.domain == domain && r.server == server && r.booted == booted
  }

  /** A poll without rows names no server, and no other poll is without requests. */
  lemma AnswersShape(snap: Snapshot, domain: string, server: string, booted: int)
    requires Answers(snap, domain, server, booted)
    ensures snap.requests == map[] ==> snap == Collected([])
    ensures snap.requests != map[] ==> snap.domain == domain && snap.server == server && snap.booted == booted
  {
    var rows :| snap == Collected(rows) && RowsOf(rows, domain, server, booted);
    if rows != [] {
      var last := rows[|rows| - 1];
      assert last in rows && last.id in snap.requests;
    }
  }

  /** One server answers all polls of a run, from any state. A poll then resets
      exactly when one, and only one, of it and the successful poll before it found
      no request; a second idle poll does not reset. Before the first poll of the run
      a box that knows the server counts as one that found requests. What the poll
      found is charged, against the poll before, exactly when it does not reset. */
  lemma IdlePollsReset(s: State, events: seq<Event>, snap: Snapshot, domain: string, server: string, booted: int,
                       lookup: Lookup)
    requires (domain, server, booted) != ("", "", 0)
    requires forall e :: e in events && e.Poll? ==> Answers(e.snap, domain, server, booted)
    requires Answers(snap, domain, server, booted)
    ensures var t, last := Run(s, events, lookup), LastPoll(events);
            && (last.Some? ==> (Resets(t, snap) <==> ((snap.requests == map[]) != (last.value.requests == map[]))))
            && (last.None? && !s.first && SameOrigin(s, domain, server, booted) ==>
                  (Resets(t, snap) <==> snap.requests == map[]))
            && Step(t, Poll(snap), lookup).waits ==
               if Resets(t, snap) then t.waits
               else Charged(t.waits, if last.Some? then last.value.requests else s.requests, snap.requests, lookup)
  {
    RunRemembersLastPoll(s, events, lookup);
    AnswersShape(snap, domain, server, booted);
    LastPollIn(events);
    var last := LastPoll(events);
    if last.Some? {
      AnswersShape(last.value, domain, server, booted);
    }
  }

  lemma {:induction false} LastPollIn(events: seq<Event>)
    ensures LastPoll(events).Some? ==> Poll(LastPoll(events).value) in events
  {
    if events != [] {
      LastPollIn(events[..|events| - 1]);
    }
  }
}
