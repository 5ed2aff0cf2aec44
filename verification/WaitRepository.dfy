/** The repository of wait lists: one ring of 60 lists for each server key. */
module WaitRepository {
  import opened Common
  import opened WaitRing

  const RING_SIZE: nat := 60

  type Log = seq<WaitList>

  /** What the repository holds: everything written to each key since it was last deleted. */
  datatype State = State(open: bool, logs: map<string, Log>)

  datatype Event = Write(key: string, w: WaitList) | Delete(key: string) | Close

  function LogOf(s: State, key: string): Log {
    if key in s.logs then s.logs[key] else []
  }

  function Step(s: State, e: Event): State {
    if !s.open then s
    else match e
      case Write(key, w) => s.(logs := s.logs[key := LogOf(s, key) + [w]])
      case Delete(key) => s.(logs := s.logs - {key})
      case Close => s.(open := false)
  }

  /** What a reader sees of a key. */
  function Visible(s: State, key: string): Log {
    if s.open then LastN(LogOf(s, key), RING_SIZE) else []
  }

  class Repository {
    var servers: map<string, Ring>
    var open: bool
    ghost var repr: set<object>

    /** No two keys share a ring or an array. */
    ghost predicate Apart()
      reads `servers
    {
      forall j, k :: j in servers && k in servers && j != k ==>
        servers[j] != servers[k] && servers[j].data != servers[k].data
    }

    /** All rings belong to the repository and have its size. */
    ghost predicate Owned()
      reads `servers, `repr
    {
      this in repr && forall k :: k in servers ==>
        servers[k] in repr && servers[k].data in repr && servers[k].data.Length == RING_SIZE
    }

    /** Every key has a ring of its own. */
    ghost predicate Valid()
      reads this, repr
    {
      Apart() && Owned() && forall k :: k in servers ==> servers[k].Valid()
    }

    /** What the rings were given. */
    ghost function Logs(): map<string, Log>
      requires Owned()
      reads this, repr
    {
      map k | k in servers :: servers[k].log
    }

    ghost function Abs(): State
      requires Owned()
      reads this, repr
    {
      State(open, Logs())
    }

    constructor ()
      ensures Valid() && fresh(repr) && Abs() == State(true, map[])
    {
      servers, open := map[], true;
      repr := {this};
    }

    method Close()
      requires Valid()
      modifies this
      ensures Valid() && repr == old(repr)
      ensures Abs() == Step(old(Abs()), Event.Close)
    {
      open := false;
    }

    /** A new, empty ring for a key that has none. */
    method AddRing(key: string) returns (ring: Ring)
      requires Valid() && key !in servers
      modifies this
      ensures Valid() && fresh(repr - old(repr)) && open == old(open)
      ensures servers == old(servers)[key := ring] && Logs() == old(Logs())[key := []]
    {
      ring := new Ring.New(RING_SIZE);
      assert forall k :: k in servers ==>
               servers[k] != ring && servers[k].data != ring.data && servers[k].Valid();
      servers := servers[key := ring];
      repr := repr + {ring, ring.data};
    }

    /** The ring of a key, made on its first write. */
    method RingFor(key: string) returns (ring: Ring)
      requires Valid() && open
      modifies this
      ensures Valid() && fresh(repr - old(repr)) && open
      ensures key in servers && servers[key] == ring
      ensures Logs() == old(Logs())[key := LogOf(old(Abs()), key)]
    {
      if key in servers {
        ring := servers[key];
      } else {
        ring := AddRing(key);
      }
    }

    /** Enqueues into the ring of one key, which leaves every other ring alone. */
    method Append(key: string, w: WaitList)
      requires Valid() && key in servers
      modifies servers[key], servers[key].data
      ensures Valid()
      ensures Logs() == old(Logs())[key := old(Logs())[key] + [w]]
    {
      var ring := servers[key];
      ring.Enqueue(w);
      forall k | k in servers && k != key
        ensures servers[k].Valid() && servers[k].log == old(servers[k].log)
      {
        assert servers[k] != ring && servers[k].data != ring.data;
      }
    }

    /** Adds a list to the ring of a key; a closed repository ignores it. */
    method Write(key: string, w: WaitList)
      requires Valid()
      modifies repr
      ensures Valid() && fresh(repr - old(repr))
      ensures Abs() == Step(old(Abs()), Event.Write(key, w))
    {
      if !open {
        return;
      }
      ghost var logs, log := Logs(), LogOf(Abs(), key);
      var _ := RingFor(key);
      Append(key, w);
      assert logs[key := log][key := log + [w]] == logs[key := log + [w]];
    }

    method Values(key: string) returns (values: Log)
      requires Valid()
      ensures values == Visible(Abs(), key)
    {
      if !open || key !in servers {
        return [];
      }
      values := servers[key].Values();
    }

    /** The newest list of a key, or an empty one. */
    method Last(key: string) returns (w: WaitList)
      requires Valid()
      ensures var v := Visible(Abs(), key); w == if v == [] then WaitList(0, map[]) else v[|v| - 1]
    {
      if !open || key !in servers {
        return WaitList(0, map[]);
      }
      w := servers[key].Last();
    }

    /** The groups with the largest totals of a key. Whatever number is asked for,
        five are returned, or all when there are fewer. */
    method Top(key: string, n: int) returns (totals: map<string, int>, keys: seq<string>)
      requires Valid()
      ensures forall g :: AmountIn(totals, g) == TotalOf(Visible(Abs(), key), g)
      ensures |keys| == if |totals| < 5 then |totals| else 5
      ensures Ranked(totals, keys) && forall k :: k in keys ==> k in totals
      ensures forall a, b :: a in keys && b in totals && b !in keys ==> Outranks(totals, a, b)
    {
      if !open || key !in servers {
        return map[], [];
      }
      totals, keys := servers[key].Top(5);
    }

    method Delete(key: string)
      requires Valid()
      modifies this
      ensures Valid() && repr == old(repr)
      ensures Abs() == Step(old(Abs()), Event.Delete(key))
    {
      if !open {
        return;
      }
      servers := servers - {key};
    }
  }

  // ----- every run -----

  function Run(events: seq<Event>): State {
    if events == [] then State(true, map[]) else Step(Run(events[..|events| - 1]), events[|events| - 1])
  }

  /** What an event does to the log of one key. */
  function LogAfter(before: Log, e: Event, key: string): Log {
    match e
    case Write(k, w) => if k == key then before + [w] else before
    case Delete(k) => if k == key then [] else before
    case Close => before
  }

  /** The lists written to one key after its last deletion, in order. */
  function WrittenSince(events: seq<Event>, key: string): Log {
    if events == [] then []
    else LogAfter(WrittenSince(events[..|events| - 1], key), events[|events| - 1], key)
  }

  /** After any run, a reader of a key sees the last 60 lists written to it since it
      was deleted, whatever happened to other keys; after a close it sees nothing. */
  lemma {:induction false} RunShowsLastWrites(events: seq<Event>, key: string)
    ensures Event.Close !in events ==>
              Run(events).open && LogOf(Run(events), key) == WrittenSince(events, key)
              && Visible(Run(events), key) == LastN(WrittenSince(events, key), 60)
    ensures Event.Close in events ==> Visible(Run(events), key) == []
  {
    if events != [] {
      var n := |events| - 1;
      RunShowsLastWrites(events[..n], key);
      assert events == events[..n] + [events[n]];
      RunOpen(events[..n]);
    }
  }

  lemma {:induction false} RunOpen(events: seq<Event>)
    ensures Run(events).open <==> Event.Close !in events
  {
    if events != [] {
      RunOpen(events[..|events| - 1]);
      assert events == events[..|events| - 1] + [events[|events| - 1]];
    }
  }

  /** Only the events of a key matter to it. */
  function About(events: seq<Event>, key: string): seq<Event> {
    if events == [] then []
    else
      var e := events[|events| - 1];
      About(events[..|events| - 1], key) + if e.Close? || e.key == key then [e] else []
  }

  lemma AboutStep(events: seq<Event>, e: Event, key: string)
    ensures WrittenSince(events + [e], key) == LogAfter(WrittenSince(events, key), e, key)
  {
    assert (events + [e])[..|events|] == events;
  }

  lemma {:induction false} AboutKeeps(events: seq<Event>, key: string)
    ensures WrittenSince(events, key) == WrittenSince(About(events, key), key)
    ensures Event.Close in events <==> Event.Close in About(events, key)
  {
    if events != [] {
      var init, e := events[..|events| - 1], events[|events| - 1];
      AboutKeeps(init, key);
      assert events == init + [e];
      if e.Close? || e.key == key {
        AboutStep(About(init, key), e, key);
      } else {
        assert About(events, key) == About(init, key);
      }
    }
  }

  /** What a reader of a key sees does not depend on the events of other keys. */
  lemma KeysAreIndependent(events: seq<Event>, key: string)
    ensures Visible(Run(events), key) == Visible(Run(About(events, key)), key)
  {
    AboutKeeps(events, key);
    RunShowsLastWrites(events, key);
    RunShowsLastWrites(About(events, key), key);
  }
}
