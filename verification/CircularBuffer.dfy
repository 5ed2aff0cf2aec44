/** The circular buffer behind the CPU and metric histories: head and tail indexes
    modulo the capacity, with head -1 for an empty buffer. */
module CircularBuffer {
  import opened Common

  const DEFAULT_CAPACITY: nat := 60

  // ----- the bounded queue it implements -----

  /** Adding to a full queue drops the oldest element. */
  function Pushed<T>(q: seq<T>, cap: nat, x: T): seq<T> {
    LastN(q + [x], cap)
  }

  function PushedAll<T>(q: seq<T>, cap: nat, xs: seq<T>): seq<T>
    decreases |xs|
  {
    if xs == [] then q else PushedAll(Pushed(q, cap, xs[0]), cap, xs[1..])
  }

  predicate InBuffer(n: nat, head: int, tail: int) {
    if head == -1 then tail == 0 else 0 <= head < n && 0 <= tail < n
  }

  /** How many slots there are from the tail round to the head. */
  function Count(n: nat, head: int, tail: int): nat
    requires InBuffer(n, head, tail)
  {
    if head == -1 then 0
    else if tail <= head then head - tail + 1
    else n - tail + head + 1
  }

  /** The slot `i` places after the tail. */
  function Slot(n: nat, tail: nat, i: nat): nat
    requires tail < n && i < n
  {
    if tail + i < n then tail + i else tail + i - n
  }

  /** The elements of a buffer from its tail round to its head. */
  function Circle<T>(b: seq<T>, head: int, tail: int): (q: seq<T>)
    requires InBuffer(|b|, head, tail)
    ensures |q| == Count(|b|, head, tail) <= |b|
    ensures forall i :: 0 <= i < |q| ==> q[i] == b[Slot(|b|, tail, i)]
  {
    seq(Count(|b|, head, tail), i requires 0 <= i < Count(|b|, head, tail) => b[Slot(|b|, tail, i)])
  }

  lemma CirclePush<T>(b: seq<T>, head: int, tail: int, x: T, h: int, t: int)
    requires |b| > 0 && InBuffer(|b|, head, tail)
    requires h == Mod(head + 1, |b|)
    requires t == if head != -1 && h == tail then Mod(tail + 1, |b|) else tail
    ensures InBuffer(|b|, h, t) && Circle(b[h := x], h, t) == Pushed(Circle(b, head, tail), |b|, x)
  {
    var q, r := Circle(b, head, tail), Circle(b[h := x], h, t);
    PushedBound(q, |b|, x);
    if |q| == |b| {
      assert forall i :: 0 <= i < |q| - 1 ==> r[i] == q[i + 1];
      assert r == q[1..] + [x];
    } else {
      assert forall i :: 0 <= i < |q| ==> r[i] == q[i];
      assert r == q + [x];
    }
  }

  class Ring<T(0)> {
    var buff: array?<T>
    var head: int
    var tail: int

    ghost predicate Valid()
      reads this
    {
      if buff == null then head == 0 && tail == 0 else InBuffer(buff.Length, head, tail)
    }

    /** The capacity, which an unused ring gets at its first use. */
    ghost function Cap(): nat
      reads this
    {
      if buff == null then DEFAULT_CAPACITY else buff.Length
    }

    /** The queue, oldest element first. */
    ghost function Contents(): seq<T>
      requires Valid()
      reads this, buff
    {
      if buff == null then [] else Circle(buff[..], head, tail)
    }

    /** An unused ring: the zero value. */
    constructor Zero()
      ensures Valid() && buff == null && Contents() == []
    {
      buff, head, tail := null, 0, 0;
    }

    constructor New(size: nat)
      ensures Valid() && buff != null && fresh(buff) && Cap() == size && Contents() == []
    {
      buff := new T[size];
      head, tail := -1, 0;
    }

    method CheckInit()
      requires Valid()
      modifies this
      ensures Valid() && buff != null && buff.Length == old(Cap())
      ensures if old(buff) == null then fresh(buff) else buff == old(buff) && head == old(head) && tail == old(tail)
      ensures Contents() == old(Contents())
      ensures old(buff) == null ==> head == -1 && buff.Length == 60
    {
      if buff == null {
        buff := new T[DEFAULT_CAPACITY];
        head, tail := -1, 0;
      }
    }

    /** Writes after the head and moves the head there; a head that runs into the
        tail pushes the tail on. */
    method Put(x: T)
      requires Valid() && buff != null && buff.Length > 0
      modifies this, buff
      ensures Valid() && buff == old(buff)
      ensures Contents() == Pushed(old(Contents()), Cap(), x)
    {
      ghost var b, wasTail := buff[..], tail;
      buff[Mod(head + 1, buff.Length)] := x;
      var was := head;
      head := Mod(head + 1, buff.Length);
      if was != -1 && head == tail {
        tail := Mod(tail + 1, buff.Length);
      }
      CirclePush(b, was, wasTail, x, head, tail);
      assert buff[..] == b[head := x];
    }

    /** Adds an element; a full ring loses its oldest one. */
    method Enqueue(x: T)
      requires Valid() && Cap() > 0
      modifies this, buff
      ensures Valid() && Cap() == old(Cap()) && (buff == old(buff) || fresh(buff))
      ensures Contents() == Pushed(old(Contents()), Cap(), x)
    {
      CheckInit();
      Put(x);
    }

    /** Removes and returns the oldest element. */
    method Dequeue() returns (r: Option<T>)
      requires Valid()
      modifies this
      ensures Valid() && Cap() == old(Cap()) && (buff == old(buff) || fresh(buff))
      ensures if old(Contents()) == [] then r == None && Contents() == []
              else r == Some(old(Contents())[0]) && Contents() == old(Contents())[1..]
    {
      CheckInit();
      if head == -1 {
        return None;
      }
      r := Some(buff[Mod(tail, buff.Length)]);
      if tail == head {
        head, tail := -1, 0;
      } else {
        tail := Mod(tail + 1, buff.Length);
      }
    }

    /** The element that Dequeue would remove. */
    method Peek() returns (r: Option<T>)
      requires Valid()
      modifies this
      ensures Valid() && Cap() == old(Cap()) && (buff == old(buff) || fresh(buff))
      ensures Contents() == old(Contents())
      ensures r == if Contents() == [] then None else Some(Contents()[0])
    {
      CheckInit();
      if head == -1 {
        return None;
      }
      return Some(buff[Mod(tail, buff.Length)]);
    }

    /** The element added last. */
    method GetNewest() returns (r: Option<T>)
      requires Valid()
      modifies this
      ensures Valid() && Cap() == old(Cap()) && (buff == old(buff) || fresh(buff))
      ensures Contents() == old(Contents())
      ensures r == if Contents() == [] then None else Some(Contents()[|Contents()| - 1])
    {
      CheckInit();
      if head == -1 {
        return None;
      }
      return Some(buff[Mod(head, buff.Length)]);
    }

    /** All elements, oldest first; the walk from tail to head leaves the ring alone. */
    method Values() returns (values: seq<T>)
      requires Valid()
      ensures values == Contents()
    {
      values := [];
      if head == -1 || buff == null {
        return;
      }
      ghost var n := |Contents()|;
      for i := 0 to buff.Length
        invariant i < n && values == Contents()[..i]
      {
        var idx := Mod(i + tail, buff.Length);
        assert idx == Slot(buff.Length, tail, i);
        values := values + [buff[idx]];
        if idx == head {
          return;
        }
      }
    }

    /** Reading a stored ring back: its values are enqueued one after the other. */
    method Unmarshal(values: seq<T>)
      requires Valid() && Cap() > 0
      modifies this, buff
      ensures Valid() && Cap() == old(Cap())
      ensures Contents() == PushedAll(old(Contents()), Cap(), values)
    {
      CheckInit();
      for i := 0 to |values|
        invariant Valid() && buff != null && Cap() == old(Cap())
        invariant buff == old(buff) || fresh(buff)
        invariant PushedAll(Contents(), Cap(), values[i..]) == PushedAll(old(Contents()), Cap(), values)
      {
        Enqueue(values[i]);
      }
    }
  }

  // ----- every run -----

  lemma PushedBound<T>(q: seq<T>, cap: nat, x: T)
    requires |q| <= cap && cap > 0
    ensures |Pushed(q, cap, x)| == if |q| == cap then cap else |q| + 1
    ensures Pushed(q, cap, x) == (if |q| == cap then q[1..] else q) + [x]
  {
  }

  lemma {:induction false} PushedAllKeepsLast<T>(q: seq<T>, cap: nat, xs: seq<T>)
    requires |q| <= cap
    ensures PushedAll(q, cap, xs) == LastN(q + xs, cap)
    decreases |xs|
  {
    if xs == [] {
      assert q + xs == q;
    } else {
      var p, rest := q + [xs[0]], xs[1..];
      assert q + xs == p + rest;
      LastNConcat(p, rest, cap);
      PushedAllKeepsLast(LastN(p, cap), cap, rest);
    }
  }

  /** A ring stored and read back into an unused ring keeps its values exactly when
      they fit into the default capacity. */
  lemma ReloadExact<T>(values: seq<T>)
    ensures PushedAll([], DEFAULT_CAPACITY, values) == values <==> |values| <= 60
    ensures |values| > 0 ==>
              var r := PushedAll([], DEFAULT_CAPACITY, values);
              |r| > 0 && r[|r| - 1] == values[|values| - 1]
  {
    PushedAllKeepsLast([], DEFAULT_CAPACITY, values);
    assert [] + values == values;
  }

  datatype Op<T> = Put(x: T) | Take

  /** A queue and everything that has left it, in the order of leaving. */
  datatype History<T> = History(queue: seq<T>, gone: seq<T>)

  function Step<T>(h: History<T>, cap: nat, op: Op<T>): History<T> {
    match op
    case Put(x) =>
      var full := |h.queue| >= cap && h.queue != [];
      History(Pushed(h.queue, cap, x), if full then h.gone + [h.queue[0]] else h.gone)
    case Take => if h.queue == [] then h else History(h.queue[1..], h.gone + [h.queue[0]])
  }

  function Run<T>(cap: nat, ops: seq<Op<T>>): History<T> {
    if ops == [] then History([], []) else Step(Run(cap, ops[..|ops| - 1]), cap, ops[|ops| - 1])
  }

  function Added<T>(ops: seq<Op<T>>): seq<T> {
    if ops == [] then []
    else Added(ops[..|ops| - 1]) + match ops[|ops| - 1] { case Put(x) => [x] case Take => [] }
  }

  /** Over every run, elements leave in the order they came, by Dequeue or by being
      overwritten; none is lost, repeated or reordered, and the bound is kept. */
  lemma {:induction false} RunIsFifo<T>(cap: nat, ops: seq<Op<T>>)
    requires cap > 0
    ensures var h := Run(cap, ops); h.gone + h.queue == Added(ops) && |h.queue| <= cap
  {
    if ops != [] {
      RunIsFifo(cap, ops[..|ops| - 1]);
      var h := Run(cap, ops[..|ops| - 1]);
      match ops[|ops| - 1] {
        case Put(x) =>
          PushedBound(h.queue, cap, x);
        case Take =>
          assert h.queue != [] ==> h.queue == [h.queue[0]] + h.queue[1..];
      }
    }
  }
}
