/** The ring of the last wait lists of a server, and the ranking of its wait groups. */
module WaitRing {
  import opened Common

  datatype WaitList = WaitList(ts: int, waits: map<string, int>)

  // ----- positions -----

  lemma {:induction false} ModNext(p: nat, n: nat)
    requires n > 0
    ensures Mod(p + 1, n) == if Mod(p, n) + 1 == n then 0 else Mod(p, n) + 1
  {
    if p >= n {
      ModNext(p - n, n);
    } else if p + 1 == n {
      assert Mod(n, n) == Mod(0, n);
    }
  }

  lemma {:induction false} ModOffset(p: nat, k: nat, n: nat)
    requires k < n
    ensures Mod(p + k, n) == if Mod(p, n) + k < n then Mod(p, n) + k else Mod(p, n) + k - n
  {
    if k > 0 {
      ModOffset(p, k - 1, n);
      ModNext(p + k - 1, n);
    }
  }

  /** Entry `i` of a log of `p` entries is among the newest `n`. */
  predicate Retained(i: int, p: nat, n: nat) {
    0 <= i < p && p - n <= i
  }

  /** An array and an insert count hold the newest entries of a log, each at its
      number modulo the size. */
  ghost predicate Holds<T>(d: seq<T>, p: nat, log: seq<T>) {
    && p == |log| && |d| > 0
    && forall i :: Retained(i, p, |d|) ==> d[Mod(i, |d|)] == log[i]
  }

  lemma HoldsPush<T>(d: seq<T>, p: nat, log: seq<T>, x: T)
    requires Holds(d, p, log)
    ensures Holds(d[Mod(p, |d|) := x], p + 1, log + [x])
  {
    var n := |d|;
    forall i | Retained(i, p + 1, n) && i < p
      ensures Mod(i, n) != Mod(p, n)
    {
      ModOffset(i, p - i, n);
    }
  }

  /** Slot `k` after the insert position, wrapping round. */
  function After(c: nat, k: nat, n: nat): nat
    requires c < n && k < n
  {
    if c + k < n then c + k else c + k - n
  }

  lemma HoldsAt<T>(d: seq<T>, p: nat, log: seq<T>, c: nat, k: nat)
    requires Holds(d, p, log) && p > |d| && k < |d| && c == Mod(p, |d|)
    ensures log[p - |d| + k] == d[After(c, k, |d|)]
  {
    var q := p - |d|;
    assert Mod(q, |d|) == c;
    ModOffset(q, k, |d|);
    assert Retained(q + k, p, |d|);
  }

  lemma Rotation<T>(d: seq<T>, s: seq<T>, c: nat)
    requires |s| == |d| && c < |d|
    requires forall k :: 0 <= k < |d| ==> s[k] == d[After(c, k, |d|)]
    ensures d[c..] + d[..c] == s
  {
    var r := d[c..] + d[..c];
    assert forall k :: 0 <= k < |d| ==> r[k] == d[After(c, k, |d|)];
  }

  /** The array read from its insert position on is oldest first, once it is full. */
  lemma HoldsValues<T>(d: seq<T>, p: nat, log: seq<T>, c: nat)
    requires Holds(d, p, log) && c == Mod(p, |d|)
    ensures if p <= |d| then d[..p] == log else d[c..] + d[..c] == log[p - |d|..]
  {
    if p <= |d| {
      assert forall i :: 0 <= i < p ==> Retained(i, p, |d|);
    } else {
      var s := log[p - |d|..];
      forall k | 0 <= k < |d|
        ensures s[k] == d[After(c, k, |d|)]
      {
        HoldsAt(d, p, log, c, k);
      }
      Rotation(d, s, c);
    }
  }

  // ----- totals and ranks -----

  function Positive(d: int): nat {
    if d > 0 then d else 0
  }

  /** The sum of the positive durations of a group over some lists. */
  function TotalOf(lists: seq<WaitList>, g: string): nat {
    if lists == [] then 0
    else
      TotalOf(lists[..|lists| - 1], g) + Positive(AmountIn(lists[|lists| - 1].waits, g))
  }

  /** A total is the sum of the positive durations: those of one list are taken as
      they are, and totals add up. */
  lemma {:induction false} TotalIsSum(a: seq<WaitList>, b: seq<WaitList>, w: WaitList, g: string)
    ensures TotalOf([], g) == 0
    ensures TotalOf([w], g) == if g in w.waits && w.waits[g] > 0 then w.waits[g] else 0
    ensures TotalOf(a + b, g) == TotalOf(a, g) + TotalOf(b, g)
    decreases |b|
  {
    assert TotalOf([w][..0], g) == 0;
    if b == [] {
      assert a + b == a;
    } else {
      var n := |b| - 1;
      assert (a + b)[..|a + b| - 1] == a + b[..n];
      TotalIsSum(a, b[..n], w, g);
    }
  }

  lemma {:induction false} TotalIsPositive(lists: seq<WaitList>, g: string)
    ensures TotalOf(lists, g) > 0 <==> exists i :: 0 <= i < |lists| && AmountIn(lists[i].waits, g) > 0
  {
    if lists != [] {
      var n := |lists| - 1;
      TotalIsPositive(lists[..n], g);
      assert forall i :: 0 <= i < n ==> lists[..n][i] == lists[i];
      if exists i :: 0 <= i < |lists| && AmountIn(lists[i].waits, g) > 0 {
        var i :| 0 <= i < |lists| && AmountIn(lists[i].waits, g) > 0;
        assert i < n ==> AmountIn(lists[..n][i].waits, g) > 0;
      }
    }
  }

  /** Larger totals first, then names in ascending order. */
  predicate Outranks(m: map<string, int>, a: string, b: string) {
    AmountIn(m, a) > AmountIn(m, b) || (AmountIn(m, a) == AmountIn(m, b) && CompareStrings(a, b) < 0)
  }

  lemma OutranksIsTotal(m: map<string, int>, a: string, b: string)
    requires a != b
    ensures Outranks(m, a, b) <==> !Outranks(m, b, a)
  {
    CompareStringsFlip(a, b);
    CompareStringsZero(a, b);
  }

  lemma OutranksTransitive(m: map<string, int>, a: string, b: string, c: string)
    requires Outranks(m, a, b) && Outranks(m, b, c)
    ensures Outranks(m, a, c)
  {
    if AmountIn(m, a) == AmountIn(m, c) {
      CompareStringsTransitive(a, b, c);
    }
  }

  ghost predicate Ranked(m: map<string, int>, keys: seq<string>) {
    forall i, j :: 0 <= i < j < |keys| ==> Outranks(m, keys[i], keys[j])
  }

  /** A map with its keys in an array that can be sorted in place. */
  class SortedMap {
    const base: map<string, int>
    const keys: array<string>

    constructor (base: map<string, int>)
      ensures this.base == base && fresh(keys)
      ensures keys.Length == |base|
      ensures Distinct(keys[..]) && forall k :: k in keys[..] <==> k in base
    {
      this.base := base;
      var a := new string[|base|];
      keys := a;
      new;
      var todo := base.Keys;
      var i := 0;
      while todo != {}
        invariant i + |todo| == a.Length && todo <= base.Keys
        invariant Distinct(a[..i])
        invariant forall k :: k in a[..i] <==> k in base && k !in todo
        decreases todo
      {
        var key :| key in todo;
        a[i] := key;
        assert a[..i + 1] == a[..i] + [key];
        todo := todo - {key};
        i := i + 1;
      }
      assert a[..i] == a[..];
    }

    method Less(i: nat, j: nat) returns (less: bool)
      requires i < keys.Length && j < keys.Length
      ensures less <==> Outranks(base, keys[i], keys[j])
    {
      var a, b := AmountIn(base, keys[i]), AmountIn(base, keys[j]);
      if a != b {
        return a > b;
      }
      CompareStringsFlip(keys[i], keys[j]);
      return CompareStrings(keys[j], keys[i]) > 0;
    }

    method Swap(i: nat, j: nat)
      requires i < keys.Length && j < keys.Length
      modifies keys
      ensures keys[..] == old(keys[..])[i := old(keys[j])][j := old(keys[i])]
    {
      keys[i], keys[j] := keys[j], keys[i];
    }

    /** The position that an exchange of `i` and `j` moves position `k` to. */
    ghost function Moved(i: int, j: int, k: int): int {
      if k == i then j else if k == j then i else k
    }

    /** The keys before position `i`, without the one at `j`, are ranked, and the one
        at `j` comes before all those after it. */
    ghost predicate Sinking(s: seq<string>, i: int, j: int) {
      && 0 <= j <= i < |s| && Distinct(s)
      && (forall x, y :: 0 <= x < y <= i && x != j && y != j ==> Outranks(base, s[x], s[y]))
      && (forall y :: j < y <= i ==> Outranks(base, s[j], s[y]))
    }

    lemma SinkStep(s: seq<string>, i: int, j: int)
      requires Sinking(s, i, j) && j > 0 && Outranks(base, s[j], s[j - 1])
      ensures var t := s[j := s[j - 1]][j - 1 := s[j]];
              Sinking(t, i, j - 1) && forall k :: k in t <==> k in s
    {
      SwapKeeps(s, j, j - 1, s[j := s[j - 1]][j - 1 := s[j]]);
    }

    /** Sinks the key at `i` to its rank among the keys before it. */
    method Insert(i: nat)
      requires i < keys.Length && Distinct(keys[..]) && Ranked(base, keys[..i])
      modifies keys
      ensures Distinct(keys[..]) && Ranked(base, keys[..i + 1])
      ensures forall k :: k in keys[..] <==> k in old(keys[..])
    {
      var j := i;
      while j > 0
        invariant Sinking(keys[..], i, j)
        invariant forall k :: k in keys[..] <==> k in old(keys[..])
      {
        var less := Less(j, j - 1);
        if !less {
          break;
        }
        SinkStep(keys[..], i, j);
        Swap(j, j - 1);
        j := j - 1;
      }
      if j > 0 {
        OutranksIsTotal(base, keys[j - 1], keys[j]);
      }
      SunkIsRanked(keys[..i + 1], j);
    }

    /** A key that comes after its left neighbour comes after all keys on its left. */
    lemma SunkIsRanked(s: seq<string>, j: nat)
      requires j < |s|
      requires forall x, y :: 0 <= x < y < |s| && x != j && y != j ==> Outranks(base, s[x], s[y])
      requires forall y :: j < y < |s| ==> Outranks(base, s[j], s[y])
      requires j > 0 ==> Outranks(base, s[j - 1], s[j])
      ensures Ranked(base, s)
    {
      forall x | 0 <= x < j
        ensures Outranks(base, s[x], s[j])
      {
        if x < j - 1 {
          OutranksTransitive(base, s[x], s[j - 1], s[j]);
        }
      }
    }

    lemma SwapKeeps(was: seq<string>, i: nat, j: nat, now: seq<string>)
      requires i < |was| && j < |was| && now == was[i := was[j]][j := was[i]]
      requires Distinct(was)
      ensures Distinct(now) && forall k :: k in now <==> k in was
    {
      assert forall k :: 0 <= k < |was| ==> now[k] == was[Moved(i, j, k)] && was[k] == now[Moved(i, j, k)];
    }

    /** Sorting by `Less` and `Swap`, which is what `sort.Sort` does. */
    method Sort()
      requires Distinct(keys[..])
      modifies keys
      ensures Ranked(base, keys[..])
      ensures forall k :: k in keys[..] <==> k in old(keys[..])
    {
      for i := 0 to keys.Length
        invariant Distinct(keys[..]) && Ranked(base, keys[..i])
        invariant forall k :: k in keys[..] <==> k in old(keys[..])
      {
        Insert(i);
      }
      assert keys[..keys.Length] == keys[..];
    }
  }

  // ----- the ring -----

  class Ring {
    const data: array<WaitList>
    var p: nat
    ghost var log: seq<WaitList>

    /** The array holds the newest entries of the log. */
    ghost predicate Valid()
      reads this, data
    {
      Holds(data[..], p, log)
    }

    constructor New(size: nat)
      requires size > 0
      ensures Valid() && log == [] && data.Length == size && fresh(data)
    {
      data := new WaitList[size](_ => WaitList(0, map[]));
      p, log := 0, [];
    }

    /** Writes at the insert position, which counts on for ever and wraps by remainder. */
    method Enqueue(w: WaitList)
      requires Valid()
      modifies this, data
      ensures Valid() && log == old(log) + [w]
    {
      ghost var d := data[..];
      HoldsPush(d, p, log, w);
      data[Mod(p, data.Length)] := w;
      assert data[..] == d[Mod(p, data.Length) := w];
      p := p + 1;
      log := log + [w];
    }

    /** The entry written last, or an empty one. */
    method Last() returns (w: WaitList)
      requires Valid()
      ensures w == if log == [] then WaitList(0, map[]) else log[|log| - 1]
    {
      if p == 0 {
        return WaitList(0, map[]);
      }
      assert Retained(p - 1, p, data.Length);
      w := data[Mod(p - 1, data.Length)];
    }

    /** The retained entries, oldest first. */
    method Values() returns (values: seq<WaitList>)
      requires Valid()
      ensures values == LastN(log, data.Length)
    {
      var c := Mod(p, data.Length);
      HoldsValues(data[..], p, log, c);
      if p < data.Length + 1 {
        return data[0..p];
      }
      values := data[c..data.Length];
      values := values + data[0..c];
      assert values == data[..][c..] + data[..][..c];
    }

    /** Adds the positive durations of one list to the totals. */
    method AddList(totals: map<string, int>, w: WaitList) returns (sum: map<string, int>)
      requires forall g :: g in totals ==> totals[g] > 0
      ensures forall g :: AmountIn(sum, g) == AmountIn(totals, g) + Positive(AmountIn(w.waits, g))
      ensures forall g :: g in sum ==> sum[g] > 0
    {
      sum := totals;
      var todo := w.waits.Keys;
      while todo != {}
        invariant todo <= w.waits.Keys
        invariant forall g :: g in sum ==> sum[g] > 0
        invariant forall g :: AmountIn(sum, g) ==
                    AmountIn(totals, g) + if g !in todo then Positive(AmountIn(w.waits, g)) else 0
        decreases todo
      {
        var wg :| wg in todo;
        todo := todo - {wg};
        var duration := w.waits[wg];
        if duration > 0 {
          if wg in sum {
            sum := sum[wg := sum[wg] + duration];
          } else {
            sum := sum[wg := duration];
          }
        }
      }
    }

    /** The groups with the largest totals over the retained lists; zero asks for all. */
    method Top(n: nat) returns (totals: map<string, int>, keys: seq<string>)
      requires Valid()
      ensures forall g :: AmountIn(totals, g) == TotalOf(LastN(log, data.Length), g)
      ensures forall g :: g in totals <==> TotalOf(LastN(log, data.Length), g) > 0
      ensures |keys| == if n == 0 || |totals| < n then |totals| else n
      ensures Ranked(totals, keys) && forall k :: k in keys ==> k in totals
      ensures forall i, j :: 0 <= i < j < |keys| ==>
                totals[keys[i]] > totals[keys[j]] || (totals[keys[i]] == totals[keys[j]] && LexBelow(keys[i], keys[j]))
      ensures forall a, b :: a in keys && b in totals && b !in keys ==> Outranks(totals, a, b)
    {
      var v := Values();
      totals := map[];
      for i := 0 to |v|
        invariant forall g :: AmountIn(totals, g) == TotalOf(v[..i], g)
        invariant forall g :: g in totals ==> totals[g] > 0
      {
        assert v[..i + 1][..i] == v[..i];
        totals := AddList(totals, v[i]);
      }
      assert v[..|v|] == v;
      var sm := new SortedMap(totals);
      sm.Sort();
      keys := sm.keys[..];
      ghost var all := keys;
      if n != 0 && n < |keys| {
        keys := keys[0..n];
      }
      CutKeepsBest(totals, all, |keys|);
      assert keys == all[..|keys|];
      RankedByTotal(totals, keys);
    }

    lemma RankedByTotal(m: map<string, int>, keys: seq<string>)
      requires Ranked(m, keys) && forall k :: k in keys ==> k in m
      ensures forall i, j :: 0 <= i < j < |keys| ==>
                m[keys[i]] > m[keys[j]] || (m[keys[i]] == m[keys[j]] && LexBelow(keys[i], keys[j]))
    {
      forall i, j | 0 <= i < j < |keys|
        ensures m[keys[i]] > m[keys[j]] || (m[keys[i]] == m[keys[j]] && LexBelow(keys[i], keys[j]))
      {
        CompareStringsIsLex(keys[i], keys[j]);
      }
    }

    lemma CutKeepsBest(m: map<string, int>, all: seq<string>, n: nat)
      requires n <= |all| && Ranked(m, all) && forall k :: k in all <==> k in m
      ensures Ranked(m, all[..n])
      ensures forall a, b :: a in all[..n] && b in m && b !in all[..n] ==> Outranks(m, a, b)
    {
      assert all == all[..n] + all[n..];
      forall a, b | a in all[..n] && b in all[n..]
        ensures Outranks(m, a, b)
      {
        var i :| 0 <= i < n && all[i] == a;
        var j :| 0 <= j < |all| - n && all[n..][j] == b;
        assert all[n + j] == b;
      }
    }
  }
}
