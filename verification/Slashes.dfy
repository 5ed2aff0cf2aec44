/** Escaping of backslashes in server names: `\` becomes `\\` and `\\` stays. */
module Slashes {

  import opened Common

  const BACKSLASH: Byte := 92

  function Backslashes(k: nat): (r: seq<Byte>)
    ensures |r| == k && forall i :: 0 <= i < k ==> r[i] == BACKSLASH
  {
    seq(k, _ => BACKSLASH)
  }

  /** Go's `bytes.ReplaceAll`: non-overlapping matches from the left. */
  function ReplaceAll(s: seq<Byte>, from: seq<Byte>, to: seq<Byte>): seq<Byte>
    requires |from| > 0
  {
    if |s| < |from| then s
    else if s[..|from|] == from then to + ReplaceAll(s[|from|..], from, to)
    else [s[0]] + ReplaceAll(s[1..], from, to)
  }

  function FixSlashes(s: seq<Byte>): seq<Byte> {
    ReplaceAll(ReplaceAll(s, Backslashes(1), Backslashes(2)), Backslashes(4), Backslashes(2))
  }

  // ----- the text as runs of backslashes -----

  /** The length of the run of backslashes at the start. */
  function Leading(s: seq<Byte>): (k: nat)
    ensures k <= |s|
    ensures forall i :: 0 <= i < k ==> s[i] == BACKSLASH
    ensures k < |s| ==> s[k] != BACKSLASH
  {
    if s == [] || s[0] != BACKSLASH then 0 else 1 + Leading(s[1..])
  }

  /** The least even number that is at least `k`. */
  function Evened(k: nat): (n: nat)
    ensures n % 2 == 0 && k <= n <= k + 1
    ensures k % 2 == 0 ==> n == k
  {
    if k % 2 == 0 then k else k + 1
  }

  /** Each maximal run of backslashes gets even length, by one more when it is odd;
      every other byte stays in place. */
  function EvenRuns(s: seq<Byte>): seq<Byte> {
    var k := Leading(s);
    if k == |s| then Backslashes(Evened(k))
    else Backslashes(Evened(k)) + [s[k]] + EvenRuns(s[k + 1..])
  }

  predicate AllRunsEven(s: seq<Byte>) {
    var k := Leading(s);
    k == Evened(k) && (k < |s| ==> AllRunsEven(s[k + 1..]))
  }

  /** The bytes that are not backslashes, in order. */
  function Others(s: seq<Byte>): seq<Byte> {
    if s == [] then []
    else if s[0] == BACKSLASH then Others(s[1..])
    else [s[0]] + Others(s[1..])
  }

  // ----- a run, then the rest -----

  /** The rest of a text after a maximal run of backslashes. */
  predicate AfterRun(t: seq<Byte>) {
    t == [] || t[0] != BACKSLASH
  }

  lemma SplitRun(s: seq<Byte>)
    ensures s == Backslashes(Leading(s)) + s[Leading(s)..] && AfterRun(s[Leading(s)..])
  {
  }

  lemma RunFirst(k: nat, t: seq<Byte>)
    requires k > 0
    ensures Backslashes(k) + t == [BACKSLASH] + (Backslashes(k - 1) + t)
    ensures (Backslashes(k) + t)[1..] == Backslashes(k - 1) + t
  {
  }

  lemma RunsJoin(j: nat, k: nat, t: seq<Byte>)
    ensures Backslashes(j) + (Backslashes(k) + t) == Backslashes(j + k) + t
  {
  }

  lemma {:induction false} LeadingIs(k: nat, t: seq<Byte>)
    requires AfterRun(t)
    ensures Leading(Backslashes(k) + t) == k
  {
    if k == 0 {
      assert Backslashes(0) + t == t;
    } else {
      RunFirst(k, t);
      LeadingIs(k - 1, t);
    }
  }

  lemma EvenRunsOf(k: nat, t: seq<Byte>)
    requires AfterRun(t)
    ensures EvenRuns(Backslashes(k) + t)
         == Backslashes(Evened(k)) + if t == [] then [] else [t[0]] + EvenRuns(t[1..])
  {
    var s := Backslashes(k) + t;
    LeadingIs(k, t);
    if t == [] {
      assert Backslashes(Evened(k)) + [] == Backslashes(Evened(k));
    } else {
      assert s[k] == t[0] && s[k + 1..] == t[1..];
      assert Backslashes(Evened(k)) + [t[0]] + EvenRuns(t[1..]) == Backslashes(Evened(k)) + ([t[0]] + EvenRuns(t[1..]));
    }
  }

  lemma AllRunsEvenOf(k: nat, t: seq<Byte>)
    requires AfterRun(t)
    ensures AllRunsEven(Backslashes(k) + t) <==> k == Evened(k) && (t == [] || AllRunsEven(t[1..]))
  {
    var s := Backslashes(k) + t;
    LeadingIs(k, t);
    var l := Leading(s);
    assert AllRunsEven(s) <==> l == Evened(l) && (l < |s| ==> AllRunsEven(s[l + 1..]));
    if t != [] {
      assert s[k + 1..] == t[1..];
    }
  }

  lemma {:induction false} OthersOf(k: nat, t: seq<Byte>)
    requires AfterRun(t)
    ensures Others(Backslashes(k) + t) == if t == [] then [] else [t[0]] + Others(t[1..])
  {
    if k == 0 {
      assert Backslashes(0) + t == t;
    } else {
      RunFirst(k, t);
      OthersOf(k - 1, t);
    }
  }

  // ----- the two replacements, run by run -----

  lemma Match(from: seq<Byte>, to: seq<Byte>, t: seq<Byte>)
    requires |from| > 0
    ensures ReplaceAll(from + t, from, to) == to + ReplaceAll(t, from, to)
  {
    assert (from + t)[..|from|] == from && (from + t)[|from|..] == t;
  }

  lemma NoMatch(c: Byte, t: seq<Byte>, from: seq<Byte>, to: seq<Byte>)
    requires |from| > 0 && !(from <= [c] + t)
    ensures ReplaceAll([c] + t, from, to) == [c] + ReplaceAll(t, from, to)
  {
    var s := [c] + t;
    assert s[1..] == t;
    if |s| < |from| {
      assert ReplaceAll(t, from, to) == t;
    }
  }

  lemma {:induction false} DoublesRun(k: nat, t: seq<Byte>)
    ensures ReplaceAll(Backslashes(k) + t, Backslashes(1), Backslashes(2))
         == Backslashes(2 * k) + ReplaceAll(t, Backslashes(1), Backslashes(2))
  {
    if k == 0 {
      assert Backslashes(0) + t == t;
      assert Backslashes(0) + ReplaceAll(t, Backslashes(1), Backslashes(2)) ==
             ReplaceAll(t, Backslashes(1), Backslashes(2));
    } else {
      RunsJoin(1, k - 1, t);
      Match(Backslashes(1), Backslashes(2), Backslashes(k - 1) + t);
      DoublesRun(k - 1, t);
      RunsJoin(2, 2 * (k - 1), ReplaceAll(t, Backslashes(1), Backslashes(2)));
    }
  }

  lemma {:induction false} HalvesRun(n: nat, t: seq<Byte>)
    requires AfterRun(t)
    ensures ReplaceAll(Backslashes(n) + t, Backslashes(4), Backslashes(2))
         == Backslashes(Halved(n)) + ReplaceAll(t, Backslashes(4), Backslashes(2))
  {
    var rest := ReplaceAll(t, Backslashes(4), Backslashes(2));
    if n == 0 {
      assert Backslashes(0) + t == t;
      assert Backslashes(0) + rest == rest;
    } else if n >= 4 {
      RunsJoin(4, n - 4, t);
      Match(Backslashes(4), Backslashes(2), Backslashes(n - 4) + t);
      HalvesRun(n - 4, t);
      RunsJoin(2, Halved(n - 4), rest);
    } else {
      RunFirst(n, t);
      ShortRunNoMatch(n, t);
      NoMatch(BACKSLASH, Backslashes(n - 1) + t, Backslashes(4), Backslashes(2));
      HalvesRun(n - 1, t);
      RunFirst(n, rest);
    }
  }

  /** What the second replacement makes of a run of `n`: four become two. */
  function Halved(n: nat): nat {
    if n < 4 then n else 2 + Halved(n - 4)
  }

  lemma {:induction false} HalvedDouble(k: nat)
    ensures Halved(2 * k) == Evened(k)
  {
    if k >= 2 {
      HalvedDouble(k - 2);
    }
  }

  lemma ShortRunNoMatch(n: nat, t: seq<Byte>)
    requires n < 4 && AfterRun(t)
    ensures !(Backslashes(4) <= Backslashes(n) + t)
  {
    var s := Backslashes(n) + t;
    if |s| >= 4 {
      assert s[n] == t[0];
      assert Backslashes(4)[n] == BACKSLASH;
    }
  }

  lemma OtherByteStays(c: Byte, t: seq<Byte>, n: nat)
    requires c != BACKSLASH && n > 0
    ensures ReplaceAll([c] + t, Backslashes(n), Backslashes(2)) == [c] + ReplaceAll(t, Backslashes(n), Backslashes(2))
  {
    assert ([c] + t)[0] == c && Backslashes(n)[0] == BACKSLASH;
    NoMatch(c, t, Backslashes(n), Backslashes(2));
  }

  /** Both replacements on a run and what follows it. */
  lemma FixSlashesOf(k: nat, t: seq<Byte>)
    requires AfterRun(t)
    ensures FixSlashes(Backslashes(k) + t)
         == Backslashes(Evened(k)) + if t == [] then [] else [t[0]] + FixSlashes(t[1..])
  {
    DoublesRun(k, t);
    HalvedDouble(k);
    if t == [] {
      HalvesRun(2 * k, []);
    } else {
      assert t == [t[0]] + t[1..];
      OtherByteStays(t[0], t[1..], 1);
      var doubled := ReplaceAll(t[1..], Backslashes(1), Backslashes(2));
      HalvesRun(2 * k, [t[0]] + doubled);
      OtherByteStays(t[0], doubled, 4);
    }
  }

  // ----- the results -----

  /** `FixSlashes` is the run-by-run definition. */
  lemma {:induction false} FixSlashesEvensRuns(s: seq<Byte>)
    ensures FixSlashes(s) == EvenRuns(s)
    decreases |s|
  {
    var k := Leading(s);
    SplitRun(s);
    FixSlashesOf(k, s[k..]);
    EvenRunsOf(k, s[k..]);
    if k < |s| {
      FixSlashesEvensRuns(s[k..][1..]);
    }
  }

  lemma {:induction false} EvenRunsAreEven(s: seq<Byte>)
    ensures AllRunsEven(EvenRuns(s))
    decreases |s|
  {
    var k := Leading(s);
    var t := s[k..];
    SplitRun(s);
    EvenRunsOf(k, t);
    if t == [] {
      AllRunsEvenOf(Evened(k), []);
    } else {
      var u := [t[0]] + EvenRuns(t[1..]);
      AllRunsEvenOf(Evened(k), u);
      assert u[1..] == EvenRuns(t[1..]);
      EvenRunsAreEven(t[1..]);
    }
  }

  lemma {:induction false} EvenRunsKeeps(s: seq<Byte>)
    requires AllRunsEven(s)
    ensures EvenRuns(s) == s
    decreases |s|
  {
    var k := Leading(s);
    var t := s[k..];
    SplitRun(s);
    EvenRunsOf(k, t);
    AllRunsEvenOf(k, t);
    if t != [] {
      EvenRunsKeeps(t[1..]);
      assert t == [t[0]] + t[1..];
    }
  }

  /** A text is left alone exactly when all its runs of backslashes are even, so
      fixing twice is fixing once. */
  lemma FixSlashesIdempotent(s: seq<Byte>)
    ensures FixSlashes(FixSlashes(s)) == FixSlashes(s)
    ensures FixSlashes(s) == s <==> AllRunsEven(s)
  {
    FixSlashesEvensRuns(s);
    FixSlashesEvensRuns(FixSlashes(s));
    EvenRunsAreEven(s);
    EvenRunsKeeps(FixSlashes(s));
    if AllRunsEven(s) {
      EvenRunsKeeps(s);
    }
  }

  /** Nothing but backslashes is added, and nothing is removed or moved. */
  lemma {:induction false} FixSlashesKeepsOthers(s: seq<Byte>)
    ensures Others(FixSlashes(s)) == Others(s)
    decreases |s|
  {
    var k := Leading(s);
    var t := s[k..];
    SplitRun(s);
    OthersOf(k, t);
    FixSlashesOf(k, t);
    if t == [] {
      OthersOf(Evened(k), []);
    } else {
      var u := [t[0]] + FixSlashes(t[1..]);
      OthersOf(Evened(k), u);
      assert u[1..] == FixSlashes(t[1..]);
      FixSlashesKeepsOthers(t[1..]);
    }
  }
}
