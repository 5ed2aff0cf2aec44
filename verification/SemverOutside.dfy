/** Whether a version lies above or below everything that a range allows. */
module SemverOutside {
  import opened Common
  import opened SemverOrder
  import opened SemverRange
  import opened SemverPasses

  /** The comparison of two versions as seen when looking up, or down when `up` is false. */
  function Toward(up: bool, a: Version, b: Version): int {
    if up then Compare(a, b) else Compare(b, a)
  }

  /** The furthest and the nearest comparator of a set in the direction of view. */
  datatype Edges = Edges(high: Comparator, low: Comparator)

  /** The edges among the first `n` comparators; none when an "any version" is
      compared, which throws in the original. */
  function EdgesOf(cs: seq<Comparator>, n: nat, up: bool): (e: Option<Edges>)
    requires 0 < n <= |cs|
    ensures e.Some? ==> e.value.high.Bound? && e.value.low.Bound?
  {
    if cs[n - 1].AnyVersion? then None
    else if n == 1 then Some(Edges(cs[0], cs[0]))
    else
      var e := EdgesOf(cs, n - 1, up);
      if e.None? then None
      else if Toward(up, cs[n - 1].version, e.value.high.version) > 0 then Some(e.value.(high := cs[n - 1]))
      else if Toward(up, cs[n - 1].version, e.value.low.version) < 0 then Some(e.value.(low := cs[n - 1]))
      else e
  }

  /** Whether a set leaves the version outside, judged by its two edges. */
  function BeyondEdges(e: Edges, v: Version, up: bool): bool
    requires e.high.Bound? && e.low.Bound?
  {
    var comp, ecomp := if up then Gt else Lt, if up then Ge else Le;
    if e.high.op == comp || e.high.op == ecomp then false
    else if (e.low.op == Bare || e.low.op == comp) && Toward(up, v, e.low.version) <= 0 then false
    else if e.low.op == ecomp && Toward(up, v, e.low.version) < 0 then false
    else true
  }

  ghost predicate NonEmptySets(sets: seq<seq<Comparator>>) {
    forall i :: 0 <= i < |sets| ==> |sets[i]| > 0
  }

  ghost function BeyondSets(sets: seq<seq<Comparator>>, v: Version, up: bool): Option<bool>
    requires NonEmptySets(sets)
  {
    if sets == [] then Some(true)
    else
      var e := EdgesOf(sets[0], |sets[0]|, up);
      if e.None? then None
      else if !BeyondEdges(e.value, v, up) then Some(false)
      else BeyondSets(sets[1..], v, up)
  }

  ghost function Beyond(sets: seq<seq<Comparator>>, v: Version, up: bool): Option<bool>
    requires NonEmptySets(sets)
  {
    if RangeAccepts(sets, v) then Some(false) else BeyondSets(sets, v, up)
  }

  // ----- the two edges -----

  /** Comparator `i` is the first of the furthest ones among the first `n`. */
  predicate IsEdge(cs: seq<Comparator>, n: nat, i: nat, up: bool)
    requires n <= |cs|
  {
    && i < n && cs[i].Bound?
    && forall j :: 0 <= j < n ==>
         && cs[j].Bound? && Toward(up, cs[j].version, cs[i].version) <= 0
         && (j < i ==> Toward(up, cs[j].version, cs[i].version) < 0)
  }

  ghost predicate EdgeIs(cs: seq<Comparator>, n: nat, c: Comparator, up: bool)
    requires n <= |cs|
  {
    exists i: nat :: IsEdge(cs, n, i, up) && cs[i] == c
  }

  /** The scan ends with the furthest and the nearest comparator, the first ones
      where versions are equal. */
  lemma {:induction false} EdgesAreExtreme(cs: seq<Comparator>, n: nat, up: bool)
    requires 0 < n <= |cs| && EdgesOf(cs, n, up).Some?
    ensures var e := EdgesOf(cs, n, up).value;
            EdgeIs(cs, n, e.high, up) && EdgeIs(cs, n, e.low, !up)
  {
    if n == 1 {
      EdgeAlone(cs, up);
      EdgeAlone(cs, !up);
    } else {
      EdgesAreExtreme(cs, n - 1, up);
      var e := EdgesOf(cs, n - 1, up).value;
      EdgeStep(cs, n - 1, e.high, up);
      EdgeStep(cs, n - 1, e.low, !up);
      CompareAntisymmetric(cs[n - 1].version, e.low.version);
      if Toward(up, cs[n - 1].version, e.high.version) > 0 {
        LowBeforeHigh(cs, n - 1, e, cs[n - 1].version, up);
      }
    }
  }

  /** The scan fails exactly when it meets an "any version". */
  lemma {:induction false} EdgesOfAny(cs: seq<Comparator>, n: nat, up: bool)
    requires 0 < n <= |cs|
    ensures EdgesOf(cs, n, up).None? <==> exists c :: c in cs[..n] && c.AnyVersion?
  {
    assert cs[..n] == cs[..n - 1] + [cs[n - 1]];
    if n > 1 {
      EdgesOfAny(cs, n - 1, up);
    }
  }

  /** A version beyond the high edge is not before the low one. */
  lemma LowBeforeHigh(cs: seq<Comparator>, n: nat, e: Edges, v: Version, up: bool)
    requires n <= |cs| && e.high.Bound? && EdgeIs(cs, n, e.high, up) && EdgeIs(cs, n, e.low, !up)
    requires e.low.Bound? && Toward(up, v, e.high.version) > 0
    ensures Toward(up, v, e.low.version) >= 0
  {
    var h: nat :| IsEdge(cs, n, h, up) && cs[h] == e.high;
    var l: nat :| IsEdge(cs, n, l, !up) && cs[l] == e.low;
    assert Toward(!up, cs[h].version, cs[l].version) <= 0;
    CompareAntisymmetric(v, e.high.version);
    CompareAntisymmetric(v, e.low.version);
    TowardTransitive(up, e.low.version, e.high.version, v);
  }

  lemma EdgeAlone(cs: seq<Comparator>, up: bool)
    requires |cs| > 0
    ensures cs[0].Bound? ==> EdgeIs(cs, 1, cs[0], up)
  {
    if cs[0].Bound? {
      CompareAntisymmetric(cs[0].version, cs[0].version);
      assert IsEdge(cs, 1, 0, up);
    }
  }

  lemma TowardTransitive(up: bool, a: Version, b: Version, c: Version)
    requires Toward(up, a, b) <= 0 && Toward(up, b, c) <= 0
    ensures Toward(up, a, c) <= 0
    ensures Toward(up, a, c) == 0 ==> Toward(up, a, b) == 0 && Toward(up, b, c) == 0
  {
    if up {
      CompareTransitive(a, b, c);
    } else {
      CompareTransitive(c, b, a);
    }
  }

  lemma EdgeStep(cs: seq<Comparator>, n: nat, c: Comparator, up: bool)
    requires n < |cs| && c.Bound? && EdgeIs(cs, n, c, up) && cs[n].Bound?
    ensures EdgeIs(cs, n + 1, if Toward(up, cs[n].version, c.version) > 0 then cs[n] else c, up)
  {
    var i: nat :| IsEdge(cs, n, i, up) && cs[i] == c;
    CompareAntisymmetric(cs[n].version, cs[n].version);
    if Toward(up, cs[n].version, c.version) > 0 {
      CompareAntisymmetric(cs[n].version, c.version);
      forall j | 0 <= j < n
        ensures Toward(up, cs[j].version, cs[n].version) < 0
      {
        TowardTransitive(up, cs[j].version, c.version, cs[n].version);
      }
      assert IsEdge(cs, n + 1, n, up);
    } else {
      assert IsEdge(cs, n + 1, i, up);
    }
  }

  /** One scan of a comparator set for its two edges. */
  method ScanEdges(cs: seq<Comparator>, up: bool) returns (e: Option<Edges>)
    requires |cs| > 0
    ensures e == EdgesOf(cs, |cs|, up)
    ensures e.None? <==> exists c :: c in cs && c.AnyVersion?
    ensures e.Some? ==> EdgeIs(cs, |cs|, e.value.high, up) && EdgeIs(cs, |cs|, e.value.low, !up)
  {
    EdgesOfAny(cs, |cs|, up);
    assert cs[..|cs|] == cs;
    if EdgesOf(cs, |cs|, up).Some? {
      EdgesAreExtreme(cs, |cs|, up);
    }
    if cs[0].AnyVersion? {
      return None;
    }
    var high, low := cs[0], cs[0];
    for i := 1 to |cs|
      invariant high.Bound? && low.Bound?
      invariant EdgesOf(cs, i, up) == Some(Edges(high, low))
    {
      if cs[i].AnyVersion? {
        return None;
      }
      if Toward(up, cs[i].version, high.version) > 0 {
        high := cs[i];
      } else if Toward(up, cs[i].version, low.version) < 0 {
        low := cs[i];
      }
    }
    return Some(Edges(high, low));
  }

  /** The test behind both `gtr` (up) and `ltr` (down); none where it throws. */
  method Outside(v: Version, sets: seq<seq<Comparator>>, up: bool) returns (r: Option<bool>)
    requires NonEmptySets(sets)
    ensures r == Beyond(sets, v, up)
  {
    var satisfied := TestRange(sets, v);
    if satisfied {
      return Some(false);
    }
    for i := 0 to |sets|
      invariant BeyondSets(sets[i..], v, up) == BeyondSets(sets, v, up)
    {
      var e := ScanEdges(sets[i], up);
      if e.None? {
        return None;
      }
      var comp, ecomp := if up then Gt else Lt, if up then Ge else Le;
      if e.value.high.op == comp || e.value.high.op == ecomp {
        return Some(false);
      }
      var order := Toward(up, v, e.value.low.version);
      if (e.value.low.op == Bare || e.value.low.op == comp) && order <= 0 {
        return Some(false);
      } else if e.value.low.op == ecomp && order < 0 {
        return Some(false);
      }
    }
    return Some(true);
  }

  // ----- ordered bounds -----

  predicate IsLower(c: Comparator) {
    c.Bound? && (c.op == Ge || c.op == Gt)
  }

  predicate IsUpper(c: Comparator) {
    c.Bound? && (c.op == Le || c.op == Lt)
  }

  /** A bound that ends the allowed versions in the direction of view. */
  predicate IsAhead(c: Comparator, up: bool) {
    if up then IsUpper(c) else IsLower(c)
  }

  predicate IsExact(cs: seq<Comparator>) {
    |cs| == 1 && cs[0].Bound? && cs[0].op == Bare
  }

  /** Lower and upper bounds, in any number and order, of which every lower one is
      below every upper one. */
  predicate IsOrdered(cs: seq<Comparator>) {
    |cs| > 0 && (forall c :: c in cs ==> IsLower(c) || IsUpper(c)) && BoundsOrdered(cs)
  }

  predicate IsBounds(cs: seq<Comparator>) {
    IsExact(cs) || IsOrdered(cs)
  }

  predicate BoundsOrdered(cs: seq<Comparator>) {
    forall c, d :: c in cs && d in cs && IsLower(c) && IsUpper(d) ==> Compare(c.version, d.version) < 0
  }

  /** The version lies beyond one comparator in the direction of view. */
  predicate PastOne(c: Comparator, v: Version, up: bool) {
    || (IsAhead(c, up) && !Accepts(c, v))
    || (c.Bound? && c.op == Bare && Toward(up, v, c.version) > 0)
  }

  predicate Past(cs: seq<Comparator>, v: Version, up: bool) {
    exists c :: c in cs && PastOne(c, v, up)
  }

  /** The version is beyond the upper end. */
  predicate Above(cs: seq<Comparator>, v: Version) {
    Past(cs, v, true)
  }

  /** The version is beyond the lower end. */
  predicate Below(cs: seq<Comparator>, v: Version) {
    Past(cs, v, false)
  }

  /** A release is below, in or above ordered bounds, and never two of them. */
  lemma BoundsTrichotomy(cs: seq<Comparator>, v: Version)
    requires IsBounds(cs) && v.IsRelease()
    ensures Above(cs, v) ==> !SetAccepts(cs, v) && !Below(cs, v)
    ensures Below(cs, v) ==> !SetAccepts(cs, v) && !Above(cs, v)
    ensures !Above(cs, v) && !Below(cs, v) ==> SetAccepts(cs, v)
  {
    PastIsNotAccepted(cs, v, true);
    PastIsNotAccepted(cs, v, false);
    if Above(cs, v) {
      PastOnOneSide(cs, v);
    }
    forall c | c in cs && !Accepts(c, v)
      ensures PastOne(c, v, true) || PastOne(c, v, false)
    {
      CompareAntisymmetric(v, c.version);
    }
  }

  lemma PastOnOneSide(cs: seq<Comparator>, v: Version)
    requires IsBounds(cs) && Above(cs, v)
    ensures !Below(cs, v)
  {
    forall d | d in cs
      ensures !PastOne(d, v, false)
    {
      if IsExact(cs) {
        CompareAntisymmetric(v, d.version);
      } else if IsLower(d) {
        PastMeetsBehind(cs, d, v, true);
      }
    }
  }

  lemma PastIsNotAccepted(cs: seq<Comparator>, v: Version, up: bool)
    requires IsBounds(cs)
    ensures Past(cs, v, up) ==> !SetAccepts(cs, v)
  {
    if Past(cs, v, up) {
      var c :| c in cs && PastOne(c, v, up);
      CompareAntisymmetric(v, c.version);
    }
  }

  /** The version fails a bound behind it, or is a pre-release that no comparator
      opens. */
  predicate Refused(cs: seq<Comparator>, v: Version, up: bool) {
    || (exists c :: c in cs && IsAhead(c, !up) && !Accepts(c, v))
    || (v.pre != [] && forall c :: c in cs ==> !Opens(c, v))
  }

  /** The edge test takes the version for one beyond the bounds although it is not:
      the set has a bound ahead and refuses the version for another reason, but the
      one edge that is looked at behind the version does not stop it. */
  ghost predicate Misled(cs: seq<Comparator>, v: Version, up: bool) {
    && !Past(cs, v, up) && Refused(cs, v, up)
    && (exists c :: c in cs && IsAhead(c, up))
    && (exists c :: EdgeIs(cs, |cs|, c, !up) && (IsAhead(c, up) || Accepts(c, v)))
  }

  lemma EdgesUnique(cs: seq<Comparator>, c: Comparator, d: Comparator, up: bool)
    requires EdgeIs(cs, |cs|, c, up) && EdgeIs(cs, |cs|, d, up)
    ensures c == d && c in cs
  {
    var i: nat :| IsEdge(cs, |cs|, i, up) && cs[i] == c;
    var j: nat :| IsEdge(cs, |cs|, j, up) && cs[j] == d;
    CompareAntisymmetric(cs[i].version, cs[j].version);
  }

  /** If any bound points the way of the edge, then the edge does. */
  lemma EdgePoints(cs: seq<Comparator>, e: Comparator, up: bool)
    requires IsOrdered(cs) && EdgeIs(cs, |cs|, e, up)
    ensures e in cs
    ensures IsAhead(e, up) <==> exists c :: c in cs && IsAhead(c, up)
  {
    var i: nat :| IsEdge(cs, |cs|, i, up) && cs[i] == e;
    forall c | c in cs && IsAhead(c, up)
      ensures IsAhead(e, up)
    {
      var k :| 0 <= k < |cs| && cs[k] == c;
      assert Toward(up, cs[k].version, cs[i].version) <= 0;
      CompareAntisymmetric(c.version, e.version);
    }
  }

  /** Meeting a bound behind is what the edge test asks of it. */
  lemma EdgeTest(c: Comparator, v: Version, up: bool)
    requires IsAhead(c, !up)
    ensures var comp, ecomp := if up then Gt else Lt, if up then Ge else Le;
            Accepts(c, v) <==> !(c.op == comp && Toward(up, v, c.version) <= 0)
                               && !(c.op == ecomp && Toward(up, v, c.version) < 0)
  {
    CompareAntisymmetric(v, c.version);
  }

  /** A version beyond a bound ahead meets every bound behind. */
  lemma PastMeetsBehind(cs: seq<Comparator>, c: Comparator, v: Version, up: bool)
    requires IsOrdered(cs) && Past(cs, v, up)
    requires c in cs && IsAhead(c, !up)
    ensures Accepts(c, v)
  {
    var d :| d in cs && PastOne(d, v, up);
    CompareAntisymmetric(v, c.version);
    CompareAntisymmetric(v, d.version);
    CompareAntisymmetric(c.version, d.version);
    TowardTransitive(up, c.version, d.version, v);
  }

  lemma ExactBeyond(c: Comparator, v: Version, up: bool)
    requires c.Bound? && c.op == Bare && !SetAccepts([c], v)
    ensures EdgesOf([c], 1, up) == Some(Edges(c, c)) && !Misled([c], v, up)
    ensures BeyondEdges(Edges(c, c), v, up) <==> Past([c], v, up)
  {
    assert c in [c];
    CompareAntisymmetric(v, c.version);
  }

  /** When a set of ordered bounds does not accept a version, the edge test says
      "outside" when the version is past a bound ahead, or misleads. */
  lemma BoundsBeyond(cs: seq<Comparator>, v: Version, up: bool)
    requires IsBounds(cs) && !SetAccepts(cs, v)
    ensures var e := EdgesOf(cs, |cs|, up);
            e.Some? && (BeyondEdges(e.value, v, up) <==> Past(cs, v, up) || Misled(cs, v, up))
  {
    if IsExact(cs) {
      assert cs == [cs[0]];
      ExactBeyond(cs[0], v, up);
    } else {
      EdgesOfAny(cs, |cs|, up);
      assert cs[..|cs|] == cs;
      EdgesAreExtreme(cs, |cs|, up);
      assert forall c :: c in cs ==> IsLower(c) || IsUpper(c);
      OrderedBeyond(cs, EdgesOf(cs, |cs|, up).value, v, up);
    }
  }

  lemma OrderedBeyond(cs: seq<Comparator>, e: Edges, v: Version, up: bool)
    requires IsOrdered(cs) && !SetAccepts(cs, v)
    requires EdgeIs(cs, |cs|, e.high, up) && EdgeIs(cs, |cs|, e.low, !up)
    requires e.high.Bound? && e.low.Bound?
    ensures BeyondEdges(e, v, up) <==> Past(cs, v, up) || Misled(cs, v, up)
  {
    EdgePoints(cs, e.high, up);
    EdgePoints(cs, e.low, !up);
    MisledByEdge(cs, e.low, v, up);
    if !Past(cs, v, up) {
      NotPastIsRefused(cs, v, up);
    } else if IsAhead(e.low, !up) {
      PastMeetsBehind(cs, e.low, v, up);
    }
    if IsAhead(e.low, !up) {
      EdgeTest(e.low, v, up);
    }
  }

  lemma MisledByEdge(cs: seq<Comparator>, e: Comparator, v: Version, up: bool)
    requires IsOrdered(cs) && EdgeIs(cs, |cs|, e, !up)
    ensures Misled(cs, v, up) <==>
            && !Past(cs, v, up) && Refused(cs, v, up) && (exists c :: c in cs && IsAhead(c, up))
            && (IsAhead(e, up) || Accepts(e, v))
  {
    var down := !up;
    forall c | EdgeIs(cs, |cs|, c, down)
      ensures c == e
    {
      EdgesUnique(cs, c, e, down);
    }
  }

  lemma NotPastIsRefused(cs: seq<Comparator>, v: Version, up: bool)
    requires IsOrdered(cs) && !SetAccepts(cs, v) && !Past(cs, v, up)
    ensures Refused(cs, v, up)
  {
    assert forall c :: c in cs ==> IsLower(c) || IsUpper(c);
    if forall c :: c in cs ==> Accepts(c, v) {
    } else {
      var c :| c in cs && !Accepts(c, v);
      assert !PastOne(c, v, up);
    }
  }

  ghost predicate AllBounds(sets: seq<seq<Comparator>>) {
    forall i :: 0 <= i < |sets| ==> IsBounds(sets[i])
  }

  ghost predicate AllOutside(sets: seq<seq<Comparator>>, v: Version, up: bool) {
    forall s :: s in sets ==> Past(s, v, up) || Misled(s, v, up)
  }

  lemma AllOutsideStep(first: seq<Comparator>, rest: seq<seq<Comparator>>, v: Version, up: bool)
    ensures AllOutside([first] + rest, v, up) <==>
              (Past(first, v, up) || Misled(first, v, up)) && AllOutside(rest, v, up)
  {
    assert forall s :: s in [first] + rest <==> s == first || s in rest;
  }

  lemma NoneAccepts(sets: seq<seq<Comparator>>, v: Version)
    requires sets != [] && !RangeAccepts(sets, v)
    ensures !SetAccepts(sets[0], v) && !RangeAccepts(sets[1..], v)
  {
    assert sets[0] in sets;
    forall s | s in sets[1..]
      ensures !SetAccepts(s, v)
    {
      assert s in sets;
    }
  }

  lemma {:induction false} BeyondSetsOf(sets: seq<seq<Comparator>>, v: Version, up: bool)
    requires AllBounds(sets) && !RangeAccepts(sets, v)
    ensures BeyondSets(sets, v, up) == Some(AllOutside(sets, v, up))
  {
    if sets != [] {
      NoneAccepts(sets, v);
      BoundsBeyond(sets[0], v, up);
      BeyondSetsOf(sets[1..], v, up);
      AllOutsideStep(sets[0], sets[1..], v, up);
      assert sets == [sets[0]] + sets[1..];
    }
  }

  /** For a union of ordered bounds and any version, pre-releases included, `gtr` and
      `ltr` hold exactly when the version is past, or misleads, every set. */
  lemma OutsideBounds(sets: seq<seq<Comparator>>, v: Version, up: bool)
    requires AllBounds(sets) && sets != []
    ensures Beyond(sets, v, up) ==
            Some(forall i :: 0 <= i < |sets| ==> Past(sets[i], v, up) || Misled(sets[i], v, up))
  {
    if RangeAccepts(sets, v) {
      var s :| s in sets && SetAccepts(s, v);
      var k :| 0 <= k < |sets| && sets[k] == s;
      PastIsNotAccepted(s, v, up);
      AcceptedIsNotRefused(s, v, up);
    } else {
      BeyondSetsOf(sets, v, up);
      assert AllOutside(sets, v, up) <==>
             forall i :: 0 <= i < |sets| ==> Past(sets[i], v, up) || Misled(sets[i], v, up);
    }
  }

  lemma AcceptedIsNotRefused(cs: seq<Comparator>, v: Version, up: bool)
    requires SetAccepts(cs, v)
    ensures !Refused(cs, v, up)
  {
  }

  /** A set that holds an "any version" makes the test of a version that no set
      accepts throw, unless an earlier set has settled the answer. */
  lemma {:induction false} OutsideThrows(before: seq<seq<Comparator>>, cs: seq<Comparator>,
                                         after: seq<seq<Comparator>>, v: Version, up: bool)
    requires (forall s :: s in before ==> IsBounds(s)) && AnyVersion in cs
    requires NonEmptySets(before + [cs] + after) && !RangeAccepts(before + [cs] + after, v)
    ensures Beyond(before + [cs] + after, v, up) == if AllOutside(before, v, up) then None else Some(false)
    decreases |before|
  {
    var sets := before + [cs] + after;
    var rest := sets[1..];
    assert sets[0] in sets;
    if before == [] {
      assert sets[0] == cs && cs[..|cs|] == cs;
      EdgesOfAny(cs, |cs|, up);
    } else {
      assert sets[0] == before[0] && rest == before[1..] + [cs] + after;
      BoundsBeyond(before[0], v, up);
      NoneAccepts(sets, v);
      OutsideThrows(before[1..], cs, after, v, up);
      AllOutsideStep(before[0], before[1..], v, up);
      assert before == [before[0]] + before[1..];
    }
  }

  /** For one set of ordered bounds the answer is right exactly when it is not misled. */
  lemma OutsideIsExact(cs: seq<Comparator>, v: Version, up: bool)
    requires IsBounds(cs)
    ensures Beyond([cs], v, up) == Some(Past(cs, v, up)) <==> !Misled(cs, v, up)
  {
    OutsideBounds([cs], v, up);
    assert [cs][0] == cs;
  }

  // ----- intervals -----

  /** An exact version, or at most one lower and at most one higher upper bound. */
  predicate IsInterval(cs: seq<Comparator>) {
    IsBounds(cs) && forall i, j :: 0 <= i < |cs| && 0 <= j < |cs| ==>
      && (IsLower(cs[i]) && IsLower(cs[j]) ==> i == j)
      && (IsUpper(cs[i]) && IsUpper(cs[j]) ==> i == j)
  }

  ghost predicate AllIntervals(sets: seq<seq<Comparator>>) {
    forall i :: 0 <= i < |sets| ==> IsInterval(sets[i])
  }

  /** An interval does not mislead about releases. */
  lemma IntervalNeverMisleads(cs: seq<Comparator>, v: Version, up: bool)
    requires IsInterval(cs) && v.IsRelease()
    ensures !Misled(cs, v, up)
  {
    if Misled(cs, v, up) {
      var e :| EdgeIs(cs, |cs|, e, !up) && (IsAhead(e, up) || Accepts(e, v));
      var c :| c in cs && IsAhead(c, !up) && !Accepts(c, v);
      assert IsOrdered(cs);
      EdgePoints(cs, e, !up);
      OnlyOne(cs, c, e, !up);
    }
  }

  lemma OnlyOne(cs: seq<Comparator>, c: Comparator, d: Comparator, up: bool)
    requires IsInterval(cs) && c in cs && d in cs && IsAhead(c, up) && IsAhead(d, up)
    ensures c == d
  {
    var i :| 0 <= i < |cs| && cs[i] == c;
    var j :| 0 <= j < |cs| && cs[j] == d;
  }

  /** `gtr` holds of a release exactly when it is above every interval of the range,
      and `ltr` exactly when it is below every one. */
  lemma OutsideIntervals(sets: seq<seq<Comparator>>, v: Version, up: bool)
    requires AllIntervals(sets) && v.IsRelease()
    requires sets != []
    ensures Beyond(sets, v, up) == Some(forall i :: 0 <= i < |sets| ==> Past(sets[i], v, up))
  {
    OutsideBounds(sets, v, up);
    forall i | 0 <= i < |sets|
      ensures !Misled(sets[i], v, up)
    {
      IntervalNeverMisleads(sets[i], v, up);
    }
  }

  /** For one interval, exactly one of `ltr`, `satisfies` and `gtr` holds. */
  lemma OutsideTrichotomy(cs: seq<Comparator>, v: Version)
    requires IsInterval(cs) && v.IsRelease()
    ensures var below, above := Beyond([cs], v, false) == Some(true), Beyond([cs], v, true) == Some(true);
            var within := RangeAccepts([cs], v);
            && (below || within || above)
            && !(below && within) && !(within && above) && !(below && above)
  {
    OutsideIntervals([cs], v, true);
    OutsideIntervals([cs], v, false);
    BoundsTrichotomy(cs, v);
    assert [cs][0] == cs;
    assert cs in [cs];
  }

  /** A pair of bounds in the order lower, upper. */
  lemma PairIsInterval(a: Comparator, b: Comparator)
    requires IsLower(a) && IsUpper(b) && Compare(a.version, b.version) < 0
    ensures IsInterval([a, b])
  {
    assert forall c :: c in [a, b] <==> c == a || c == b;
  }

  lemma PairPast(a: Comparator, b: Comparator, v: Version)
    requires IsLower(a) && IsUpper(b)
    ensures Above([a, b], v) <==> !Accepts(b, v)
    ensures Below([a, b], v) <==> !Accepts(a, v)
  {
    assert a in [a, b] && b in [a, b];
  }

  /** For a lower bound followed by an upper one, `gtr` is right about all releases
      exactly when the first is below the second; otherwise it never holds, whatever
      the version. */
  lemma GtrNeedsProperInterval(a: Comparator, b: Comparator)
    requires IsLower(a) && IsUpper(b)
    ensures (forall v: Version :: v.IsRelease() ==> Beyond([[a, b]], v, true) == Some(!Accepts(b, v)))
            <==> Compare(a.version, b.version) < 0
    ensures Compare(a.version, b.version) >= 0 ==> forall v: Version :: Beyond([[a, b]], v, true) == Some(false)
  {
    var cs := [a, b];
    if Compare(a.version, b.version) < 0 {
      PairIsInterval(a, b);
      forall v: Version | v.IsRelease()
        ensures Beyond([cs], v, true) == Some(!Accepts(b, v))
      {
        OutsideIntervals([cs], v, true);
        PairPast(a, b, v);
        assert [cs][0] == cs;
      }
    } else {
      CompareAntisymmetric(a.version, b.version);
      assert EdgesOf(cs, 1, true) == Some(Edges(a, a));
      assert EdgesOf(cs, 2, true).value.high == a;
      forall v: Version
        ensures Beyond([cs], v, true) == Some(false)
      {
      }
      var v := Release(b.version.major + 1, 0, 0);
      assert Beyond([cs], v, true) == Some(false) && !Accepts(b, v);
    }
  }

  /** With equal ends, as in the hyphen range `1.2.3 - 1.2.3`, `ltr` holds of every
      version that is not accepted, on whichever side it lies. */
  lemma LtrOnEqualEnds(a: Comparator, b: Comparator, v: Version)
    requires IsLower(a) && IsUpper(b) && Compare(a.version, b.version) == 0
    ensures Beyond([[a, b]], v, false) == Some(!SetAccepts([a, b], v))
  {
    var cs := [a, b];
    CompareAntisymmetric(a.version, b.version);
    assert EdgesOf(cs, 1, false) == Some(Edges(a, a));
    assert EdgesOf(cs, 2, false) == Some(Edges(a, a));
    assert [cs][0] == cs && [cs][1..] == [] && BeyondSets([], v, false) == Some(true);
    assert RangeAccepts([cs], v) <==> SetAccepts(cs, v) by {
      assert cs in [cs];
    }
  }

  /** An input that misleads: 1.5.0 lies below `>=1.0.0 >=2.0.0 <3.0.0`, and `gtr`
      holds of it. */
  lemma SecondBoundMisleads()
    ensures var cs := [Bound(Ge, Release(1, 0, 0)), Bound(Ge, Release(2, 0, 0)), Bound(Lt, Release(3, 0, 0))];
            IsBounds(cs) && Below(cs, Release(1, 5, 0)) && Beyond([cs], Release(1, 5, 0), true) == Some(true)
  {
    var a, b, c := Bound(Ge, Release(1, 0, 0)), Bound(Ge, Release(2, 0, 0)), Bound(Lt, Release(3, 0, 0));
    var v := Release(1, 5, 0);
    assert Compare(a.version, b.version) < 0 < Compare(c.version, b.version);
    assert Compare(a.version, c.version) < 0 && Compare(b.version, c.version) < 0;
    assert Accepts(a, v) && !Accepts(b, v) && Accepts(c, v) && Compare(v, a.version) > 0;
    ThreeBounds(a, b, c, v);
  }

  lemma ThreeBounds(a: Comparator, b: Comparator, c: Comparator, v: Version)
    requires IsLower(a) && IsLower(b) && IsUpper(c)
    requires Compare(a.version, b.version) < 0 < Compare(c.version, b.version)
    requires Compare(a.version, c.version) < 0 && Compare(b.version, c.version) < 0
    requires Accepts(a, v) && !Accepts(b, v)
    ensures IsBounds([a, b, c]) && Below([a, b, c], v) && Beyond([[a, b, c]], v, true) == Some(true)
  {
    var cs := [a, b, c];
    assert forall d :: d in cs <==> d == a || d == b || d == c;
    assert PastOne(b, v, false);
    CompareAntisymmetric(a.version, b.version);
    EdgeTest(a, v, true);
    assert EdgesOf(cs, 1, true) == Some(Edges(a, a));
    assert EdgesOf(cs, 2, true) == Some(Edges(b, a));
    assert EdgesOf(cs, 3, true) == Some(Edges(c, a));
    assert [cs][0] == cs && [cs][1..] == [] && BeyondSets([], v, true) == Some(true);
  }

  /** A pre-release that a pair of bounds holds between its ends, but does not open,
      is both above it for `gtr` and below it for `ltr`. */
  lemma UnopenedPrereleaseMisleads(a: Comparator, b: Comparator, v: Version)
    requires IsLower(a) && IsUpper(b) && Compare(a.version, b.version) < 0
    requires Accepts(a, v) && Accepts(b, v) && v.pre != [] && !Opens(a, v) && !Opens(b, v)
    ensures IsInterval([a, b]) && !Above([a, b], v) && !Below([a, b], v)
    ensures Beyond([[a, b]], v, true) == Some(true) && Beyond([[a, b]], v, false) == Some(true)
  {
    var cs := [a, b];
    PairIsInterval(a, b);
    PairPast(a, b, v);
    PairAccepts(a, b, v);
    CompareAntisymmetric(a.version, b.version);
    EdgeTest(a, v, true);
    EdgeTest(b, v, false);
    assert EdgesOf(cs, 1, true) == Some(Edges(a, a)) && EdgesOf(cs, 2, true) == Some(Edges(b, a));
    assert EdgesOf(cs, 1, false) == Some(Edges(a, a)) && EdgesOf(cs, 2, false) == Some(Edges(a, b));
    assert [cs][0] == cs && [cs][1..] == [];
    assert BeyondSets([], v, true) == Some(true) && BeyondSets([], v, false) == Some(true);
    assert BeyondSets([cs], v, true) == Some(true) && BeyondSets([cs], v, false) == Some(true);
  }

  /** Carets and tildes with a major version compile to intervals, so `gtr` and
      `ltr` are exact for every union of them. In the terms of the range as written,
      a release is below when its given components compare lower, and above when
      they do not and it still does not satisfy the range. */
  lemma CaretsAndTildesAreIntervals(t: Token, v: Version)
    requires (t.Caret? || t.Tilde?) && t.p.major.N? && v.IsRelease()
    requires ToComparators(Expand(Tokens([t]))).Some?
    ensures var cs := ToComparators(Expand(Tokens([t]))).value;
            && IsInterval(cs)
            && (Below(cs, v) <==> ComparePartial(v, t.p) < 0)
            && (Above(cs, v) <==> ComparePartial(v, t.p) >= 0 && !TokenMeans(t, v))
  {
    var lower, upper := BoundsOf(t);
    var cs := ToComparators(Expand(Tokens([t]))).value;
    ExpandPreserves(Tokens([t]), v);
    TokensMeanOne(t, v);
    ComparatorsPreserve(Expand(Tokens([t])), v);
    PairIsInterval(cs[0], cs[1]);
    PairPast(cs[0], cs[1], v);
    BoundsTrichotomy(cs, v);
    LowerMeans(t, lower, v);
  }

  lemma LowerMeans(t: Token, lower: Version, v: Version)
    requires (t.Caret? || t.Tilde?) && t.p.major.N? && v.IsRelease()
    requires ToComparators(Expand(Tokens([t]))).Some?
    requires |ToComparators(Expand(Tokens([t]))).value| == 2
    requires ToComparators(Expand(Tokens([t]))).value[0] == Bound(Ge, lower)
    ensures Compare(v, lower) < 0 <==> ComparePartial(v, t.p) < 0
  {
    SingleTokenExpands(t);
    LaterPassesKeep(t);
    ToComparatorsTwo(ParseComparator(t));
  }
}
