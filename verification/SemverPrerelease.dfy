/** Which pre-releases satisfy a range: bounds as the range is written, compared with
    releases, and the rule that the range must name a pre-release of the same core. */
module SemverPrerelease {
  import opened Common
  import opened SemverOrder
  import opened SemverRange
  import opened SemverPasses

  // ----- what a range means for a pre-release -----

  ghost predicate Earlier(w: Version, v: Version) {
    w.IsRelease() && Compare(w, v) < 0
  }

  /** Some release before `v` has reached the given components. */
  ghost predicate ReachesGiven(v: Version, p: Partial) {
    exists w: Version :: Earlier(w, v) && ComparePartial(w, p) >= 0
  }

  /** Some release before `v` is past the given components. */
  ghost predicate PassesGiven(v: Version, p: Partial) {
    exists w: Version :: Earlier(w, v) && ComparePartial(w, p) > 0
  }

  /** Some release before `v` is past the versions that a caret allows. */
  ghost predicate LeavesCaret(v: Version, p: Partial) {
    exists w: Version :: Earlier(w, v) && ComparePartial(w, p) >= 0 && !CaretAgrees(w, p)
  }

  ghost predicate LeavesTilde(v: Version, p: Partial) {
    exists w: Version :: Earlier(w, v) && ComparePartial(w, p) >= 0 && !TildeAgrees(w, p)
  }

  /** Not below a lower end: a full version is compared as a version, and a partial
      one must have been reached by a release. */
  ghost predicate AtLeast(v: Version, p: Partial) {
    if p.IsFull() then Compare(v, p.AsVersion()) >= 0 else ReachesGiven(v, p)
  }

  /** Not above an upper end. */
  ghost predicate AtMost(v: Version, p: Partial) {
    if p.IsFull() then Compare(v, p.AsVersion()) <= 0 else !PassesGiven(v, p)
  }

  /** An operator on a full version compares versions; `>` and `<` without a major
      both leave only what comes before all releases. */
  ghost predicate OperatorAdmits(op: Op, p: Partial, v: Version) {
    if p.IsFull() then OpHolds(op, Compare(v, p.AsVersion()))
    else if p.major.X? then op == Gt || op == Lt ==> forall w: Version :: !Earlier(w, v)
    else
      match op
      case Ge => ReachesGiven(v, p)
      case Gt => PassesGiven(v, p)
      case Lt => !ReachesGiven(v, p)
      case Le => !PassesGiven(v, p)
      case _ => ReachesGiven(v, p) && !PassesGiven(v, p)
  }

  ghost predicate TokenAdmits(t: Token, v: Version) {
    match t
    case Caret(p) => p.major.X? || (AtLeast(v, p) && !LeavesCaret(v, p))
    case Tilde(p) => p.major.X? || (AtLeast(v, p) && !LeavesTilde(v, p))
    case Prim(op, p) => OperatorAdmits(op, p, v)
    case _ => true
  }

  /** The range names a pre-release of the core of `v`. */
  predicate NamesCore(p: Partial, v: Version) {
    p.IsFull() && p.pre != [] && SameCore(p.AsVersion(), v)
  }

  predicate TokenNames(t: Token, v: Version) {
    !t.Star? && !t.Blank? && NamesCore(t.p, v)
  }

  /** The token allows any version. */
  predicate IsWild(t: Token) {
    t.Star? || t.Blank? || (t.p.major.X? && (t.Prim? ==> t.op != Gt && t.op != Lt))
  }

  /** A wild token lets pre-releases through only at the start or end of a list. */
  ghost predicate AlternativeAdmits(a: Alternative, v: Version) {
    match a
    case Hyphen(from, to) =>
      && (from.major.X? || AtLeast(v, from)) && (to.major.X? || AtMost(v, to))
      && (NamesCore(from, v) || NamesCore(to, v) || (from.major.X? && to.major.X?))
    case Tokens(ts) =>
      && (forall t :: t in ts ==> TokenAdmits(t, v))
      && ((exists t :: t in ts && TokenNames(t, v)) || (ts != [] && (IsWild(ts[0]) || IsWild(ts[|ts| - 1]))))
  }

  // ----- bounds at releases -----

  /** Every version has come after a release exactly when its core has. */
  lemma EarlierIsCore(w: Version, v: Version)
    requires w.IsRelease() && v.pre != []
    ensures Earlier(w, v) <==> CoreBelow(w, v)
    ensures Compare(v, w) >= 0 <==> CoreBelow(w, v)
    ensures Compare(v, w) != 0
  {
  }

  lemma ReachesFloor(v: Version, p: Partial, x: Version)
    requires v.pre != [] && p.major.N? && (p.minor.X? || p.patch.X?)
    requires x == Release(p.major.n, if p.minor.X? then 0 else p.minor.n, 0)
    ensures ReachesGiven(v, p) <==> Compare(v, x) >= 0
  {
    EarlierIsCore(x, v);
    assert ComparePartial(x, p) >= 0;
    forall w: Version | Earlier(w, v) && ComparePartial(w, p) >= 0
      ensures CoreBelow(x, v)
    {
      EarlierIsCore(w, v);
    }
  }

  lemma PassesNext(v: Version, p: Partial, x: Version)
    requires v.pre != [] && p.major.N? && (p.minor.X? || p.patch.X?)
    requires x == if p.minor.X? then Release(p.major.n + 1, 0, 0) else Release(p.major.n, p.minor.n + 1, 0)
    ensures PassesGiven(v, p) <==> Compare(v, x) >= 0
  {
    EarlierIsCore(x, v);
    assert ComparePartial(x, p) > 0;
    forall w: Version | Earlier(w, v) && ComparePartial(w, p) > 0
      ensures CoreBelow(x, v)
    {
      EarlierIsCore(w, v);
    }
  }

  lemma LeavesCaretAt(v: Version, p: Partial, x: Version)
    requires v.pre != [] && p.major.N?
    requires x == if p.major.n > 0 || p.minor.X? then Release(p.major.n + 1, 0, 0)
                  else if p.minor.n > 0 || p.patch.X? then Release(0, p.minor.n + 1, 0)
                  else Release(0, 0, p.patch.n + 1)
    ensures LeavesCaret(v, p) <==> Compare(v, x) >= 0
  {
    EarlierIsCore(x, v);
    assert ComparePartial(x, p) >= 0 && !CaretAgrees(x, p);
    forall w: Version | Earlier(w, v) && ComparePartial(w, p) >= 0 && !CaretAgrees(w, p)
      ensures CoreBelow(x, v)
    {
      EarlierIsCore(w, v);
    }
  }

  lemma LeavesTildeAt(v: Version, p: Partial, x: Version)
    requires v.pre != [] && p.major.N?
    requires x == if p.minor.X? then Release(p.major.n + 1, 0, 0) else Release(p.major.n, p.minor.n + 1, 0)
    ensures LeavesTilde(v, p) <==> Compare(v, x) >= 0
  {
    EarlierIsCore(x, v);
    assert ComparePartial(x, p) >= 0 && !TildeAgrees(x, p);
    forall w: Version | Earlier(w, v) && ComparePartial(w, p) >= 0 && !TildeAgrees(w, p)
      ensures CoreBelow(x, v)
    {
      EarlierIsCore(w, v);
    }
  }

  lemma NoneEarlier(v: Version)
    requires v.pre != []
    ensures (forall w: Version :: !Earlier(w, v)) <==> Compare(v, Release(0, 0, 0)) < 0
  {
    EarlierIsCore(Release(0, 0, 0), v);
    forall w: Version | Earlier(w, v)
      ensures CoreBelow(Release(0, 0, 0), v)
    {
      EarlierIsCore(w, v);
    }
  }

  // ----- final comparators -----

  /** A final token accepts the version. */
  predicate Meets(t: Token, v: Version)
    requires Expanded(t)
  {
    t.Blank? || OpHolds(t.op, Compare(v, t.p.AsVersion()))
  }

  ghost predicate AllExpanded(ts: seq<Token>) {
    forall t :: t in ts ==> Expanded(t)
  }

  ghost predicate AllMeet(ts: seq<Token>, v: Version)
    requires AllExpanded(ts)
  {
    forall t :: t in ts ==> Meets(t, v)
  }

  ghost predicate SomeNames(ts: seq<Token>, v: Version) {
    exists t :: t in ts && TokenNames(t, v)
  }

  /** The final tokens `us` do for `v` what token `t` says. */
  ghost predicate Renders(us: seq<Token>, t: Token, v: Version) {
    && us != [] && AllExpanded(us)
    && (AllMeet(us, v) <==> TokenAdmits(t, v))
    && (SomeNames(us, v) <==> TokenNames(t, v))
    && (us[0].Blank? <==> IsWild(t)) && (us[|us| - 1].Blank? <==> IsWild(t))
  }

  lemma RendersOne(u: Token, t: Token, v: Version)
    requires Expanded(u) && (Meets(u, v) <==> TokenAdmits(t, v)) && (TokenNames(u, v) <==> TokenNames(t, v))
    requires u.Blank? <==> IsWild(t)
    ensures Renders([u], t, v)
  {
    assert u in [u];
  }

  lemma RendersTwo(a: Token, b: Token, t: Token, v: Version)
    requires Expanded(a) && Expanded(b) && (Meets(a, v) && Meets(b, v) <==> TokenAdmits(t, v))
    requires TokenNames(a, v) || TokenNames(b, v) <==> TokenNames(t, v)
    requires !a.Blank? && !b.Blank? && !IsWild(t)
    ensures Renders([a, b], t, v)
  {
    assert a in [a, b] && b in [a, b];
  }

  lemma CaretRenders(t: Token, v: Version)
    requires t.Caret? && v.pre != []
    ensures Renders(ReplaceCaret(t), t, v)
  {
    var us := ReplaceCaret(t);
    if t.p.major.X? {
      RendersOne(us[0], t, v);
    } else {
      LeavesCaretAt(v, t.p, us[1].p.AsVersion());
      if !t.p.IsFull() {
        ReachesFloor(v, t.p, us[0].p.AsVersion());
      }
      RendersTwo(us[0], us[1], t, v);
    }
  }

  lemma TildeRenders(t: Token, v: Version)
    requires t.Tilde? && v.pre != []
    ensures Renders(ReplaceTilde(t), t, v)
  {
    var us := ReplaceTilde(t);
    if t.p.major.X? {
      RendersOne(us[0], t, v);
    } else {
      LeavesTildeAt(v, t.p, us[1].p.AsVersion());
      if !t.p.IsFull() {
        ReachesFloor(v, t.p, us[0].p.AsVersion());
      }
      RendersTwo(us[0], us[1], t, v);
    }
  }

  lemma OperatorRenders(t: Token, v: Version)
    requires t.Prim? && v.pre != []
    ensures Renders(if ReplaceXRange(t) == [Star] then [Blank] else ReplaceXRange(t), t, v)
  {
    var us := if ReplaceXRange(t) == [Star] then [Blank] else ReplaceXRange(t);
    if t.p.major.X? {
      NoneEarlier(v);
      RendersOne(us[0], t, v);
    } else if t.p.IsFull() {
      RendersOne(us[0], t, v);
    } else {
      PartialRenders(t, us, v);
    }
  }

  lemma PartialRenders(t: Token, us: seq<Token>, v: Version)
    requires t.Prim? && v.pre != [] && t.p.major.N? && !t.p.IsFull() && us == ReplaceXRange(t)
    ensures Renders(us, t, v)
  {
    var floor := Release(t.p.major.n, if t.p.minor.X? then 0 else t.p.minor.n, 0);
    var next := if t.p.minor.X? then Release(t.p.major.n + 1, 0, 0) else Release(t.p.major.n, t.p.minor.n + 1, 0);
    ReachesFloor(v, t.p, floor);
    PassesNext(v, t.p, next);
    EarlierIsCore(floor, v);
    EarlierIsCore(next, v);
    if |us| == 1 {
      RendersOne(us[0], t, v);
    } else {
      RendersTwo(us[0], us[1], t, v);
    }
  }

  lemma ParseRenders(t: Token, v: Version)
    requires v.pre != []
    ensures Renders(ParseComparator(t), t, v)
  {
    LaterPassesKeep(t);
    if t.Caret? {
      CaretRenders(t, v);
    } else if t.Tilde? {
      TildeRenders(t, v);
    } else if t.Prim? {
      OperatorRenders(t, v);
    } else {
      RendersOne(Blank, t, v);
    }
  }

  // ----- lists of tokens -----

  lemma Together(a: seq<Token>, b: seq<Token>, v: Version)
    requires AllExpanded(a) && AllExpanded(b)
    ensures AllExpanded(a + b)
    ensures AllMeet(a + b, v) <==> AllMeet(a, v) && AllMeet(b, v)
    ensures SomeNames(a + b, v) <==> SomeNames(a, v) || SomeNames(b, v)
  {
    assert forall t :: t in a + b <==> t in a || t in b;
  }

  ghost predicate AllAdmit(ts: seq<Token>, v: Version) {
    forall t :: t in ts ==> TokenAdmits(t, v)
  }

  lemma WrittenTogether(t: Token, rest: seq<Token>, v: Version)
    ensures AllAdmit([t] + rest, v) <==> TokenAdmits(t, v) && AllAdmit(rest, v)
    ensures SomeNames([t] + rest, v) <==> TokenNames(t, v) || SomeNames(rest, v)
  {
    assert forall u :: u in [t] + rest <==> u == t || u in rest;
  }

  lemma {:induction false} PassRenders(ts: seq<Token>, v: Version)
    requires v.pre != []
    ensures var us := Pass(ParseComparator, ts);
            AllExpanded(us) && (AllMeet(us, v) <==> AllAdmit(ts, v)) && (SomeNames(us, v) <==> SomeNames(ts, v))
  {
    if ts != [] {
      ParseRenders(ts[0], v);
      PassRenders(ts[1..], v);
      Together(ParseComparator(ts[0]), Pass(ParseComparator, ts[1..]), v);
      WrittenTogether(ts[0], ts[1..], v);
      assert ts == [ts[0]] + ts[1..];
    }
  }

  /** The ends of a rewritten list are blank exactly when those of the list are wild. */
  lemma {:induction false} PassEnds(ts: seq<Token>, v: Version)
    requires v.pre != []
    ensures var us := Pass(ParseComparator, ts);
            && (ts == [] <==> us == [])
            && (ts != [] ==> (us[0].Blank? <==> IsWild(ts[0])) && (us[|us| - 1].Blank? <==> IsWild(ts[|ts| - 1])))
  {
    if ts != [] {
      var us, rest := Pass(ParseComparator, ts), Pass(ParseComparator, ts[1..]);
      ParseRenders(ts[0], v);
      PassEnds(ts[1..], v);
      assert us[|us| - 1] == if rest == [] then us[|us| - 1] else rest[|rest| - 1];
    }
  }

  lemma {:induction false} NonBlanksRender(ts: seq<Token>, v: Version)
    requires AllExpanded(ts)
    ensures AllExpanded(NonBlanks(ts)) && Blank !in NonBlanks(ts)
    ensures AllMeet(NonBlanks(ts), v) <==> AllMeet(ts, v)
    ensures SomeNames(NonBlanks(ts), v) <==> SomeNames(ts, v)
  {
    if ts != [] {
      NonBlanksRender(ts[1..], v);
      Together([ts[0]], ts[1..], v);
      Together([ts[0]], NonBlanks(ts[1..]), v);
      assert ts == [ts[0]] + ts[1..];
      assert ts[0] in [ts[0]];
    }
  }

  lemma RejoinRenders(ts: seq<Token>, v: Version)
    requires AllExpanded(ts)
    ensures AllExpanded(Rejoin(ts))
    ensures AllMeet(Rejoin(ts), v) <==> AllMeet(ts, v)
    ensures SomeNames(Rejoin(ts), v) <==> SomeNames(ts, v)
    ensures Blank in Rejoin(ts) <==> ts != [] && (ts[0].Blank? || ts[|ts| - 1].Blank?)
  {
    if |ts| > 1 {
      var front: seq<Token> := if ts[0].Blank? then [Blank] else [];
      var back: seq<Token> := if ts[|ts| - 1].Blank? then [Blank] else [];
      NonBlanksRender(ts, v);
      Together(front, NonBlanks(ts), v);
      Together(front + NonBlanks(ts), back, v);
      assert forall t :: t in front + NonBlanks(ts) + back <==> t in front || t in NonBlanks(ts) || t in back;
    }
  }

  /** What a set of built comparators does with a pre-release. */
  lemma {:induction false} ComparatorsRender(ts: seq<Token>, v: Version)
    requires AllExpanded(ts) && ToComparators(ts).Some? && v.pre != []
    ensures var cs := ToComparators(ts).value;
            && ((forall c :: c in cs ==> Accepts(c, v)) <==> AllMeet(ts, v))
            && ((exists c :: c in cs && Opens(c, v)) <==> SomeNames(ts, v) || Blank in ts)
  {
    if ts != [] {
      var c, rest := ToComparator(ts[0]).value, ToComparators(ts[1..]).value;
      ComparatorsRender(ts[1..], v);
      Together([ts[0]], ts[1..], v);
      assert ts == [ts[0]] + ts[1..];
      assert ts[0] in [ts[0]];
      assert forall d :: d in [c] + rest <==> d == c || d in rest;
      assert Opens(c, v) <==> TokenNames(ts[0], v) || ts[0].Blank?;
      assert Accepts(c, v) <==> Meets(ts[0], v);
    }
  }

  lemma HyphenRenders(from: Partial, to: Partial, v: Version)
    requires v.pre != []
    ensures var ts := HyphenReplace(from, to);
            && AllExpanded(ts)
            && (AllMeet(ts, v) && (SomeNames(ts, v) || Blank in ts) <==> AlternativeAdmits(Hyphen(from, to), v))
  {
    var f, t := HyphenFrom(from), HyphenTo(to);
    FromRenders(from, v);
    ToRenders(to, v);
    Together(f, t, v);
    assert f + t != [] ==> HyphenReplace(from, to) == f + t;
    assert forall u :: u in f + t <==> u in f || u in t;
  }

  lemma FromRenders(from: Partial, v: Version)
    requires v.pre != []
    ensures var f := HyphenFrom(from);
            && (f == [] <==> from.major.X?) && AllExpanded(f) && Blank !in f
            && (AllMeet(f, v) <==> from.major.X? || AtLeast(v, from))
            && (SomeNames(f, v) <==> NamesCore(from, v))
  {
    var f := HyphenFrom(from);
    if f != [] {
      assert f == [f[0]] && f[0] in f;
      if !from.IsFull() {
        ReachesFloor(v, from, f[0].p.AsVersion());
      }
    }
  }

  lemma ToRenders(to: Partial, v: Version)
    requires v.pre != []
    ensures var t := HyphenTo(to);
            && (t == [] <==> to.major.X?) && AllExpanded(t) && Blank !in t
            && (AllMeet(t, v) <==> to.major.X? || AtMost(v, to))
            && (SomeNames(t, v) <==> NamesCore(to, v))
  {
    var t := HyphenTo(to);
    if t != [] {
      assert t == [t[0]] && t[0] in t;
      if !to.IsFull() {
        PassesNext(v, to, t[0].p.AsVersion());
      }
    }
  }

  /** A pre-release satisfies a range exactly when one alternative admits it, in the
      terms in which the range is written. */
  lemma {:induction false} CompileMeansForPrereleases(range: seq<Alternative>, v: Version)
    requires v.pre != [] && Compile(range).Some?
    ensures RangeAccepts(Compile(range).value, v) <==> exists a :: a in range && AlternativeAdmits(a, v)
  {
    if range != [] {
      var first, rest := ToComparators(Expand(range[0])).value, Compile(range[1..]).value;
      CompileMeansForPrereleases(range[1..], v);
      AlternativeRenders(range[0], v);
      assert range == [range[0]] + range[1..];
      assert forall s :: s in [first] + rest <==> s == first || s in rest;
      assert forall a :: a in range <==> a == range[0] || a in range[1..];
      if RangeAccepts(rest, v) {
        var s :| s in rest && SetAccepts(s, v);
        assert s in [first] + rest;
      }
    }
  }

  lemma AlternativeRenders(a: Alternative, v: Version)
    requires v.pre != [] && ToComparators(Expand(a)).Some?
    ensures SetAccepts(ToComparators(Expand(a)).value, v) <==> AlternativeAdmits(a, v)
  {
    if a.Hyphen? {
      HyphenIsKept(a.from, a.to);
      HyphenRenders(a.from, a.to, v);
    } else {
      PassRenders(a.ts, v);
      PassEnds(a.ts, v);
      RejoinRenders(Pass(ParseComparator, a.ts), v);
    }
    ComparatorsRender(Expand(a), v);
  }
}
