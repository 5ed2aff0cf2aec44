/** What the rewriting of ranges does beyond releases: expanded comparators are
    stable, pre-releases do not leak, and building fails only on huge numbers. */
module SemverPasses {
  import opened Common
  import opened SemverOrder
  import opened SemverRange

  // ----- expanded comparators are left alone by later passes -----

  /** A comparator in its final form. */
  predicate Expanded(t: Token) {
    t.Blank? || (t.Prim? && t.p.IsFull())
  }

  /** One blank, or one or two final comparators: what a single token becomes. */
  predicate Final(ts: seq<Token>) {
    || (|ts| == 1 && Expanded(ts[0]))
    || (|ts| == 2 && Expanded(ts[0]) && Expanded(ts[1]) && ts[0].Prim? && ts[1].Prim?)
  }

  lemma PassOne(f: Token -> seq<Token>, t: Token)
    ensures Pass(f, [t]) == f(t)
  {
  }

  lemma PassTwo(f: Token -> seq<Token>, s: Token, t: Token)
    ensures Pass(f, [s, t]) == f(s) + f(t)
  {
    assert [s, t][1..] == [t];
    PassOne(f, t);
  }

  lemma PassKeepsFinal(f: Token -> seq<Token>, ts: seq<Token>)
    requires Final(ts)
    requires f(ts[0]) == [ts[0]] && f(ts[|ts| - 1]) == [ts[|ts| - 1]]
    ensures Pass(f, ts) == ts
  {
    if |ts| == 1 {
      assert ts == [ts[0]];
      PassOne(f, ts[0]);
    } else {
      assert ts == [ts[0], ts[1]];
      PassTwo(f, ts[0], ts[1]);
    }
  }

  /** Passes keep what an earlier pass expanded. */
  lemma FinalIsKept(ts: seq<Token>)
    requires Final(ts)
    ensures Pass(ReplaceTilde, ts) == ts && Pass(ReplaceXRange, ts) == ts && Pass(ReplaceStar, ts) == ts
  {
    PassKeepsFinal(ReplaceTilde, ts);
    PassKeepsFinal(ReplaceXRange, ts);
    PassKeepsFinal(ReplaceStar, ts);
  }

  lemma CaretIsFinal(t: Token)
    requires t.Caret?
    ensures Final(ReplaceCaret(t))
  {
  }

  lemma TildeIsFinal(t: Token)
    requires t.Tilde?
    ensures Final(ReplaceTilde(t))
  {
  }

  lemma XRangeIsFinal(t: Token)
    requires t.Prim?
    ensures ReplaceXRange(t) == [Star] || Final(ReplaceXRange(t))
  {
  }

  /** The comparators that the caret or tilde pass writes come out of all later
      passes unchanged, and every token ends in its final form. */
  lemma LaterPassesKeep(t: Token)
    ensures t.Caret? ==> ParseComparator(t) == ReplaceCaret(t)
    ensures t.Tilde? ==> ParseComparator(t) == ReplaceTilde(t)
    ensures t.Prim? ==> ParseComparator(t) == if ReplaceXRange(t) == [Star] then [Blank] else ReplaceXRange(t)
    ensures t.Star? || t.Blank? ==> ParseComparator(t) == [Blank]
    ensures Final(ParseComparator(t))
  {
    PassOne(ReplaceCaret, t);
    if t.Caret? {
      CaretIsFinal(t);
      FinalIsKept(ReplaceCaret(t));
    } else {
      PassOne(ReplaceTilde, t);
      if t.Tilde? {
        TildeIsFinal(t);
        FinalIsKept(ReplaceTilde(t));
      } else {
        PassOne(ReplaceXRange, t);
        if t.Prim? {
          XRangeIsFinal(t);
        }
        if ReplaceXRange(t) == [Star] {
          PassOne(ReplaceStar, Star);
        } else {
          FinalIsKept(ReplaceXRange(t));
        }
      }
    }
  }

  lemma RejoinFinal(ts: seq<Token>)
    requires Final(ts)
    ensures Rejoin(ts) == ts
  {
    if |ts| == 2 {
      assert ts[1..][1..] == [];
      assert NonBlanks(ts[1..]) == [ts[1]];
      assert NonBlanks(ts) == [ts[0]] + [ts[1]] == ts;
    }
  }

  lemma HyphenIsFinal(from: Partial, to: Partial)
    ensures Final(HyphenReplace(from, to))
  {
  }

  /** A final comparator goes through the whole pipeline unchanged. */
  lemma ExpandedIsKept(t: Token)
    requires Expanded(t)
    ensures ParseComparator(t) == [t]
  {
    PassOne(ReplaceCaret, t);
    FinalIsKept([t]);
  }

  /** And so do the comparators of a hyphen range. */
  lemma HyphenIsKept(from: Partial, to: Partial)
    ensures Expand(Hyphen(from, to)) == HyphenReplace(from, to)
  {
    var ts := HyphenReplace(from, to);
    HyphenIsFinal(from, to);
    ExpandedIsKept(ts[0]);
    ExpandedIsKept(ts[|ts| - 1]);
    PassKeepsFinal(ParseComparator, ts);
    RejoinFinal(ts);
  }

  /** The comparators of a range that is one token. */
  lemma SingleTokenExpands(t: Token)
    ensures Expand(Tokens([t])) == ParseComparator(t)
  {
    LaterPassesKeep(t);
    PassOne(ParseComparator, t);
    RejoinFinal(ParseComparator(t));
  }

  lemma ToComparatorsOne(t: Token)
    ensures ToComparators([t]) == if ToComparator(t).Some? then Some([ToComparator(t).value]) else None
  {
    assert [t][1..] == [];
    if ToComparator(t).Some? {
      assert [ToComparator(t).value] + [] == [ToComparator(t).value];
    }
  }

  lemma ToComparatorsTwo(ts: seq<Token>)
    requires |ts| == 2
    ensures ToComparators(ts) ==
            if ToComparator(ts[0]).Some? && ToComparator(ts[1]).Some?
            then Some([ToComparator(ts[0]).value, ToComparator(ts[1]).value]) else None
  {
    assert ts[1..] == [ts[1]];
    ToComparatorsOne(ts[1]);
    if ToComparator(ts[0]).Some? && ToComparator(ts[1]).Some? {
      var c, d := ToComparator(ts[0]).value, ToComparator(ts[1]).value;
      assert [c] + [d] == [c, d];
    }
  }

  // ----- pre-releases do not leak through carets and tildes -----

  lemma PairAccepts(a: Comparator, b: Comparator, v: Version)
    ensures SetAccepts([a, b], v) <==> Accepts(a, v) && Accepts(b, v) && (v.pre != [] ==> Opens(a, v) || Opens(b, v))
  {
    assert a in [a, b] && b in [a, b];
  }

  /** The two bounds that a caret or tilde with a major version becomes. */
  lemma BoundsOf(t: Token) returns (lower: Version, upper: Version)
    requires t.Caret? || t.Tilde?
    requires t.p.major.N? && ToComparators(Expand(Tokens([t]))).Some?
    ensures ToComparators(Expand(Tokens([t]))) == Some([Bound(Ge, lower), Bound(Lt, upper)])
    ensures if t.p.IsFull() then lower == t.p.AsVersion() else lower.IsRelease()
    ensures upper.IsRelease() && CoreBelow(lower, upper)
  {
    SingleTokenExpands(t);
    LaterPassesKeep(t);
    var ts := ParseComparator(t);
    ToComparatorsTwo(ts);
    lower, upper := ts[0].p.AsVersion(), ts[1].p.AsVersion();
  }

  /** A pre-release satisfies a caret or tilde range only when the range itself
      names a pre-release of the same core that is not above it. */
  lemma PrereleaseNeedsItsOwnCore(t: Token, v: Version)
    requires t.Caret? || t.Tilde?
    requires v.pre != [] && ToComparators(Expand(Tokens([t]))).Some?
    ensures SetAccepts(ToComparators(Expand(Tokens([t]))).value, v) <==>
              || t.p.major.X?
              || (t.p.IsFull() && t.p.pre != [] && SameCore(v, t.p.AsVersion()) && PreOrder(v.pre, t.p.pre) >= 0)
  {
    if t.p.major.X? {
      SingleTokenExpands(t);
      LaterPassesKeep(t);
      ToComparatorsOne(Blank);
      assert AnyVersion in [AnyVersion];
    } else {
      var lower, upper := BoundsOf(t);
      PairAccepts(Bound(Ge, lower), Bound(Lt, upper), v);
    }
  }

  // ----- when the comparators can be built -----

  predicate Fits(n: nat) {
    n <= 9007199254740991
  }

  /** The given components are not above the largest safe integer. */
  predicate GivenFit(p: Partial) {
    p.major.X? || (Fits(p.major.n) &&
      (p.minor.X? || (Fits(p.minor.n) &&
        (p.patch.X? || Fits(p.patch.n)))))
  }

  /** There is a next version after those with the given components. */
  predicate NextFits(p: Partial) {
    p.major.X? || if p.minor.X? then Fits(p.major.n + 1) else p.patch.X? ==> Fits(p.minor.n + 1)
  }

  /** What a caret, tilde or operator needs beyond the given components: room for the
      component that it steps. */
  predicate StepFits(t: Token) {
    match t
    case Caret(p) =>
      p.major.X? ||
      if p.major.n > 0 || p.minor.X? then Fits(p.major.n + 1)
      else if p.minor.n > 0 || p.patch.X? then Fits(p.minor.n + 1)
      else Fits(p.patch.n + 1)
    case Tilde(p) => p.major.X? || if p.minor.X? then Fits(p.major.n + 1) else Fits(p.minor.n + 1)
    case Prim(op, p) => op == Ge || op == Lt || NextFits(p)
    case _ => true
  }

  predicate TokenFits(t: Token) {
    t.Star? || t.Blank? || (GivenFit(t.p) && StepFits(t))
  }

  ghost predicate AlternativeFits(a: Alternative) {
    match a
    case Hyphen(from, to) => GivenFit(from) && GivenFit(to) && NextFits(to)
    case Tokens(ts) => AllFit(ts)
  }

  ghost predicate AllFit(ts: seq<Token>) {
    forall t :: t in ts ==> TokenFits(t)
  }

  ghost predicate Buildable(ts: seq<Token>) {
    forall t :: t in ts ==> ToComparator(t).Some?
  }

  lemma BuildableOne(t: Token)
    ensures Buildable([t]) <==> ToComparator(t).Some?
  {
    assert t in [t];
  }

  lemma BuildableTwo(s: Token, t: Token)
    ensures Buildable([s, t]) <==> ToComparator(s).Some? && ToComparator(t).Some?
  {
    assert s in [s, t] && t in [s, t];
  }

  lemma BuildableConcat(a: seq<Token>, b: seq<Token>)
    ensures Buildable(a + b) <==> Buildable(a) && Buildable(b)
  {
    assert forall t :: t in a + b <==> t in a || t in b;
  }

  lemma CaretBuilds(t: Token)
    requires t.Caret? || t.Tilde?
    ensures Buildable(if t.Caret? then ReplaceCaret(t) else ReplaceTilde(t)) <==> TokenFits(t)
  {
    var us := if t.Caret? then ReplaceCaret(t) else ReplaceTilde(t);
    if |us| == 1 {
      BuildableOne(us[0]);
    } else {
      BuildableTwo(us[0], us[1]);
    }
  }

  lemma OperatorBuilds(t: Token)
    requires t.Prim? && ReplaceXRange(t) != [Star]
    ensures Buildable(ReplaceXRange(t)) <==> TokenFits(t)
  {
    var us := ReplaceXRange(t);
    if |us| == 1 {
      BuildableOne(us[0]);
    } else {
      BuildableTwo(us[0], us[1]);
    }
  }

  lemma ParseComparatorBuilds(t: Token)
    ensures Buildable(ParseComparator(t)) <==> TokenFits(t)
  {
    LaterPassesKeep(t);
    if t.Caret? || t.Tilde? {
      CaretBuilds(t);
    } else if t.Prim? && ReplaceXRange(t) != [Star] {
      OperatorBuilds(t);
    } else {
      BuildableOne(Blank);
    }
  }

  lemma {:induction false} PassBuilds(ts: seq<Token>)
    ensures Buildable(Pass(ParseComparator, ts)) <==> AllFit(ts)
  {
    if ts != [] {
      ParseComparatorBuilds(ts[0]);
      PassBuilds(ts[1..]);
      BuildableConcat(ParseComparator(ts[0]), Pass(ParseComparator, ts[1..]));
      assert ts == [ts[0]] + ts[1..];
    }
  }

  lemma {:induction false} NonBlanksBuild(ts: seq<Token>)
    ensures Buildable(NonBlanks(ts)) <==> Buildable(ts)
  {
    if ts != [] {
      NonBlanksBuild(ts[1..]);
      BuildableConcat([ts[0]], ts[1..]);
      BuildableConcat([ts[0]], NonBlanks(ts[1..]));
      BuildableOne(ts[0]);
      assert ts == [ts[0]] + ts[1..];
    }
  }

  lemma RejoinBuilds(ts: seq<Token>)
    ensures Buildable(Rejoin(ts)) <==> Buildable(ts)
  {
    if |ts| > 1 {
      var front: seq<Token> := if ts[0].Blank? then [Blank] else [];
      var back: seq<Token> := if ts[|ts| - 1].Blank? then [Blank] else [];
      NonBlanksBuild(ts);
      BuildableConcat(front, NonBlanks(ts));
      BuildableConcat(front + NonBlanks(ts), back);
    }
  }

  lemma HyphenBuilds(from: Partial, to: Partial)
    ensures Buildable(HyphenReplace(from, to)) <==> GivenFit(from) && GivenFit(to) && NextFits(to)
  {
    var f, t := HyphenFrom(from), HyphenTo(to);
    BuildableConcat(f, t);
    if f != [] {
      BuildableOne(f[0]);
    }
    if t != [] {
      BuildableOne(t[0]);
    }
    BuildableOne(Blank);
  }

  lemma ExpandBuilds(a: Alternative)
    ensures Buildable(Expand(a)) <==> AlternativeFits(a)
  {
    if a.Hyphen? {
      HyphenIsKept(a.from, a.to);
      HyphenBuilds(a.from, a.to);
    } else {
      PassBuilds(a.ts);
      RejoinBuilds(Pass(ParseComparator, a.ts));
    }
  }

  lemma {:induction false} BuildableConverts(ts: seq<Token>)
    ensures ToComparators(ts).Some? <==> Buildable(ts)
  {
    if ts != [] {
      BuildableConverts(ts[1..]);
      BuildableConcat([ts[0]], ts[1..]);
      BuildableOne(ts[0]);
      assert ts == [ts[0]] + ts[1..];
    }
  }

  /** A range can be compiled exactly when its given components, and the ones that
      its operators step, do not exceed the largest safe integer. */
  lemma {:induction false} CompileSucceeds(range: seq<Alternative>)
    ensures Compile(range).Some? <==> forall a :: a in range ==> AlternativeFits(a)
  {
    if range != [] {
      ExpandBuilds(range[0]);
      BuildableConverts(Expand(range[0]));
      CompileSucceeds(range[1..]);
      assert range == [range[0]] + range[1..];
      assert forall a :: a in range <==> a == range[0] || a in range[1..];
    }
  }
}
