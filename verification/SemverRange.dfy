/** Version ranges: how carets, tildes, partial versions and hyphens are rewritten
    into plain comparators, and what they mean before the rewriting. */
module SemverRange {
  import opened Common
  import opened SemverOrder

  /** The largest number that a version component may have. */
  const MAX_SAFE_INTEGER: nat := 9007199254740991

  datatype Op = Bare | Eq | Lt | Le | Gt | Ge

  /** A component of a partial version; `X` is a wildcard or a missing component. */
  datatype XId = X | N(n: nat)

  datatype Partial = Partial(major: XId, minor: XId, patch: XId, pre: seq<Ident>) {
    predicate IsFull() {
      major.N? && minor.N? && patch.N?
    }

    function AsVersion(): Version
      requires IsFull()
    {
      RawVersion(major.n, minor.n, patch.n, pre, [])
    }
  }

  datatype Token = Caret(p: Partial) | Tilde(p: Partial) | Prim(op: Op, p: Partial) | Star | Blank

  /** One alternative of a range, between two "||". */
  datatype Alternative = Hyphen(from: Partial, to: Partial) | Tokens(ts: seq<Token>)

  datatype Comparator = AnyVersion | Bound(op: Op, version: Version)

  function Plain(op: Op, major: nat, minor: nat, patch: nat): Token {
    Prim(op, Partial(N(major), N(minor), N(patch), []))
  }

  // ----- the rewriting -----

  function ReplaceCaret(t: Token): seq<Token> {
    if !t.Caret? then [t]
    else if t.p.major.X? then [Blank]
    else
      var M := t.p.major.n;
      if t.p.minor.X? then
        [Plain(Ge, M, 0, 0), Plain(Lt, M + 1, 0, 0)]
      else
        var m := t.p.minor.n;
        if t.p.patch.X? then
          if M == 0 then [Plain(Ge, M, m, 0), Plain(Lt, M, m + 1, 0)]
          else [Plain(Ge, M, m, 0), Plain(Lt, M + 1, 0, 0)]
        else if M == 0 then
          if m == 0 then [Prim(Ge, t.p), Plain(Lt, M, m, t.p.patch.n + 1)]
          else [Prim(Ge, t.p), Plain(Lt, M, m + 1, 0)]
        else
          [Prim(Ge, t.p), Plain(Lt, M + 1, 0, 0)]
  }

  function ReplaceTilde(t: Token): seq<Token> {
    if !t.Tilde? then [t]
    else if t.p.major.X? then [Blank]
    else
      var M := t.p.major.n;
      if t.p.minor.X? then
        [Plain(Ge, M, 0, 0), Plain(Lt, M + 1, 0, 0)]
      else
        var m := t.p.minor.n;
        if t.p.patch.X? then
          [Plain(Ge, M, m, 0), Plain(Lt, M, m + 1, 0)]
        else
          [Prim(Ge, t.p), Plain(Lt, M, m + 1, 0)]
  }

  function ReplaceXRange(t: Token): seq<Token> {
    if !t.Prim? then [t]
    else
      var xM := t.p.major.X?;
      var xm := xM || t.p.minor.X?;
      var xp := xm || t.p.patch.X?;
      var op := if t.op == Eq && xp then Bare else t.op;
      if xM then
        if op == Gt || op == Lt then [Plain(Lt, 0, 0, 0)] else [Star]
      else if op != Bare && xp then
        var M := t.p.major.n;
        var m := if xm then 0 else t.p.minor.n;
        if op == Gt then
          if xm then [Plain(Ge, M + 1, 0, 0)] else [Plain(Ge, M, m + 1, 0)]
        else if op == Le then
          if xm then [Plain(Lt, M + 1, m, 0)] else [Plain(Lt, M, m + 1, 0)]
        else
          [Plain(op, M, m, 0)]
      else if xm then
        [Plain(Ge, t.p.major.n, 0, 0), Plain(Lt, t.p.major.n + 1, 0, 0)]
      else if xp then
        [Plain(Ge, t.p.major.n, t.p.minor.n, 0), Plain(Lt, t.p.major.n, t.p.minor.n + 1, 0)]
      else
        [t]
  }

  function ReplaceStar(t: Token): seq<Token> {
    if t.Star? then [Blank] else [t]
  }

  /** A pass rewrites each token of a list into a list. */
  function Pass(f: Token -> seq<Token>, ts: seq<Token>): seq<Token> {
    if ts == [] then [] else f(ts[0]) + Pass(f, ts[1..])
  }

  /** Carets, then tildes, then x-ranges, then stars. */
  function ParseComparator(t: Token): seq<Token> {
    Pass(ReplaceStar, Pass(ReplaceXRange, Pass(ReplaceTilde, Pass(ReplaceCaret, [t]))))
  }

  function HyphenFrom(from: Partial): seq<Token> {
    if from.major.X? then []
    else if from.minor.X? then [Plain(Ge, from.major.n, 0, 0)]
    else if from.patch.X? then [Plain(Ge, from.major.n, from.minor.n, 0)]
    else [Prim(Ge, from)]
  }

  function HyphenTo(to: Partial): seq<Token> {
    if to.major.X? then []
    else if to.minor.X? then [Plain(Lt, to.major.n + 1, 0, 0)]
    else if to.patch.X? then [Plain(Lt, to.major.n, to.minor.n + 1, 0)]
    else [Prim(Le, to)]
  }

  function HyphenReplace(from: Partial, to: Partial): seq<Token> {
    var ts := HyphenFrom(from) + HyphenTo(to);
    if ts == [] then [Blank] else ts
  }

  function NonBlanks(ts: seq<Token>): seq<Token> {
    if ts == [] then []
    else if ts[0].Blank? then NonBlanks(ts[1..])
    else [ts[0]] + NonBlanks(ts[1..])
  }

  /** Joining with spaces and splitting at white space again: blanks survive only
      at the two ends. */
  function Rejoin(ts: seq<Token>): seq<Token> {
    if |ts| <= 1 then ts
    else
      (if ts[0].Blank? then [Blank] else []) + NonBlanks(ts) + (if ts[|ts| - 1].Blank? then [Blank] else [])
  }

  predicate InRange(v: Version) {
    v.major <= MAX_SAFE_INTEGER && v.minor <= MAX_SAFE_INTEGER && v.patch <= MAX_SAFE_INTEGER
  }

  /** Builds a comparator; none when the text is not a comparator or a component
      is too large, which is where the original throws. */
  function ToComparator(t: Token): Option<Comparator> {
    if t.Blank? then Some(AnyVersion)
    else if t.Prim? && t.p.IsFull() && InRange(t.p.AsVersion()) then
      Some(Bound(if t.op == Eq then Bare else t.op, t.p.AsVersion()))
    else None
  }

  function ToComparators(ts: seq<Token>): Option<seq<Comparator>> {
    if ts == [] then Some([])
    else
      var first, rest := ToComparator(ts[0]), ToComparators(ts[1..]);
      if first.Some? && rest.Some? then Some([first.value] + rest.value) else None
  }

  function Expand(a: Alternative): seq<Token> {
    Rejoin(Pass(ParseComparator, if a.Hyphen? then HyphenReplace(a.from, a.to) else a.ts))
  }

  /** The comparator sets of a range; none when one of them cannot be built. */
  function Compile(range: seq<Alternative>): Option<seq<seq<Comparator>>> {
    if range == [] then Some([])
    else
      var first, rest := ToComparators(Expand(range[0])), Compile(range[1..]);
      if first.Some? && rest.Some? then Some([first.value] + rest.value) else None
  }

  // ----- testing a version -----

  predicate OpHolds(op: Op, order: int) {
    match op
    case Bare => order == 0
    case Eq => order == 0
    case Lt => order < 0
    case Le => order <= 0
    case Gt => order > 0
    case Ge => order >= 0
  }

  predicate Accepts(c: Comparator, v: Version) {
    c.AnyVersion? || OpHolds(c.op, Compare(v, c.version))
  }

  /** A comparator that lets pre-releases of `v`'s own core through. */
  predicate Opens(c: Comparator, v: Version) {
    c.AnyVersion? || (c.version.pre != [] && SameCore(c.version, v))
  }

  /** All comparators accept, and a pre-release needs one that opens its core. */
  ghost predicate SetAccepts(cs: seq<Comparator>, v: Version) {
    && (forall c :: c in cs ==> Accepts(c, v))
    && (v.pre != [] ==> exists c :: c in cs && Opens(c, v))
  }

  ghost predicate RangeAccepts(sets: seq<seq<Comparator>>, v: Version) {
    exists s :: s in sets && SetAccepts(s, v)
  }

  method TestSet(comparators: seq<Comparator>, v: Version) returns (b: bool)
    ensures b <==> SetAccepts(comparators, v)
  {
    for i := 0 to |comparators|
      invariant forall c :: c in comparators[..i] ==> Accepts(c, v)
    {
      if !Accepts(comparators[i], v) {
        return false;
      }
    }
    assert comparators[..|comparators|] == comparators;
    if v.pre != [] {
      for i := 0 to |comparators|
        invariant forall c :: c in comparators[..i] ==> !Opens(c, v)
      {
        if comparators[i].AnyVersion? {
          assert Opens(comparators[i], v);
          return true;
        }
        if |comparators[i].version.pre| > 0 && SameCore(comparators[i].version, v) {
          assert Opens(comparators[i], v);
          return true;
        }
      }
      return false;
    }
    return true;
  }

  method TestRange(sets: seq<seq<Comparator>>, v: Version) returns (b: bool)
    ensures b <==> RangeAccepts(sets, v)
  {
    for i := 0 to |sets|
      invariant forall s :: s in sets[..i] ==> !SetAccepts(s, v)
    {
      var accepted := TestSet(sets[i], v);
      if accepted {
        return true;
      }
    }
    assert sets[..|sets|] == sets;
    return false;
  }

  // ----- what a range means before rewriting -----

  /** Compares a version with the given leading components of a partial version. */
  function ComparePartial(v: Version, p: Partial): int {
    if p.major.X? then 0
    else if v.major != p.major.n then Sign(v.major, p.major.n)
    else if p.minor.X? then 0
    else if v.minor != p.minor.n then Sign(v.minor, p.minor.n)
    else if p.patch.X? then 0
    else if v.patch != p.patch.n then Sign(v.patch, p.patch.n)
    else PreOrder(v.pre, p.pre)
  }

  /** Same major, and same minor when one is given. */
  predicate TildeAgrees(v: Version, p: Partial) {
    p.major.X? || (v.major == p.major.n && (p.minor.X? || v.minor == p.minor.n))
  }

  /** Unchanged up to the left-most non-zero given component, or up to the last
      given component when all are zero. */
  predicate CaretAgrees(v: Version, p: Partial) {
    p.major.X? || (v.major == p.major.n &&
      (p.major.n != 0 || p.minor.X? || (v.minor == p.minor.n &&
        (p.minor.n != 0 || p.patch.X? || v.patch == p.patch.n))))
  }

  predicate TokenMeans(t: Token, v: Version) {
    match t
    case Caret(p) => ComparePartial(v, p) >= 0 && CaretAgrees(v, p)
    case Tilde(p) => ComparePartial(v, p) >= 0 && TildeAgrees(v, p)
    case Prim(op, p) => OpHolds(op, ComparePartial(v, p))
    case Star => true
    case Blank => true
  }

  ghost predicate TokensMean(ts: seq<Token>, v: Version) {
    forall t :: t in ts ==> TokenMeans(t, v)
  }

  ghost predicate AlternativeMeans(a: Alternative, v: Version) {
    match a
    case Hyphen(from, to) => ComparePartial(v, from) >= 0 && ComparePartial(v, to) <= 0
    case Tokens(ts) => TokensMean(ts, v)
  }

  // ----- the rewriting preserves meaning on releases -----

  ghost predicate Preserves(f: Token -> seq<Token>, v: Version) {
    forall t :: TokensMean(f(t), v) <==> TokenMeans(t, v)
  }

  lemma TokensMeanOne(t: Token, v: Version)
    ensures TokensMean([t], v) <==> TokenMeans(t, v)
  {
    assert t in [t];
  }

  lemma TokensMeanTwo(s: Token, t: Token, v: Version)
    ensures TokensMean([s, t], v) <==> TokenMeans(s, v) && TokenMeans(t, v)
  {
    assert s in [s, t] && t in [s, t];
  }

  lemma CaretPreserves(t: Token, v: Version)
    requires v.IsRelease()
    ensures TokensMean(ReplaceCaret(t), v) <==> TokenMeans(t, v)
  {
    var r := ReplaceCaret(t);
    if |r| == 1 {
      TokensMeanOne(r[0], v);
    } else {
      TokensMeanTwo(r[0], r[1], v);
    }
  }

  lemma TildePreserves(t: Token, v: Version)
    requires v.IsRelease()
    ensures TokensMean(ReplaceTilde(t), v) <==> TokenMeans(t, v)
  {
    var r := ReplaceTilde(t);
    if |r| == 1 {
      TokensMeanOne(r[0], v);
    } else {
      TokensMeanTwo(r[0], r[1], v);
    }
  }

  lemma XRangePreserves(t: Token, v: Version)
    requires v.IsRelease()
    ensures TokensMean(ReplaceXRange(t), v) <==> TokenMeans(t, v)
  {
    var r := ReplaceXRange(t);
    if |r| == 1 {
      TokensMeanOne(r[0], v);
      XRangeSingle(t, v);
    } else {
      TokensMeanTwo(r[0], r[1], v);
    }
  }

  lemma XRangeSingle(t: Token, v: Version)
    requires v.IsRelease() && |ReplaceXRange(t)| == 1
    ensures TokenMeans(ReplaceXRange(t)[0], v) <==> TokenMeans(t, v)
  {
  }

  lemma StarPreserves(t: Token, v: Version)
    ensures TokensMean(ReplaceStar(t), v) <==> TokenMeans(t, v)
  {
    TokensMeanOne(t, v);
  }

  lemma TokensMeanConcat(a: seq<Token>, b: seq<Token>, v: Version)
    ensures TokensMean(a + b, v) <==> TokensMean(a, v) && TokensMean(b, v)
  {
    assert forall t :: t in a + b <==> t in a || t in b;
  }

  lemma {:induction false} PassPreserves(f: Token -> seq<Token>, ts: seq<Token>, v: Version)
    requires Preserves(f, v)
    ensures TokensMean(Pass(f, ts), v) <==> TokensMean(ts, v)
  {
    if ts != [] {
      PassPreserves(f, ts[1..], v);
      TokensMeanConcat(f(ts[0]), Pass(f, ts[1..]), v);
      TokensMeanConcat([ts[0]], ts[1..], v);
      TokensMeanOne(ts[0], v);
      assert ts == [ts[0]] + ts[1..];
    }
  }

  lemma EachPassPreserves(v: Version)
    requires v.IsRelease()
    ensures Preserves(ReplaceCaret, v) && Preserves(ReplaceTilde, v)
    ensures Preserves(ReplaceXRange, v) && Preserves(ReplaceStar, v)
  {
    forall t
      ensures TokensMean(ReplaceCaret(t), v) <==> TokenMeans(t, v)
    {
      CaretPreserves(t, v);
    }
    forall t
      ensures TokensMean(ReplaceTilde(t), v) <==> TokenMeans(t, v)
    {
      TildePreserves(t, v);
    }
    forall t
      ensures TokensMean(ReplaceXRange(t), v) <==> TokenMeans(t, v)
    {
      XRangePreserves(t, v);
    }
    forall t
      ensures TokensMean(ReplaceStar(t), v) <==> TokenMeans(t, v)
    {
      StarPreserves(t, v);
    }
  }

  lemma FourPassesPreserve(f: Token -> seq<Token>, g: Token -> seq<Token>, h: Token -> seq<Token>,
                           k: Token -> seq<Token>, t: Token, v: Version)
    requires Preserves(f, v) && Preserves(g, v) && Preserves(h, v) && Preserves(k, v)
    ensures TokensMean(Pass(k, Pass(h, Pass(g, Pass(f, [t])))), v) <==> TokenMeans(t, v)
  {
    TokensMeanOne(t, v);
    PassPreserves(f, [t], v);
    PassPreserves(g, Pass(f, [t]), v);
    PassPreserves(h, Pass(g, Pass(f, [t])), v);
    PassPreserves(k, Pass(h, Pass(g, Pass(f, [t]))), v);
  }

  lemma ParseComparatorPreserves(t: Token, v: Version)
    requires v.IsRelease()
    ensures TokensMean(ParseComparator(t), v) <==> TokenMeans(t, v)
  {
    EachPassPreserves(v);
    FourPassesPreserve(ReplaceCaret, ReplaceTilde, ReplaceXRange, ReplaceStar, t, v);
  }

  lemma HyphenPreserves(from: Partial, to: Partial, v: Version)
    requires v.IsRelease()
    ensures TokensMean(HyphenReplace(from, to), v) <==> ComparePartial(v, from) >= 0 && ComparePartial(v, to) <= 0
  {
    var f, t := HyphenFrom(from), HyphenTo(to);
    TokensMeanConcat(f, t, v);
    if f != [] {
      TokensMeanOne(f[0], v);
    }
    if t != [] {
      TokensMeanOne(t[0], v);
    }
    TokensMeanOne(Blank, v);
  }

  lemma {:induction false} NonBlanksMean(ts: seq<Token>, v: Version)
    ensures TokensMean(NonBlanks(ts), v) <==> TokensMean(ts, v)
  {
    if ts != [] {
      NonBlanksMean(ts[1..], v);
      TokensMeanConcat([ts[0]], ts[1..], v);
      TokensMeanConcat([ts[0]], NonBlanks(ts[1..]), v);
      TokensMeanOne(ts[0], v);
      assert ts == [ts[0]] + ts[1..];
    }
  }

  lemma RejoinPreserves(ts: seq<Token>, v: Version)
    ensures TokensMean(Rejoin(ts), v) <==> TokensMean(ts, v)
  {
    if |ts| > 1 {
      var front: seq<Token> := if ts[0].Blank? then [Blank] else [];
      var back: seq<Token> := if ts[|ts| - 1].Blank? then [Blank] else [];
      NonBlanksMean(ts, v);
      TokensMeanConcat(front, NonBlanks(ts), v);
      TokensMeanConcat(front + NonBlanks(ts), back, v);
      TokensMeanOne(Blank, v);
    }
  }

  lemma ExpandPreserves(a: Alternative, v: Version)
    requires v.IsRelease()
    ensures TokensMean(Expand(a), v) <==> AlternativeMeans(a, v)
  {
    var ts := if a.Hyphen? then HyphenReplace(a.from, a.to) else a.ts;
    if a.Hyphen? {
      HyphenPreserves(a.from, a.to, v);
    }
    forall t
      ensures TokensMean(ParseComparator(t), v) <==> TokenMeans(t, v)
    {
      ParseComparatorPreserves(t, v);
    }
    PassPreserves(ParseComparator, ts, v);
    RejoinPreserves(Pass(ParseComparator, ts), v);
  }

  lemma {:induction false} ComparatorsPreserve(ts: seq<Token>, v: Version)
    requires v.IsRelease() && ToComparators(ts).Some?
    ensures SetAccepts(ToComparators(ts).value, v) <==> TokensMean(ts, v)
  {
    if ts != [] {
      var c, rest := ToComparator(ts[0]).value, ToComparators(ts[1..]).value;
      ComparatorsPreserve(ts[1..], v);
      TokensMeanConcat([ts[0]], ts[1..], v);
      TokensMeanOne(ts[0], v);
      assert ts == [ts[0]] + ts[1..];
      assert forall d :: d in [c] + rest <==> d == c || d in rest;
      assert Accepts(c, v) <==> TokenMeans(ts[0], v);
    }
  }

  /** A release satisfies a range exactly when it has the meaning of one of its
      alternatives: the rewriting loses and adds nothing. */
  lemma {:induction false} CompilePreservesMeaning(range: seq<Alternative>, v: Version)
    requires v.IsRelease() && Compile(range).Some?
    ensures RangeAccepts(Compile(range).value, v) <==> exists a :: a in range && AlternativeMeans(a, v)
  {
    if range != [] {
      var first, rest := ToComparators(Expand(range[0])).value, Compile(range[1..]).value;
      CompilePreservesMeaning(range[1..], v);
      ExpandPreserves(range[0], v);
      ComparatorsPreserve(Expand(range[0]), v);
      assert range == [range[0]] + range[1..];
      assert forall s :: s in [first] + rest <==> s == first || s in rest;
      assert forall a :: a in range <==> a == range[0] || a in range[1..];
      if RangeAccepts(rest, v) {
        var s :| s in rest && SetAccepts(s, v);
        assert s in [first] + rest;
      }
    }
  }
}
