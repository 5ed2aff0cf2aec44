/** Incrementing a version in place, and what each kind of increment yields. */
module SemverInc {
  import opened Common
  import opened SemverOrder

  datatype Kind = PreMajor | PreMinor | PrePatch | PreRelease | Major | Minor | Patch | Pre | Unknown

  // ----- the value after an increment -----

  /** Position of the last numeric identifier, or -1. */
  function LastNumber(p: seq<RawIdent>): (i: int)
    ensures -1 <= i < |p|
    ensures i >= 0 ==> p[i].Num?
    ensures forall j :: i < j < |p| ==> p[j].Alnum?
  {
    if p == [] then -1
    else if p[|p| - 1].Num? then |p| - 1
    else LastNumber(p[..|p| - 1])
  }

  /** The last number goes up by one; a list without numbers gains a zero. */
  function BumpNumber(p: seq<RawIdent>): (r: seq<RawIdent>)
    ensures |r| > 0
  {
    var i := LastNumber(p);
    if i >= 0 then p[i := Num(p[i].n + 1)] else p + [Num(0)]
  }

  /** An identifier is kept when it leads the list and what follows reads as a number. */
  predicate Keeps(p: seq<RawIdent>, identifier: string, readsAsNumber: string -> bool) {
    |p| > 1 && p[0] == Alnum(identifier) && (p[1].Num? || readsAsNumber(p[1].s))
  }

  function BumpPre(p: seq<RawIdent>, identifier: string, readsAsNumber: string -> bool): seq<RawIdent> {
    var r := BumpNumber(p);
    if identifier == "" || Keeps(r, identifier, readsAsNumber) then r
    else [Alnum(identifier), Num(0)]
  }

  function NextPatch(v: RawVersion): RawVersion {
    v.(patch := if v.pre == [] then v.patch + 1 else v.patch, pre := [])
  }

  /** The version after an increment; none when the kind is not known. */
  function Incremented(v: RawVersion, kind: Kind, identifier: string, readsAsNumber: string -> bool): Option<RawVersion>
  {
    match kind
    case PreMajor =>
      Some(v.(major := v.major + 1, minor := 0, patch := 0, pre := BumpPre([], identifier, readsAsNumber)))
    case PreMinor => Some(v.(minor := v.minor + 1, patch := 0, pre := BumpPre([], identifier, readsAsNumber)))
    case PrePatch => Some(v.(patch := v.patch + 1, pre := BumpPre([], identifier, readsAsNumber)))
    case PreRelease =>
      var w := if v.pre == [] then NextPatch(v) else v;
      Some(w.(pre := BumpPre(w.pre, identifier, readsAsNumber)))
    case Major =>
      var up := v.minor != 0 || v.patch != 0 || v.pre == [];
      Some(v.(major := if up then v.major + 1 else v.major, minor := 0, patch := 0, pre := []))
    case Minor =>
      var up := v.patch != 0 || v.pre == [];
      Some(v.(minor := if up then v.minor + 1 else v.minor, patch := 0, pre := []))
    case Patch => Some(NextPatch(v))
    case Pre => Some(v.(pre := BumpPre(v.pre, identifier, readsAsNumber)))
    case Unknown => None
  }

  /** A version object, incremented in place. An empty identifier is no identifier.
      `readsAsNumber` stands for JavaScript's coercion of text to a number. */
  class SemVer {
    var major: nat
    var minor: nat
    var patch: nat
    var prerelease: seq<RawIdent>
    const build: seq<string>
    const readsAsNumber: string -> bool

    constructor (v: RawVersion, readsAsNumber: string -> bool)
      ensures Value() == v && this.readsAsNumber == readsAsNumber
    {
      major, minor, patch := v.major, v.minor, v.patch;
      prerelease, build := v.pre, v.build;
      this.readsAsNumber := readsAsNumber;
    }

    ghost function Value(): RawVersion
      reads this
    {
      RawVersion(major, minor, patch, prerelease, build)
    }

    /** The increment of kind "pre": a downward scan for the last number. */
    method IncPre(identifier: string)
      modifies this
      ensures Value() == old(Value()).(pre := BumpPre(old(prerelease), identifier, readsAsNumber))
      ensures FollowsPre(old(prerelease), identifier, readsAsNumber, prerelease)
    {
      BumpPreFollows(prerelease, identifier, readsAsNumber);
      if prerelease == [] {
        prerelease := [Num(0)];
      } else {
        var i := |prerelease| - 1;
        while i >= 0
          invariant -3 <= i < |prerelease| && i != -2
          invariant Value() == old(Value()).(pre := prerelease)
          invariant i >= -1 ==> prerelease == old(prerelease)
          invariant forall j :: i < j < |old(prerelease)| && i >= -1 ==> old(prerelease)[j].Alnum?
          invariant i == -3 ==> LastNumber(old(prerelease)) >= 0 && prerelease == BumpNumber(old(prerelease))
        {
          if prerelease[i].Num? {
            assert LastNumber(old(prerelease)) == i;
            prerelease := prerelease[i := Num(prerelease[i].n + 1)];
            i := -2;
          }
          i := i - 1;
        }
        if i == -1 {
          prerelease := prerelease + [Num(0)];
        }
      }
      assert prerelease == BumpNumber(old(prerelease));
      if identifier != "" {
        if prerelease[0] == Alnum(identifier) {
          if |prerelease| == 1 || (prerelease[1].Alnum? && !readsAsNumber(prerelease[1].s)) {
            prerelease := [Alnum(identifier), Num(0)];
          }
        } else {
          prerelease := [Alnum(identifier), Num(0)];
        }
      }
    }

    method IncPatch()
      modifies this
      ensures Value() == NextPatch(old(Value()))
    {
      if prerelease == [] {
        patch := patch + 1;
      }
      prerelease := [];
    }

    /** Increments the version; an unknown kind is refused and changes nothing. */
    method Inc(kind: Kind, identifier: string) returns (ok: bool)
      modifies this
      ensures ok <==> kind != Unknown
      ensures ok ==> Incremented(old(Value()), kind, identifier, readsAsNumber) == Some(Value())
      ensures !ok ==> Value() == old(Value())
    {
      ok := true;
      match kind {
        case PreMajor =>
          prerelease, patch, minor := [], 0, 0;
          major := major + 1;
          IncPre(identifier);
        case PreMinor =>
          prerelease, patch := [], 0;
          minor := minor + 1;
          IncPre(identifier);
        case PrePatch =>
          prerelease := [];
          IncPatch();
          IncPre(identifier);
        case PreRelease =>
          if prerelease == [] {
            IncPatch();
          }
          IncPre(identifier);
        case Major =>
          if minor != 0 || patch != 0 || prerelease == [] {
            major := major + 1;
          }
          minor, patch, prerelease := 0, 0, [];
        case Minor =>
          if patch != 0 || prerelease == [] {
            minor := minor + 1;
          }
          patch, prerelease := 0, [];
        case Patch =>
          IncPatch();
        case Pre =>
          IncPre(identifier);
        case Unknown =>
          ok := false;
      }
    }
  }

  // ----- what the increments mean -----

  /** The release versions that an increment of this kind may produce. */
  predicate HasShape(kind: Kind, v: RawVersion) {
    && v.IsRelease()
    && (kind == Minor || kind == Major ==> v.patch == 0)
    && (kind == Major ==> v.minor == 0)
  }

  /** 'patch', 'minor' and 'major' step up to the least release of their shape. */
  lemma IncIsLeastStep(v: RawVersion, kind: Kind, identifier: string, readsAsNumber: string -> bool)
    requires kind == Patch || kind == Minor || kind == Major
    ensures var r := Incremented(v, kind, identifier, readsAsNumber).value;
            && HasShape(kind, r) && Compare(v, r) < 0 && r.build == v.build
            && forall w :: HasShape(kind, w) && Compare(v, w) < 0 ==> Compare(r, w) <= 0
  {
  }

  /** The list `q` is `p` with its last number one higher; without a number, `p` and
      a single zero. */
  ghost predicate StepsLastNumber(p: seq<RawIdent>, q: seq<RawIdent>) {
    if exists i :: 0 <= i < |p| && p[i].Num? then exists i :: StepsAt(p, q, i)
    else q == p + [Num(0)]
  }

  ghost predicate StepsAt(p: seq<RawIdent>, q: seq<RawIdent>, i: int) {
    && 0 <= i < |p| == |q| && p[i].Num? && q[i] == Num(p[i].n + 1)
    && (forall j :: i < j < |p| ==> !p[j].Num?)
    && (forall j :: 0 <= j < |p| && j != i ==> q[j] == p[j])
  }

  /** The pre-release that follows `p`: with an identifier, it starts over at zero
      unless the identifier leads `p` and a number comes second. */
  ghost predicate FollowsPre(p: seq<RawIdent>, identifier: string, readsAsNumber: string -> bool, q: seq<RawIdent>) {
    if identifier == "" then StepsLastNumber(p, q)
    else if |p| > 1 && p[0] == Alnum(identifier) && (p[1].Num? || readsAsNumber(p[1].s)) then StepsLastNumber(p, q)
    else q == [Alnum(identifier), Num(0)]
  }

  lemma BumpNumberSteps(p: seq<RawIdent>)
    ensures StepsLastNumber(p, BumpNumber(p))
  {
    var i := LastNumber(p);
    if i >= 0 {
      assert StepsAt(p, BumpNumber(p), i);
    }
  }

  lemma BumpPreFollows(p: seq<RawIdent>, identifier: string, readsAsNumber: string -> bool)
    ensures FollowsPre(p, identifier, readsAsNumber, BumpPre(p, identifier, readsAsNumber))
  {
    BumpNumberSteps(p);
    var r := BumpNumber(p);
    if |p| > 1 {
      assert r[0] == p[0] || (p[0].Num? && r[0].Num?);
      assert r[1] == p[1] || (p[1].Num? && r[1].Num?);
    } else if |p| == 1 && p[0].Alnum? {
      assert r == p + [Num(0)];
    }
  }

  /** What every pre-release kind does to the version: which component steps, that
      the lower ones and the pre-release start over, and the pre-release that follows.
      The build is kept by all kinds. */
  lemma PreKindsExactly(v: RawVersion, kind: Kind, identifier: string, readsAsNumber: string -> bool)
    requires kind != Unknown
    ensures var r := Incremented(v, kind, identifier, readsAsNumber).value;
            && r.build == v.build
            && (kind == PreMajor ==> r.major == v.major + 1 && r.minor == r.patch == 0)
            && (kind == PreMinor ==> r.major == v.major && r.minor == v.minor + 1 && r.patch == 0)
            && (kind == PrePatch || (kind == PreRelease && v.IsRelease()) ==>
                  r.major == v.major && r.minor == v.minor && r.patch == v.patch + 1)
            && (kind == Pre || (kind == PreRelease && !v.IsRelease()) ==>
                  SameCore(r, v) && FollowsPre(v.pre, identifier, readsAsNumber, r.pre))
            && (kind == PreMajor || kind == PreMinor || kind == PrePatch || (kind == PreRelease && v.IsRelease()) ==>
                  FollowsPre([], identifier, readsAsNumber, r.pre))
  {
    BumpPreFollows(v.pre, identifier, readsAsNumber);
    BumpPreFollows([], identifier, readsAsNumber);
  }

  lemma {:induction false} CompareListsPrefix(s: seq<RawIdent>, p: seq<RawIdent>, q: seq<RawIdent>)
    ensures CompareLists(s + p, s + q) == CompareLists(p, q)
  {
    if s == [] {
      assert s + p == p && s + q == q;
    } else {
      assert (s + p)[1..] == s[1..] + p && (s + q)[1..] == s[1..] + q;
      CompareListsPrefix(s[1..], p, q);
    }
  }

  lemma BumpNumberIncreases(p: seq<RawIdent>)
    ensures CompareLists(p, BumpNumber(p)) < 0
  {
    var i := LastNumber(p);
    var r := BumpNumber(p);
    if i >= 0 {
      assert p == p[..i] + p[i..] && r == p[..i] + r[i..];
      CompareListsPrefix(p[..i], p[i..], r[i..]);
    } else {
      assert p == p + [];
      CompareListsPrefix(p, [], [Num(0)]);
    }
  }

  /** When 'pre' yields a higher pre-release than the one it starts from. */
  predicate PreGoesUp(p: seq<RawIdent>, identifier: string, readsAsNumber: string -> bool) {
    if identifier == "" then true
    else if p != [] && p[0] == Alnum(identifier) then |p| == 1 || p[1].Num? || readsAsNumber(p[1].s)
    else p == [] || CompareIdentifiers(p[0], Alnum(identifier)) < 0
  }

  lemma BumpPreIncreases(p: seq<RawIdent>, identifier: string, readsAsNumber: string -> bool)
    requires p != []
    ensures PreOrder(p, BumpPre(p, identifier, readsAsNumber)) < 0 <==> PreGoesUp(p, identifier, readsAsNumber)
  {
    BumpNumberIncreases(p);
    if identifier != "" {
      var id := Alnum(identifier);
      var r := BumpNumber(p);
      assert r[0] == p[0] || (p[0].Num? && r[0].Num?);
      if p[0] == id {
        if |p| == 1 {
          assert r[1] == Num(0);
        } else {
          assert p[1] == r[1] || (p[1].Num? && r[1].Num?);
          assert [id, Num(0)][1..] == [Num(0)];
          assert CompareLists(p, [id, Num(0)]) == CompareLists(p[1..], [Num(0)]);
        }
      }
    }
  }

  /** Every increment but 'pre' of a release, and 'pre' or 'prerelease' with an
      identifier that sorts too low, strictly raises precedence. */
  lemma IncIncreasesExactly(v: RawVersion, kind: Kind, identifier: string, readsAsNumber: string -> bool)
    requires kind != Unknown
    ensures Compare(v, Incremented(v, kind, identifier, readsAsNumber).value) < 0 <==>
            match kind
            case Pre => v.pre != [] && PreGoesUp(v.pre, identifier, readsAsNumber)
            case PreRelease => v.pre == [] || PreGoesUp(v.pre, identifier, readsAsNumber)
            case _ => true
  {
    if v.pre != [] {
      BumpPreIncreases(v.pre, identifier, readsAsNumber);
    }
  }

  /** In particular the four pre-release kinds always increase without an identifier. */
  lemma PreKindsIncrease(v: RawVersion, kind: Kind, readsAsNumber: string -> bool)
    requires kind == PreMajor || kind == PreMinor || kind == PrePatch || kind == PreRelease
    ensures var r := Incremented(v, kind, "", readsAsNumber).value;
            Compare(v, r) < 0 && !r.IsRelease()
  {
    IncIncreasesExactly(v, kind, "", readsAsNumber);
  }

  /** The versions, pre-releases included, that start after `v` at the level that a
      pre-release kind steps: a later major, minor or patch. */
  predicate StartsAfter(kind: Kind, v: RawVersion, w: RawVersion) {
    match kind
    case PreMajor => w.major > v.major && w.minor == 0 && w.patch == 0
    case PreMinor => (w.major > v.major || (w.major == v.major && w.minor > v.minor)) && w.patch == 0
    case _ => CoreBelow(v, w)
  }

  lemma ZeroIsLowest(p: seq<RawIdent>)
    ensures PreOrder([Num(0)], p) <= 0
  {
    var z: seq<RawIdent> := [Num(0)];
    if p != [] {
      assert z[1..] == [];
      assert CompareLists(z, p) ==
             if p[0] == Num(0) then CompareLists([], p[1..]) else CompareIdentifiers(Num(0), p[0]);
    }
  }

  /** Without an identifier, 'premajor', 'preminor', 'prepatch', and 'prerelease' of a
      release, yield the very first version of the next major, minor or patch. */
  lemma PreKindsAreLowest(v: RawVersion, kind: Kind, readsAsNumber: string -> bool, w: RawVersion)
    requires kind == PreMajor || kind == PreMinor || kind == PrePatch || (kind == PreRelease && v.IsRelease())
    ensures var r := Incremented(v, kind, "", readsAsNumber).value;
            StartsAfter(kind, v, r) && (StartsAfter(kind, v, w) ==> Compare(r, w) <= 0)
  {
    var r := Incremented(v, kind, "", readsAsNumber).value;
    assert r.pre == [Num(0)];
    ZeroIsLowest(w.pre);
  }
}
