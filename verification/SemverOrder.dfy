/** Parsed semantic versions and their precedence. */
module SemverOrder {
  import opened Common

  datatype RawIdent = Num(n: nat) | Alnum(s: string)

  /** Pre-release identifiers after parsing: numerals have become numbers. */
  type Ident = i: RawIdent | IsIdent(i) witness Num(0)

  predicate IsIdent(i: RawIdent) {
    i.Alnum? ==> |i.s| > 0 && !IsNumeral(i.s)
  }

  /** A version object. Its pre-release may hold a numeral as text, which only an
      increment can put there. */
  datatype RawVersion = RawVersion(major: nat, minor: nat, patch: nat, pre: seq<RawIdent>, build: seq<string>) {
    predicate IsRelease() {
      pre == []
    }
  }

  /** A version as parsing yields it. */
  type Version = v: RawVersion | forall i :: 0 <= i < |v.pre| ==> IsIdent(v.pre[i]) witness Release(0, 0, 0)

  function Release(major: nat, minor: nat, patch: nat): RawVersion {
    RawVersion(major, minor, patch, [], [])
  }

  // ----- comparison -----

  predicate IsNumeric(i: RawIdent) {
    i.Num? || IsNumeral(i.s)
  }

  function NumberIn(i: RawIdent): nat
    requires IsNumeric(i)
  {
    if i.Num? then i.n else ValueOf(i.s)
  }

  function CompareIdentifiers(a: RawIdent, b: RawIdent): int {
    if IsNumeric(a) && !IsNumeric(b) then -1
    else if IsNumeric(b) && !IsNumeric(a) then 1
    else if IsNumeric(a) then Sign(NumberIn(a), NumberIn(b))
    else CompareStrings(a.s, b.s)
  }

  function CompareMain(a: RawVersion, b: RawVersion): int {
    var major := Sign(a.major, b.major);
    var minor := Sign(a.minor, b.minor);
    if major != 0 then major
    else if minor != 0 then minor
    else Sign(a.patch, b.patch)
  }

  /** The identifiers of two pre-releases, position by position. */
  function CompareLists(p: seq<RawIdent>, q: seq<RawIdent>): int {
    if p == [] && q == [] then 0
    else if q == [] then 1
    else if p == [] then -1
    else if p[0] == q[0] then CompareLists(p[1..], q[1..])
    else CompareIdentifiers(p[0], q[0])
  }

  function PreOrder(p: seq<RawIdent>, q: seq<RawIdent>): int {
    if p != [] && q == [] then -1
    else if p == [] && q != [] then 1
    else CompareLists(p, q)
  }

  /** Compares pre-releases by stepping an index through both lists. */
  method ComparePre(p: seq<RawIdent>, q: seq<RawIdent>) returns (r: int)
    ensures r == PreOrder(p, q)
  {
    if p != [] && q == [] {
      return -1;
    } else if p == [] && q != [] {
      return 1;
    } else if p == [] && q == [] {
      return 0;
    }
    var i := 0;
    while true
      invariant i <= |p| && i <= |q|
      invariant CompareLists(p[i..], q[i..]) == PreOrder(p, q)
      decreases |p| - i
    {
      if i == |p| && i == |q| {
        return 0;
      } else if i == |q| {
        return 1;
      } else if i == |p| {
        return -1;
      } else if p[i] != q[i] {
        return CompareIdentifiers(p[i], q[i]);
      }
      i := i + 1;
    }
  }

  function Compare(a: RawVersion, b: RawVersion): int {
    if CompareMain(a, b) != 0 then CompareMain(a, b) else PreOrder(a.pre, b.pre)
  }

  // ----- section 11 of Semantic Versioning 2.0.0 -----

  /** 11.2: major, minor and patch compare numerically, in that order. */
  predicate CoreBelow(a: RawVersion, b: RawVersion) {
    || a.major < b.major
    || (a.major == b.major && a.minor < b.minor)
    || (a.major == b.major && a.minor == b.minor && a.patch < b.patch)
  }

  predicate SameCore(a: RawVersion, b: RawVersion) {
    a.major == b.major && a.minor == b.minor && a.patch == b.patch
  }

  /** 11.4.1 to 11.4.3: numbers by value, text by code, numbers below text. Numeral
      text, which only an increment can bring in, counts as a number. */
  ghost predicate IdentBelow(x: RawIdent, y: RawIdent) {
    var numberX, numberY := x.Num? || IsNumeral(x.s), y.Num? || IsNumeral(y.s);
    if numberX && numberY then (if x.Num? then x.n else ValueOf(x.s)) < (if y.Num? then y.n else ValueOf(y.s))
    else if !numberX && !numberY then LexBelow(x.s, y.s)
    else numberX
  }

  /** 11.4: the first difference decides; with none, the shorter list is lower. */
  ghost predicate ListBelow(p: seq<Ident>, q: seq<Ident>) {
    exists k: nat :: DifferAt(p, q, k)
  }

  ghost predicate DifferAt(p: seq<Ident>, q: seq<Ident>, k: nat) {
    && k <= |p| && k < |q| && p[..k] == q[..k]
    && (k == |p| || IdentBelow(p[k], q[k]))
  }

  /** 11.3: a pre-release is below its release. */
  ghost predicate Precedes(a: Version, b: Version) {
    || CoreBelow(a, b)
    || (SameCore(a, b) && a.pre != [] && (b.pre == [] || ListBelow(a.pre, b.pre)))
  }

  // ----- the order on identifiers -----

  lemma IdentifiersAgree(x: Ident, y: Ident)
    ensures CompareIdentifiers(x, y) == 0 <==> x == y
    ensures CompareIdentifiers(x, y) == -CompareIdentifiers(y, x)
    ensures CompareIdentifiers(x, y) < 0 <==> IdentBelow(x, y)
  {
    if x.Alnum? && y.Alnum? {
      CompareStringsZero(x.s, y.s);
      CompareStringsFlip(x.s, y.s);
      CompareStringsIsLex(x.s, y.s);
    }
  }

  lemma RawIdentifiersAgree(x: RawIdent, y: RawIdent)
    ensures CompareIdentifiers(x, y) == -CompareIdentifiers(y, x)
    ensures CompareIdentifiers(x, y) < 0 <==> IdentBelow(x, y)
  {
    if x.Alnum? && y.Alnum? {
      CompareStringsFlip(x.s, y.s);
      CompareStringsIsLex(x.s, y.s);
    }
  }

  lemma IdentifiersTransitive(x: Ident, y: Ident, z: Ident)
    requires CompareIdentifiers(x, y) <= 0 && CompareIdentifiers(y, z) <= 0
    ensures CompareIdentifiers(x, z) <= 0
    ensures CompareIdentifiers(x, z) == 0 ==> x == y == z
  {
    IdentifiersAgree(x, y);
    IdentifiersAgree(y, z);
    IdentifiersAgree(x, z);
    if x.Alnum? && y.Alnum? && z.Alnum? {
      CompareStringsTransitive(x.s, y.s, z.s);
    }
  }

  // ----- the order on identifier lists -----

  lemma {:induction false} ListsAgree(p: seq<Ident>, q: seq<Ident>)
    ensures CompareLists(p, q) == 0 <==> p == q
    ensures CompareLists(p, q) == -CompareLists(q, p)
  {
    if p != [] && q != [] {
      IdentifiersAgree(p[0], q[0]);
      ListsAgree(p[1..], q[1..]);
      assert p == [p[0]] + p[1..] && q == [q[0]] + q[1..];
    }
  }

  lemma {:induction false} ListsTransitive(p: seq<Ident>, q: seq<Ident>, r: seq<Ident>)
    requires CompareLists(p, q) <= 0 && CompareLists(q, r) <= 0
    ensures CompareLists(p, r) <= 0
  {
    if p != [] && q != [] && r != [] {
      IdentifiersAgree(p[0], q[0]);
      IdentifiersAgree(q[0], r[0]);
      if p[0] == q[0] && q[0] == r[0] {
        ListsTransitive(p[1..], q[1..], r[1..]);
      } else {
        IdentifiersTransitive(p[0], q[0], r[0]);
      }
    }
  }

  lemma {:induction false} ListsFollowSpec(p: seq<Ident>, q: seq<Ident>)
    ensures CompareLists(p, q) < 0 <==> ListBelow(p, q)
  {
    forall k: nat | DifferAt(p, q, k) && k > 0
      ensures p[0] == q[0]
    {
      assert p[0] == p[..k][0] == q[..k][0] == q[0];
    }
    if p == [] || q == [] {
      if q != [] {
        assert DifferAt(p, q, 0);
      }
    } else if p[0] != q[0] {
      IdentifiersAgree(p[0], q[0]);
      if CompareLists(p, q) < 0 {
        assert DifferAt(p, q, 0);
      }
    } else {
      ListsFollowSpec(p[1..], q[1..]);
      if CompareLists(p, q) < 0 {
        var k: nat :| DifferAt(p[1..], q[1..], k);
        assert p[..k + 1] == [p[0]] + p[1..][..k] && q[..k + 1] == [q[0]] + q[1..][..k];
        assert DifferAt(p, q, k + 1);
      }
      if ListBelow(p, q) {
        var k: nat :| DifferAt(p, q, k);
        IdentifiersAgree(p[0], q[0]);
        assert k > 0;
        assert p[1..][..k - 1] == p[..k][1..] && q[1..][..k - 1] == q[..k][1..];
        assert DifferAt(p[1..], q[1..], k - 1);
      }
    }
  }

  // ----- the order on versions -----

  /** `Compare` is exactly the precedence of section 11, in both directions. */
  lemma CompareFollowsSpec(a: Version, b: Version)
    ensures Compare(a, b) < 0 <==> Precedes(a, b)
    ensures Compare(a, b) > 0 <==> Precedes(b, a)
  {
    ListsFollowSpec(a.pre, b.pre);
    ListsFollowSpec(b.pre, a.pre);
    ListsAgree(a.pre, b.pre);
  }

  /** Zero means the same core and pre-release; the build is ignored. */
  lemma CompareAntisymmetric(a: Version, b: Version)
    ensures Compare(a, b) == 0 <==> SameCore(a, b) && a.pre == b.pre
    ensures Compare(a, b) == -Compare(b, a)
  {
    ListsAgree(a.pre, b.pre);
  }

  lemma CompareTransitive(a: Version, b: Version, c: Version)
    requires Compare(a, b) <= 0 && Compare(b, c) <= 0
    ensures Compare(a, c) <= 0
    ensures Compare(a, c) == 0 ==> Compare(a, b) == 0 && Compare(b, c) == 0
  {
    CompareAntisymmetric(a, b);
    CompareAntisymmetric(b, c);
    CompareAntisymmetric(a, c);
    if SameCore(a, b) && SameCore(b, c) && a.pre != [] && b.pre != [] && c.pre != [] {
      ListsTransitive(a.pre, b.pre, c.pre);
      if a.pre == c.pre {
        ListsAgree(a.pre, b.pre);
        ListsAgree(b.pre, c.pre);
      }
    }
  }
}
