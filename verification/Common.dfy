/** Definitions shared by the models: failure values, decimal numerals and the
    code-unit order of strings that Go and JavaScript both use. */
module Common {

  datatype Option<+T> = None | Some(value: T)

  datatype Result<+T, +E> = Ok(value: T) | Err(error: E)

  type Byte = x: int | 0 <= x < 256

  type Int16 = x: int | -0x8000 <= x < 0x8000

  /** The sign of the comparison of `a` with `b`. */
  function Sign(a: int, b: int): int {
    if a < b then -1 else if a > b then 1 else 0
  }

  ghost predicate Distinct<T>(s: seq<T>) {
    forall i, j :: 0 <= i < j < |s| ==> s[i] != s[j]
  }

  /** What a map of amounts holds for a group. */
  function AmountIn(m: map<string, int>, g: string): int {
    if g in m then m[g] else 0
  }

  /** The sign of the lexicographic comparison of `a` with `b`. */
  function CompareStrings(a: string, b: string): (r: int)
    ensures r == -1 || r == 0 || r == 1
  {
    if a == [] then (if b == [] then 0 else -1)
    else if b == [] then 1
    else if a[0] < b[0] then -1
    else if a[0] > b[0] then 1
    else CompareStrings(a[1..], b[1..])
  }

  /** What lexicographic order means: a first position where the strings part,
      or one string is a proper prefix of the other. */
  ghost predicate LexBelow(a: string, b: string) {
    exists k: nat :: PartsAt(a, b, k)
  }

  ghost predicate PartsAt(a: string, b: string, k: nat) {
    && k <= |a| && k < |b| && a[..k] == b[..k]
    && (k == |a| || a[k] < b[k])
  }

  lemma {:induction false} CompareStringsZero(a: string, b: string)
    ensures CompareStrings(a, b) == 0 <==> a == b
  {
    if a != [] && b != [] {
      CompareStringsZero(a[1..], b[1..]);
      assert a == [a[0]] + a[1..] && b == [b[0]] + b[1..];
    }
  }

  lemma {:induction false} CompareStringsFlip(a: string, b: string)
    ensures CompareStrings(a, b) == -CompareStrings(b, a)
  {
    if a != [] && b != [] {
      CompareStringsFlip(a[1..], b[1..]);
    }
  }

  lemma {:induction false} CompareStringsTransitive(a: string, b: string, c: string)
    requires CompareStrings(a, b) <= 0 && CompareStrings(b, c) <= 0
    ensures CompareStrings(a, c) <= 0
    ensures CompareStrings(a, c) == 0 ==> CompareStrings(a, b) == 0 && CompareStrings(b, c) == 0
  {
    if a != [] && b != [] && c != [] && a[0] == b[0] == c[0] {
      CompareStringsTransitive(a[1..], b[1..], c[1..]);
    }
  }

  /** The recursive comparison decides the declarative order. */
  lemma {:induction false} CompareStringsIsLex(a: string, b: string)
    ensures CompareStrings(a, b) < 0 <==> LexBelow(a, b)
  {
    if a == [] || b == [] {
      if a == [] && b != [] {
        assert PartsAt(a, b, 0);
      }
    } else {
      CompareStringsIsLex(a[1..], b[1..]);
      if CompareStrings(a, b) < 0 {
        if a[0] < b[0] {
          assert PartsAt(a, b, 0);
        } else {
          var k: nat :| PartsAt(a[1..], b[1..], k);
          assert a[..k + 1] == [a[0]] + a[1..][..k] && b[..k + 1] == [b[0]] + b[1..][..k];
          assert PartsAt(a, b, k + 1);
        }
      }
      if LexBelow(a, b) {
        var k: nat :| PartsAt(a, b, k);
        if k > 0 {
          assert a[0] == a[..k][0] == b[..k][0] == b[0];
          assert a[1..][..k - 1] == a[..k][1..] && b[1..][..k - 1] == b[..k][1..];
          assert PartsAt(a[1..], b[1..], k - 1);
        }
      }
    }
  }

  predicate IsNumeral(s: string) {
    |s| > 0 && AllDigits(s)
  }

  predicate AllDigits(s: string) {
    forall i :: 0 <= i < |s| ==> '0' <= s[i] <= '9'
  }

  function ValueOf(s: string): nat
    requires AllDigits(s)
  {
    if s == "" then 0 else 10 * ValueOf(s[..|s| - 1]) + (s[|s| - 1] as int - '0' as int)
  }

  /** Go's `%d` of a non-negative number. */
  function Digits(n: nat): (s: string)
    ensures IsNumeral(s)
  {
    if n < 10 then [Digit(n)] else Digits(n / 10) + [Digit(n % 10)]
  }

  function Digit(d: nat): (c: char)
    requires d < 10
    ensures '0' <= c <= '9' && c as int - '0' as int == d
  {
    '0' + d as char
  }

  /** Go's `%d`. */
  function Decimal(n: int): string {
    if n < 0 then "-" + Digits(-n) else Digits(n)
  }

  /** Go's `strings.Split` at a separator of one character. */
  function Split(s: string, sep: char): (parts: seq<string>)
    ensures |parts| > 0
  {
    if s == "" then [""]
    else
      var rest := Split(s[1..], sep);
      if s[0] == sep then [""] + rest
      else [[s[0]] + rest[0]] + rest[1..]
  }

  function Join(parts: seq<string>, sep: char): string
    requires |parts| > 0
  {
    if |parts| == 1 then parts[0] else parts[0] + [sep] + Join(parts[1..], sep)
  }

  /** Splitting loses nothing, and no part holds a separator. */
  lemma {:induction false} SplitJoins(s: string, sep: char)
    ensures Join(Split(s, sep), sep) == s
    ensures forall i :: 0 <= i < |Split(s, sep)| ==> sep !in Split(s, sep)[i]
  {
    if s != "" {
      SplitJoins(s[1..], sep);
      var rest := Split(s[1..], sep);
      if s[0] == sep {
        assert ([""] + rest)[1..] == rest;
      } else {
        assert ([[s[0]] + rest[0]] + rest[1..])[1..] == rest[1..];
      }
      assert s == [s[0]] + s[1..];
    }
  }

  /** A word in front becomes, or joins, the first part. */
  lemma {:induction false} SplitWord(w: string, t: string, sep: char)
    requires sep !in w
    ensures Split(w + t, sep) == [w + Split(t, sep)[0]] + Split(t, sep)[1..]
  {
    if w == "" {
      assert w + t == t;
      assert w + Split(t, sep)[0] == Split(t, sep)[0];
    } else {
      assert (w + t)[1..] == w[1..] + t && (w + t)[0] == w[0];
      SplitWord(w[1..], t, sep);
      assert [w[0]] + (w[1..] + Split(t, sep)[0]) == w + Split(t, sep)[0];
    }
  }

  /** The last `n` elements, or all when there are fewer. */
  function LastN<T>(s: seq<T>, n: nat): (r: seq<T>)
    ensures |r| <= n && |r| <= |s|
  {
    if |s| <= n then s else s[|s| - n..]
  }

  lemma LastNIsSuffix<T>(front: seq<T>, back: seq<T>, n: nat)
    ensures |back| == n || (front == [] && |back| <= n) ==> LastN(front + back, n) == back
  {
    assert [] + back == back;
    assert (front + back)[|front|..] == back;
  }

  lemma LastNConcat<T>(a: seq<T>, b: seq<T>, n: nat)
    ensures LastN(LastN(a, n) + b, n) == LastN(a + b, n)
  {
  }

  /** The remainder of a division, by repeated subtraction. */
  function Mod(p: nat, n: nat): (r: nat)
    requires n > 0
    ensures r < n
    ensures p < n ==> r == p
    ensures n <= p < 2 * n ==> r == p - n
  {
    if p < n then p else Mod(p - n, n)
  }

  lemma {:induction false} ModIsRemainder(p: nat, n: nat)
    requires n > 0
    ensures Mod(p, n) == p % n
  {
    if p >= n {
      ModIsRemainder(p - n, n);
      assert p == (p - n) / n * n + (p - n) % n + n;
      RemainderUnique(p, n, (p - n) / n + 1, (p - n) % n);
    }
  }

  lemma ScaledBound(d: int, n: int)
    requires n >= 0
    ensures d >= 1 ==> d * n >= n
    ensures d <= -1 ==> d * n <= -n
  {
  }

  lemma RemainderUnique(p: nat, n: nat, q: nat, r: nat)
    requires r < n && p == q * n + r
    ensures p % n == r
  {
    var d := q - p / n;
    assert d * n == p % n - r;
    ScaledBound(d, n);
  }
}
