/** The sortable text key of a SQL Server version. */
module VersionKey {
  import opened Common

  const LIMIT: nat := 100_000_000
  const MAX_INT64: int := 0x7fff_ffff_ffff_ffff

  /** Go's `strconv.Atoi` with 64-bit integers: an optional sign and a numeral. */
  function Atoi(s: string): Option<int> {
    var unsigned := if s != "" && (s[0] == '-' || s[0] == '+') then s[1..] else s;
    if !IsNumeral(unsigned) then None
    else
      var v := if s[0] == '-' then 0 - ValueOf(unsigned) else ValueOf(unsigned);
      if -MAX_INT64 - 1 <= v <= MAX_INT64 then Some(v) else None
  }

  function Zeros(n: nat): (z: string)
    ensures |z| == n && forall i :: 0 <= i < n ==> z[i] == '0'
  {
    seq(n, _ => '0')
  }

  function LeftPad(s: string, width: nat): string {
    if |s| < width then Zeros(width - |s|) + s else s
  }

  /** Go's `%08d`: a sign counts toward the width and precedes the zeros. */
  function Pad8(v: int): string {
    if v < 0 then "-" + LeftPad(Digits(-v), 7) else LeftPad(Digits(v), 8)
  }

  function Chunk(s: string): string {
    var v := Atoi(s);
    if v.Some? then Pad8(v.value) else "00000000"
  }

  /** The components, extended with four zeroes. */
  function Components(version: string): (c: seq<string>)
    ensures |c| >= 4
  {
    Split(version, '.') + ["0", "0", "0", "0"]
  }

  function Chunks(c: seq<string>): string {
    if c == [] then "" else Chunks(c[..|c| - 1]) + Chunk(c[|c| - 1])
  }

  /** The components that count. */
  function First4(version: string): (c: seq<string>)
    ensures |c| == 4
  {
    Components(version)[..4]
  }

  function Key(version: string): string {
    Chunks(First4(version))
  }

  /** Builds the key of a version, one component after the other. */
  method VersionToString(version: string) returns (key: string)
    ensures key == Key(version)
  {
    var raw := Split(version, '.');
    for i := 0 to 4
      invariant |raw| == |Split(version, '.')| + i && raw == Components(version)[..|raw|]
    {
      assert Components(version)[..|raw| + 1] == Components(version)[..|raw|] + ["0"];
      raw := raw + ["0"];
    }
    assert raw == Components(version);
    var first4 := raw[..4];
    key := "";
    for i := 0 to |first4|
      invariant key == Chunks(first4[..i])
    {
      assert first4[..i + 1][..i] == first4[..i];
      var v := Atoi(first4[i]);
      if v.Some? {
        key := key + Pad8(v.value);
      } else {
        key := key + "00000000";
      }
    }
    assert first4[..|first4|] == first4;
  }

  /** The components that count are the first four parts of the version; a missing
      one is zero. */
  lemma First4IsParts(version: string, i: nat)
    requires i < 4
    ensures First4(version)[i] == if i < |Split(version, '.')| then Split(version, '.')[i] else "0"
  {
  }

  /** What counts as a number: a numeral, with or without one sign, that fits into
      64 bits. */
  lemma AtoiExact(s: string, v: int)
    ensures Atoi(s) == Some(v) <==>
              && -0x8000_0000_0000_0000 <= v <= 0x7fff_ffff_ffff_ffff
              && (|| (IsNumeral(s) && v == ValueOf(s))
                  || (s != "" && s[0] == '+' && IsNumeral(s[1..]) && v == ValueOf(s[1..]))
                  || (s != "" && s[0] == '-' && IsNumeral(s[1..]) && v == 0 - ValueOf(s[1..])))
  {
  }

  lemma {:induction false} ZerosRead(k: nat, s: string)
    requires AllDigits(s)
    ensures AllDigits(Zeros(k) + s) && ValueOf(Zeros(k) + s) == ValueOf(s)
    decreases |s|, k
  {
    var t := Zeros(k) + s;
    if s != "" {
      assert t[..|t| - 1] == Zeros(k) + s[..|s| - 1];
      ZerosRead(k, s[..|s| - 1]);
    } else if k > 0 {
      assert t[..|t| - 1] == Zeros(k - 1) + s;
      ZerosRead(k - 1, s);
    }
  }

  lemma LeftPadReads(n: nat, width: nat)
    ensures var t := LeftPad(Digits(n), width);
            IsNumeral(t) && ValueOf(t) == n && |t| == if |Digits(n)| < width then width else |Digits(n)|
  {
    DigitsRead(n);
    if |Digits(n)| < width {
      ZerosRead(width - |Digits(n)|, Digits(n));
    }
  }

  /** A padded number reads back as itself. */
  lemma PadReadsBack(v: int)
    requires -MAX_INT64 - 1 <= v <= MAX_INT64
    ensures Atoi(Pad8(v)) == Some(v)
  {
    if v < 0 {
      NegativePadReads(-v);
    } else {
      LeftPadReads(v, 8);
      NumeralReads(LeftPad(Digits(v), 8));
    }
  }

  lemma NegativePadReads(n: nat)
    requires 0 < n <= MAX_INT64 + 1
    ensures Atoi(Pad8(0 - n)) == Some(0 - n)
  {
    LeftPadReads(n, 7);
    PadIsSigned(n);
    SignReads(LeftPad(Digits(n), 7), Pad8(0 - n));
  }

  lemma PadIsSigned(n: nat)
    requires n > 0
    ensures Pad8(0 - n) == "-" + LeftPad(Digits(n), 7)
  {
  }

  /** It has eight characters, or as many as the number needs. */
  lemma PadLength(v: int)
    ensures |Pad8(v)| == if |Decimal(v)| < 8 then 8 else |Decimal(v)|
  {
  }

  lemma NumeralReads(t: string)
    requires IsNumeral(t) && ValueOf(t) <= MAX_INT64
    ensures Atoi(t) == Some(ValueOf(t))
  {
  }

  lemma SignReads(t: string, signed: string)
    requires IsNumeral(t) && ValueOf(t) <= MAX_INT64 + 1 && signed == "-" + t
    ensures Atoi(signed) == Some(0 - ValueOf(t))
  {
    assert signed[1..] == t;
  }

  /** A part of a key reads back as the number of its component, however large. */
  lemma ChunkReads(s: string)
    ensures Atoi(Chunk(s)) == Some(NumberOf(s)) && |Chunk(s)| >= 8
  {
    if Atoi(s).Some? {
      PadReadsBack(Atoi(s).value);
      PadLength(Atoi(s).value);
    } else {
      ZerosRead(8, "");
      assert Zeros(8) + "" == "00000000";
      NumeralReads("00000000");
    }
  }

  lemma ChunksPush(c: seq<string>, s: string)
    ensures Chunks(c + [s]) == Chunks(c) + Chunk(s)
  {
    assert (c + [s])[..|c|] == c;
  }

  lemma ChunksOfFour(a: string, b: string, c: string, d: string)
    ensures Chunks([a, b, c, d]) == Chunk(a) + Chunk(b) + Chunk(c) + Chunk(d)
  {
    calc {
      Chunks([a, b, c, d]);
      { assert [a, b, c] + [d] == [a, b, c, d]; ChunksPush([a, b, c], d); }
      Chunks([a, b, c]) + Chunk(d);
      { assert [a, b] + [c] == [a, b, c]; ChunksPush([a, b], c); }
      Chunks([a, b]) + Chunk(c) + Chunk(d);
      { assert [a] + [b] == [a, b]; ChunksPush([a], b); }
      Chunks([a]) + Chunk(b) + Chunk(c) + Chunk(d);
      { assert [] + [a] == [a]; ChunksPush([], a); }
      "" + Chunk(a) + Chunk(b) + Chunk(c) + Chunk(d);
      { assert "" + Chunk(a) == Chunk(a); }
      Chunk(a) + Chunk(b) + Chunk(c) + Chunk(d);
    }
  }

  /** The key is the parts of the four components, in order. */
  lemma KeyInFull(version: string)
    ensures var c := First4(version); Key(version) == Chunk(c[0]) + Chunk(c[1]) + Chunk(c[2]) + Chunk(c[3])
  {
    var c := First4(version);
    assert c == [c[0], c[1], c[2], c[3]];
    ChunksOfFour(c[0], c[1], c[2], c[3]);
  }

  /** `%d` reads back as the number. */
  lemma DecimalReadsBack(n: int)
    requires -MAX_INT64 - 1 <= n <= MAX_INT64
    ensures Atoi(Decimal(n)) == Some(n)
  {
    if n < 0 {
      NegativeDecimalReads(-n);
    } else {
      DigitsRead(n);
      NumeralReads(Digits(n));
    }
  }

  lemma NegativeDecimalReads(n: nat)
    requires 0 < n <= MAX_INT64 + 1
    ensures Atoi(Decimal(0 - n)) == Some(0 - n)
  {
    DigitsRead(n);
    DecimalIsSigned(n);
    SignReads(Digits(n), Decimal(0 - n));
  }

  lemma DecimalIsSigned(n: nat)
    requires n > 0
    ensures Decimal(0 - n) == "-" + Digits(n)
  {
  }

  lemma {:induction false} NoLeadingZero(n: nat)
    ensures n > 0 ==> Digits(n)[0] != '0'
  {
    if n >= 10 {
      NoLeadingZero(n / 10);
    }
  }

  // ----- the order of keys -----

  /** What a component counts as: its value, or zero when it is not a number. */
  function NumberOf(s: string): int {
    var v := Atoi(s);
    if v.Some? then v.value else 0
  }

  /** All components count as numbers from zero up to a bound. */
  predicate Within(components: seq<string>, bound: int) {
    forall i :: 0 <= i < |components| ==> 0 <= NumberOf(components[i]) < bound
  }

  /** Compares components as numbers; a component counts only when all before it agree. */
  function CompareComponents(a: seq<string>, b: seq<string>): int
    requires |a| == |b|
  {
    if a == [] then 0
    else
      var k := |a| - 1;
      var before := CompareComponents(a[..k], b[..k]);
      if before != 0 then before else Sign(NumberOf(a[k]), NumberOf(b[k]))
  }

  function Pow10(w: nat): nat {
    if w == 0 then 1 else 10 * Pow10(w - 1)
  }

  /** The last `w` decimal digits of `n`. */
  function Fixed(n: nat, w: nat): (s: string)
    ensures |s| == w
  {
    if w == 0 then "" else Fixed(n / 10, w - 1) + [Digit(n % 10)]
  }

  lemma {:induction false} FixedZero(w: nat)
    ensures Fixed(0, w) == Zeros(w)
  {
    if w > 0 {
      FixedZero(w - 1);
    }
  }

  lemma {:induction false} PaddedIsFixed(n: nat, w: nat)
    requires 0 < w && n < Pow10(w)
    ensures |Digits(n)| <= w && LeftPad(Digits(n), w) == Fixed(n, w)
  {
    if n < 10 {
      FixedZero(w - 1);
    } else {
      assert Pow10(1) == 10;
      PaddedIsFixed(n / 10, w - 1);
    }
  }

  lemma {:induction false} CompareConcat(p: string, q: string, s: string, t: string)
    requires |p| == |q|
    ensures CompareStrings(p + s, q + t) ==
            if CompareStrings(p, q) != 0 then CompareStrings(p, q) else CompareStrings(s, t)
  {
    if p == [] {
      assert p + s == s && q + t == t;
    } else {
      assert (p + s)[1..] == p[1..] + s && (q + t)[1..] == q[1..] + t;
      CompareConcat(p[1..], q[1..], s, t);
    }
  }

  lemma CompareDigit(a: nat, b: nat)
    requires a < 10 && b < 10
    ensures CompareStrings([Digit(a)], [Digit(b)]) == Sign(a, b)
  {
    assert [Digit(a)][1..] == [] && [Digit(b)][1..] == [];
  }

  lemma {:induction false} CompareFixed(a: nat, b: nat, w: nat)
    requires a < Pow10(w) && b < Pow10(w)
    ensures CompareStrings(Fixed(a, w), Fixed(b, w)) == Sign(a, b)
  {
    if w > 0 {
      CompareFixed(a / 10, b / 10, w - 1);
      CompareConcat(Fixed(a / 10, w - 1), Fixed(b / 10, w - 1), [Digit(a % 10)], [Digit(b % 10)]);
      CompareDigit(a % 10, b % 10);
    }
  }

  lemma EightDigits()
    ensures Pow10(8) == LIMIT
  {
    assert Pow10(2) == 100 && Pow10(4) == 10_000 && Pow10(6) == 1_000_000;
  }

  lemma ChunkIsFixed(s: string)
    requires 0 <= NumberOf(s) < LIMIT
    ensures Chunk(s) == Fixed(NumberOf(s), 8)
  {
    EightDigits();
    if Atoi(s).Some? {
      PaddedIsFixed(NumberOf(s), 8);
    } else {
      FixedZero(8);
    }
  }

  lemma {:induction false} CompareChunks(a: seq<string>, b: seq<string>)
    requires |a| == |b| && Within(a, LIMIT) && Within(b, LIMIT)
    ensures |Chunks(a)| == |Chunks(b)| == 8 * |a|
    ensures CompareStrings(Chunks(a), Chunks(b)) == CompareComponents(a, b)
  {
    if a != [] {
      var k := |a| - 1;
      CompareChunks(a[..k], b[..k]);
      EightDigits();
      ChunkIsFixed(a[k]);
      ChunkIsFixed(b[k]);
      CompareFixed(NumberOf(a[k]), NumberOf(b[k]), 8);
      CompareConcat(Chunks(a[..k]), Chunks(b[..k]), Chunk(a[k]), Chunk(b[k]));
    }
  }

  lemma {:induction false} CompareComponentsZero(a: seq<string>, b: seq<string>)
    requires |a| == |b|
    ensures CompareComponents(a, b) == 0 <==> forall i :: 0 <= i < |a| ==> NumberOf(a[i]) == NumberOf(b[i])
  {
    if a != [] {
      var k := |a| - 1;
      CompareComponentsZero(a[..k], b[..k]);
      assert forall i :: 0 <= i < k ==> a[..k][i] == a[i] && b[..k][i] == b[i];
    }
  }

  /** Keys sort as the versions do, by their first four components as numbers. */
  lemma KeyIsOrderEmbedding(a: string, b: string)
    requires Within(First4(a), LIMIT) && Within(First4(b), LIMIT)
    ensures |Key(a)| == |Key(b)| == 32
    ensures CompareStrings(Key(a), Key(b)) == CompareComponents(First4(a), First4(b))
    ensures Key(a) == Key(b) <==> forall i :: 0 <= i < 4 ==> NumberOf(First4(a)[i]) == NumberOf(First4(b)[i])
  {
    CompareChunks(First4(a), First4(b));
    CompareStringsZero(Key(a), Key(b));
    CompareComponentsZero(First4(a), First4(b));
  }

  // ----- beyond eight digits -----

  /** The least number of `k + 1` digits that starts with `d`, or with `d - 9` ten times over. */
  function Scaled(d: nat, k: nat): nat {
    if k == 0 then d else 10 * Scaled(d, k - 1)
  }

  lemma {:induction false} LeadingDigit(n: nat, d: nat, k: nat)
    requires 1 <= d < 10 && Scaled(d, k) <= n < Scaled(d + 1, k)
    ensures Digits(n)[0] == Digit(d)
  {
    if k > 0 {
      ScaledIsPositive(d, k - 1);
      LeadingDigit(n / 10, d, k - 1);
    }
  }

  lemma {:induction false} ScaledIsPositive(d: nat, k: nat)
    requires d > 0
    ensures Scaled(d, k) > 0
  {
    if k > 0 {
      ScaledIsPositive(d, k - 1);
    }
  }

  /** A numeral is a version of one component, and reads as its number. */
  lemma {:induction false} DigitsRead(n: nat)
    ensures IsNumeral(Digits(n)) && ValueOf(Digits(n)) == n && Split(Digits(n), '.') == [Digits(n)]
  {
    if n >= 10 {
      DigitsRead(n / 10);
      assert Digits(n)[..|Digits(n)| - 1] == Digits(n / 10);
    }
    SplitWord(Digits(n), "", '.');
    assert Digits(n) + "" == Digits(n);
  }

  lemma NumberVersion(n: nat)
    requires n <= MAX_INT64
    ensures First4(Digits(n)) == [Digits(n), "0", "0", "0"]
    ensures NumberOf(Digits(n)) == n
  {
    DigitsRead(n);
  }

  lemma ZeroReads()
    ensures NumberOf("0") == 0
  {
    assert "0"[..0] == "" && ValueOf("0"[..0]) == 0;
  }

  lemma {:induction false} ChunksStart(c: seq<string>)
    requires c != [] && Chunk(c[0]) != ""
    ensures Chunks(c) != "" && Chunks(c)[0] == Chunk(c[0])[0]
  {
    if |c| > 1 {
      ChunksStart(c[..|c| - 1]);
    } else {
      assert Chunks(c[..0]) == "";
    }
  }

  /** The key of a number of at least eight digits starts with its leading digit. */
  lemma KeyStart(n: nat, d: nat, k: nat)
    requires n <= MAX_INT64 && k >= 7 && 1 <= d < 9 && Scaled(d, k) <= n < Scaled(d + 1, k)
    ensures Key(Digits(n)) != "" && Key(Digits(n))[0] == Digit(d)
  {
    NumberVersion(n);
    LeadingDigit(n, d, k);
    ManyDigits(n, d, k);
    assert Chunk(Digits(n)) == Pad8(n) == Digits(n);
    ChunksStart(First4(Digits(n)));
  }

  lemma {:induction false} ManyDigits(n: nat, d: nat, k: nat)
    requires d > 0 && Scaled(d, k) <= n
    ensures |Digits(n)| > k
  {
    if k > 0 {
      ScaledIsPositive(d, k - 1);
      ManyDigits(n / 10, d, k - 1);
    }
  }

  lemma Powers()
    ensures Scaled(1, 8) == LIMIT && Scaled(2, 8) == 2 * LIMIT
    ensures Scaled(2, 7) == 20_000_000 && Scaled(3, 7) == 30_000_000
  {
    assert Scaled(1, 4) == 10_000 && Scaled(2, 4) == 20_000 && Scaled(2, 3) == 2_000 && Scaled(3, 3) == 3_000;
  }

  /** The key of version "100000000", and of any other number from there up to
      199999999, sorts below that of every version from "20000000" to "29999999". */
  lemma NineDigitsSortWrong(a: nat, b: nat)
    requires LIMIT <= a < 2 * LIMIT && 20_000_000 <= b < 30_000_000
    ensures CompareComponents(First4(Digits(a)), First4(Digits(b))) > 0
    ensures CompareStrings(Key(Digits(a)), Key(Digits(b))) < 0
    ensures Within(First4(Digits(a)), a + 1) && Within(First4(Digits(b)), LIMIT)
  {
    NumbersDecide(a, b);
    WithinNumber(a, a + 1);
    WithinNumber(b, LIMIT);
    assert Key(Digits(a)) != "" && Key(Digits(a))[0] == Digit(1) by {
      Powers();
      KeyStart(a, 1, 8);
    }
    assert Key(Digits(b)) != "" && Key(Digits(b))[0] == Digit(2) by {
      Powers();
      KeyStart(b, 2, 7);
    }
    FirstCharDecides(Key(Digits(a)), Key(Digits(b)));
  }

  lemma FirstCharDecides(p: string, q: string)
    requires p != "" && q != "" && p[0] < q[0]
    ensures CompareStrings(p, q) < 0
  {
  }

  lemma WithinNumber(n: nat, bound: int)
    requires n <= MAX_INT64 && n < bound
    ensures Within(First4(Digits(n)), bound)
  {
    NumberVersion(n);
    ZeroReads();
  }

  lemma NumbersDecide(a: nat, b: nat)
    requires b < a <= MAX_INT64
    ensures CompareComponents(First4(Digits(a)), First4(Digits(b))) > 0
  {
    NumberVersion(a);
    NumberVersion(b);
    FirstDecides(First4(Digits(a)), First4(Digits(b)));
  }

  lemma {:induction false} FirstDecides(a: seq<string>, b: seq<string>)
    requires |a| == |b| > 0 && NumberOf(a[0]) > NumberOf(b[0])
    ensures CompareComponents(a, b) > 0
  {
    if |a| > 1 {
      FirstDecides(a[..|a| - 1], b[..|b| - 1]);
    }
  }

  /** Keys sort right for all versions of some range of numbers exactly when the
      numbers stay below 100000000. */
  lemma LimitIsExact(bound: int)
    ensures (forall a, b :: Within(First4(a), bound) && Within(First4(b), bound) ==>
               CompareStrings(Key(a), Key(b)) == CompareComponents(First4(a), First4(b)))
            <==> bound <= LIMIT
  {
    if bound <= LIMIT {
      forall a, b | Within(First4(a), bound) && Within(First4(b), bound)
        ensures CompareStrings(Key(a), Key(b)) == CompareComponents(First4(a), First4(b))
      {
        KeyIsOrderEmbedding(a, b);
      }
    } else {
      var a, b :| a == LIMIT && b == 20_000_000;
      NineDigitsSortWrong(a, b);
      assert Within(First4(Digits(a)), bound) && Within(First4(Digits(b)), bound);
    }
  }
}
