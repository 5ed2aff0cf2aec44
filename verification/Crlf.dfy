/** Resumable line-ending converters: any line ending to LF, and LF to CRLF. */
module Crlf {

  import opened Common

  const LF: Byte := 10
  const CR: Byte := 13

  // ----- whole-text meaning -----

  /** What one byte becomes after `prev`: a LF that completes a CRLF adds nothing. */
  function Emit(prev: Byte, c: Byte): seq<Byte> {
    if c == CR then [LF]
    else if c == LF && prev == CR then []
    else [c]
  }

  function LastOf(prev: Byte, s: seq<Byte>): Byte {
    if s == [] then prev else s[|s| - 1]
  }

  /** The output for `s` of a normalizer whose previous byte is `prev`. */
  function Normalized(prev: Byte, s: seq<Byte>): seq<Byte> {
    if s == [] then []
    else
      var n := |s| - 1;
      Normalized(prev, s[..n]) + Emit(LastOf(prev, s[..n]), s[n])
  }

  /** The output of the CRLF converter. */
  function WithCrlf(s: seq<Byte>): seq<Byte> {
    if s == [] then []
    else
      var n := |s| - 1;
      WithCrlf(s[..n]) + if s[n] == LF then [CR, LF] else [s[n]]
  }

  /** Line endings read with one byte of lookahead: CRLF, CR or LF, each once. */
  function UnixLines(s: seq<Byte>): seq<Byte> {
    if s == [] then []
    else if s[0] == CR then
      [LF] + UnixLines(if |s| > 1 && s[1] == LF then s[2..] else s[1..])
    else
      [s[0]] + UnixLines(s[1..])
  }

  // ----- the converters -----

  class Normalize {
    var prev: Byte

    constructor ()
      ensures prev == 0
    {
      prev := 0;
    }

    method Reset()
      modifies this
      ensures prev == 0
    {
      prev := 0;
    }

    /** Converts as much of `src` as fits into `dst`. It stops only at the end of
        the source or of the destination, and resumes where it stopped. */
    method Transform(dst: array<Byte>, src: seq<Byte>, atEOF: bool) returns (nDst: nat, nSrc: nat, shortDst: bool)
      modifies this, dst
      ensures nDst <= dst.Length && nSrc <= |src|
      ensures dst[..nDst] == Normalized(old(prev), src[..nSrc])
      ensures dst[nDst..] == old(dst[nDst..])
      ensures prev == LastOf(old(prev), src[..nSrc])
      ensures shortDst <==> nSrc < |src|
      ensures nSrc == |src| || nDst == dst.Length
      ensures nDst <= nSrc
    {
      nDst, nSrc := 0, 0;
      while nDst < dst.Length && nSrc < |src|
        invariant nDst <= dst.Length && nSrc <= |src| && nDst <= nSrc
        invariant dst[..nDst] == Normalized(old(prev), src[..nSrc])
        invariant forall k :: nDst <= k < dst.Length ==> dst[k] == old(dst[k])
        invariant prev == LastOf(old(prev), src[..nSrc])
        decreases |src| - nSrc
      {
        var c := src[nSrc];
        assert src[..nSrc + 1][..nSrc] == src[..nSrc];
        if c == LF && prev == CR {
          nSrc := nSrc + 1;
          prev := c;
        } else {
          dst[nDst] := if c == CR then LF else c;
          prev := c;
          nDst := nDst + 1;
          nSrc := nSrc + 1;
        }
      }
      shortDst := nSrc < |src|;
    }
  }

  class ToCrlf {
    constructor () {
    }

    /** Converts as much of `src` as fits into `dst`; a LF needs room for two bytes. */
    method Transform(dst: array<Byte>, src: seq<Byte>, atEOF: bool) returns (nDst: nat, nSrc: nat, shortDst: bool)
      modifies dst
      ensures nDst <= dst.Length && nSrc <= |src|
      ensures dst[..nDst] == WithCrlf(src[..nSrc])
      ensures dst[nDst..] == old(dst[nDst..])
      ensures shortDst <==> nSrc < |src|
      ensures nSrc == |src| || nDst == dst.Length || (nDst + 1 == dst.Length && src[nSrc] == LF)
    {
      nDst, nSrc := 0, 0;
      while nDst < dst.Length && nSrc < |src|
        invariant nDst <= dst.Length && nSrc <= |src|
        invariant dst[..nDst] == WithCrlf(src[..nSrc])
        invariant forall k :: nDst <= k < dst.Length ==> dst[k] == old(dst[k])
        decreases |src| - nSrc
      {
        var c := src[nSrc];
        assert src[..nSrc + 1][..nSrc] == src[..nSrc];
        if c == LF {
          if nDst + 1 == dst.Length {
            break;
          }
          dst[nDst] := CR;
          dst[nDst + 1] := LF;
          nSrc := nSrc + 1;
          nDst := nDst + 2;
        } else {
          dst[nDst] := c;
          nSrc := nSrc + 1;
          nDst := nDst + 1;
        }
      }
      shortDst := nSrc < |src|;
    }
  }

  // ----- streaming -----

  lemma {:induction false} NormalizedConcat(prev: Byte, a: seq<Byte>, b: seq<Byte>)
    ensures Normalized(prev, a + b) == Normalized(prev, a) + Normalized(LastOf(prev, a), b)
  {
    if b == [] {
      assert a + b == a;
    } else {
      var n := |b| - 1;
      assert (a + b)[..|a + b| - 1] == a + b[..n];
      NormalizedConcat(prev, a, b[..n]);
      assert LastOf(prev, a + b[..n]) == LastOf(LastOf(prev, a), b[..n]);
    }
  }

  lemma {:induction false} WithCrlfConcat(a: seq<Byte>, b: seq<Byte>)
    ensures WithCrlf(a + b) == WithCrlf(a) + WithCrlf(b)
  {
    if b == [] {
      assert a + b == a;
    } else {
      assert (a + b)[..|a + b| - 1] == a + b[..|b| - 1];
      WithCrlfConcat(a, b[..|b| - 1]);
    }
  }

  /** What a call that consumed `k` bytes of `src` adds to the stream. */
  lemma NormalizedResumes(input: seq<Byte>, pos: nat, src: seq<Byte>, k: nat)
    requires pos + |src| <= |input| && src == input[pos..pos + |src|] && k <= |src|
    ensures Normalized(0, input[..pos + k]) ==
            Normalized(0, input[..pos]) + Normalized(LastOf(0, input[..pos]), src[..k])
    ensures LastOf(0, input[..pos + k]) == LastOf(LastOf(0, input[..pos]), src[..k])
  {
    assert input[..pos + k] == input[..pos] + src[..k];
    NormalizedConcat(0, input[..pos], src[..k]);
  }

  lemma WithCrlfResumes(input: seq<Byte>, pos: nat, src: seq<Byte>, k: nat)
    requires pos + |src| <= |input| && src == input[pos..pos + |src|] && k <= |src|
    ensures WithCrlf(input[..pos + k]) == WithCrlf(input[..pos]) + WithCrlf(src[..k])
    ensures k == 0 ==> |WithCrlf(src[..k])| == 0
  {
    assert input[..pos + k] == input[..pos] + src[..k];
    WithCrlfConcat(input[..pos], src[..k]);
  }

  function Window(size: nat, rest: nat): nat {
    if size < rest then size else rest
  }

  /** Streams a text through one normalizer. Call number `k` sees at most `window(k)`
      bytes of the remaining source and writes at most `room(k)` bytes. Whatever the
      sizes, the stream ends and the output is that of one pass. */
  method NormalizeStream(input: seq<Byte>, window: nat -> nat, room: nat -> nat) returns (output: seq<Byte>)
    requires forall k: nat :: window(k) > 0 && room(k) > 0
    ensures output == Normalized(0, input)
  {
    var n := new Normalize();
    var pos, k := 0, 0;
    output := [];
    while pos < |input|
      invariant 0 <= pos <= |input|
      invariant output == Normalized(0, input[..pos])
      invariant n.prev == LastOf(0, input[..pos])
    {
      var src := input[pos..pos + Window(window(k), |input| - pos)];
      var dst := new Byte[room(k)];
      var nDst, nSrc, _ := n.Transform(dst, src, pos + |src| == |input|);
      NormalizedResumes(input, pos, src, nSrc);
      output := output + dst[..nDst];
      pos := pos + nSrc;
      k := k + 1;
    }
    assert input[..pos] == input;
  }

  /** The same for the CRLF converter, which needs room for two bytes. */
  method ToCrlfStream(input: seq<Byte>, window: nat -> nat, room: nat -> nat) returns (output: seq<Byte>)
    requires forall k: nat :: window(k) > 0 && room(k) > 1
    ensures output == WithCrlf(input)
  {
    var t := new ToCrlf();
    var pos, k := 0, 0;
    output := [];
    while pos < |input|
      invariant 0 <= pos <= |input|
      invariant output == WithCrlf(input[..pos])
    {
      var src := input[pos..pos + Window(window(k), |input| - pos)];
      var dst := new Byte[room(k)];
      var nDst, nSrc, _ := t.Transform(dst, src, pos + |src| == |input|);
      WithCrlfResumes(input, pos, src, nSrc);
      output := output + dst[..nDst];
      pos := pos + nSrc;
      k := k + 1;
    }
    assert input[..pos] == input;
  }

  // ----- laws -----

  lemma NormalizedFirst(prev: Byte, s: seq<Byte>)
    requires s != []
    ensures Normalized(prev, s) == Emit(prev, s[0]) + Normalized(s[0], s[1..])
  {
    var first := [s[0]];
    assert first[..0] == [] && Normalized(prev, first) == Emit(prev, s[0]);
    NormalizedConcat(prev, first, s[1..]);
    assert s == first + s[1..];
  }

  /** The normalizer, which only remembers one byte, reads lines as the definition
      with lookahead does. */
  lemma {:induction false} NormalizedIsUnixLines(prev: Byte, s: seq<Byte>)
    ensures Normalized(prev, s) == UnixLines(if prev == CR && s != [] && s[0] == LF then s[1..] else s)
    decreases |s|
  {
    if s != [] {
      NormalizedFirst(prev, s);
      NormalizedIsUnixLines(s[0], s[1..]);
      if s[0] == CR && |s| > 1 && s[1] == LF {
        assert s[1..][1..] == s[2..];
      }
    }
  }

  lemma {:induction false} NormalizedHasNoCr(prev: Byte, s: seq<Byte>)
    ensures CR !in Normalized(prev, s)
  {
    if s != [] {
      NormalizedHasNoCr(prev, s[..|s| - 1]);
    }
  }

  lemma WithCrlfFirst(s: seq<Byte>)
    requires s != []
    ensures WithCrlf(s) == (if s[0] == LF then [CR, LF] else [s[0]]) + WithCrlf(s[1..])
  {
    WithCrlfConcat([s[0]], s[1..]);
    assert s == [s[0]] + s[1..];
    assert [s[0]][..0] == [];
  }

  /** How many line feeds there are up to and including position `i`. */
  function LinesTo(s: seq<Byte>, i: nat): nat
    requires i < |s|
  {
    multiset(s[..i + 1])[LF]
  }

  /** Where every byte goes: it moves on by one place for each line feed up to it,
      and a line feed has a CR put before it. Nothing else is written. */
  lemma {:induction false} WithCrlfPlaces(s: seq<Byte>)
    ensures |WithCrlf(s)| == |s| + multiset(s)[LF]
    ensures forall i :: 0 <= i < |s| ==> PlacedAt(s, WithCrlf(s), i)
  {
    if s != [] {
      var n := |s| - 1;
      WithCrlfPlaces(s[..n]);
      assert s == s[..n] + [s[n]];
      assert s[..n + 1] == s;
      forall i | 0 <= i < n
        ensures PlacedAt(s, WithCrlf(s), i)
      {
        assert PlacedAt(s[..n], WithCrlf(s[..n]), i);
        assert s[..n][..i + 1] == s[..i + 1];
      }
    }
  }

  predicate PlacedAt(s: seq<Byte>, t: seq<Byte>, i: nat)
    requires i < |s|
  {
    var k := i + LinesTo(s, i);
    k < |t| && t[k] == s[i] && (s[i] == LF ==> t[k - 1] == CR)
  }

  lemma {:induction false} UnixLinesUndo(s: seq<Byte>)
    requires CR !in s
    ensures UnixLines(WithCrlf(s)) == s
  {
    if s != [] {
      UnixLinesUndo(s[1..]);
      WithCrlfFirst(s);
      var t := WithCrlf(s);
      if s[0] == LF {
        assert t[2..] == WithCrlf(s[1..]);
      } else {
        assert t[1..] == WithCrlf(s[1..]);
      }
    }
  }

  /** Normalizing undoes the CRLF converter exactly on the texts without CR. */
  lemma NormalizeUndoesToCrlf(s: seq<Byte>)
    ensures Normalized(0, WithCrlf(s)) == s <==> CR !in s
  {
    NormalizedIsUnixLines(0, WithCrlf(s));
    NormalizedHasNoCr(0, WithCrlf(s));
    if CR !in s {
      UnixLinesUndo(s);
    }
  }

  /** A text written with CRLF and read again is the text normalized once. */
  lemma NormalizeAbsorbsRoundTrip(s: seq<Byte>)
    ensures Normalized(0, WithCrlf(Normalized(0, s))) == Normalized(0, s)
    ensures Normalized(0, Normalized(0, s)) == Normalized(0, s)
  {
    NormalizedHasNoCr(0, s);
    NormalizeUndoesToCrlf(Normalized(0, s));
    NoCrIsNormal(0, Normalized(0, s));
  }

  lemma {:induction false} NoCrIsNormal(prev: Byte, s: seq<Byte>)
    requires CR !in s && prev != CR
    ensures Normalized(prev, s) == s
  {
    if s != [] {
      NoCrIsNormal(prev, s[..|s| - 1]);
      assert LastOf(prev, s[..|s| - 1]) != CR;
    }
  }
}
