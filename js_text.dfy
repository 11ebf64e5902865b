/**
 * The JavaScript string operations the update route relies on:
 * `String.prototype.trim`, `String.prototype.substring(start)` and
 * `String(n)` for an integer `n`.
 */
module JsText {

  /** ECMAScript WhiteSpace and LineTerminator code points, the set `trim` strips. */
  predicate IsWhitespace(c: char) {
    c == '\t' || c == '\n' || c == '\U{000B}' || c == '\U{000C}' || c == '\r' ||
    c == ' ' || c == '\U{00A0}' || c == '\U{1680}' ||
    ('\U{2000}' <= c <= '\U{200A}') ||
    c == '\U{2028}' || c == '\U{2029}' || c == '\U{202F}' || c == '\U{205F}' ||
    c == '\U{3000}' || c == '\U{FEFF}'
  }

  predicate AllWhitespace(s: string) {
    forall k :: 0 <= k < |s| ==> IsWhitespace(s[k])
  }

  /** The first position at or after `i` that is not whitespace (`|s|` if none): where `trimStart` begins. */
  function SkipLeading(s: string, i: nat): (j: nat)
    requires i <= |s|
    ensures i <= j <= |s|
    ensures j < |s| ==> !IsWhitespace(s[j])
    decreases |s| - i
  {
    if i < |s| && IsWhitespace(s[i]) then SkipLeading(s, i + 1) else i
  }

  /** The end of `s[lo..hi]` once its trailing whitespace is cut: where `trimEnd` stops. */
  function SkipTrailing(s: string, lo: nat, hi: nat): (j: nat)
    requires lo <= hi <= |s|
    ensures lo <= j <= hi
    ensures lo < j ==> !IsWhitespace(s[j - 1])
    decreases hi
  {
    if lo < hi && IsWhitespace(s[hi - 1]) then SkipTrailing(s, lo, hi - 1) else hi
  }

  /** Everything SkipLeading passes over is whitespace. */
  lemma {:induction false} SkipLeadingPassesWhitespace(s: string, i: nat)
    requires i <= |s|
    ensures forall k :: i <= k < SkipLeading(s, i) ==> IsWhitespace(s[k])
    decreases |s| - i
  {
    if i < |s| && IsWhitespace(s[i]) {
      SkipLeadingPassesWhitespace(s, i + 1);
    }
  }

  /** Everything SkipTrailing cuts is whitespace. */
  lemma {:induction false} SkipTrailingPassesWhitespace(s: string, lo: nat, hi: nat)
    requires lo <= hi <= |s|
    ensures forall k :: SkipTrailing(s, lo, hi) <= k < hi ==> IsWhitespace(s[k])
    decreases hi
  {
    if lo < hi && IsWhitespace(s[hi - 1]) {
      SkipTrailingPassesWhitespace(s, lo, hi - 1);
    }
  }

  /** Where the trimmed text starts in `s`: the length of its leading whitespace. */
  function TrimOffset(s: string): (i: nat)
    ensures i <= |s|
  {
    SkipLeading(s, 0)
  }

  /** `s.trim()`: whitespace cut from both ends. */
  function Trim(s: string): (r: string)
    ensures |r| <= |s|
    ensures r == [] || (!IsWhitespace(r[0]) && !IsWhitespace(r[|r| - 1]))
  {
    var i := TrimOffset(s);
    var j := SkipTrailing(s, i, |s|);
    assert j > i ==> s[i..j][0] == s[i] && s[i..j][j - i - 1] == s[j - 1];
    s[i..j]
  }

  /** What `trim` keeps is the slice of `s` at TrimOffset, and all it cuts is whitespace. */
  lemma TrimIsSlice(s: string)
    ensures var i, r := TrimOffset(s), Trim(s);
      i + |r| <= |s| && r == s[i..i + |r|] &&
      (forall k :: 0 <= k < i ==> IsWhitespace(s[k])) &&
      (forall k :: i + |r| <= k < |s| ==> IsWhitespace(s[k]))
  {
    SkipLeadingPassesWhitespace(s, 0);
    SkipTrailingPassesWhitespace(s, TrimOffset(s), |s|);
  }

  /** Trimming twice cuts nothing more. */
  lemma TrimIdempotent(s: string)
    ensures Trim(Trim(s)) == Trim(s)
  {
    var r := Trim(s);
    if r != [] {
      assert TrimOffset(r) == 0;
      assert SkipTrailing(r, 0, |r|) == |r|;
      assert r[0..|r|] == r;
    }
  }

  /** The trimmed text is empty exactly when the text is whitespace only. */
  lemma TrimEmptyIff(s: string)
    ensures Trim(s) == [] <==> AllWhitespace(s)
  {
    TrimIsSlice(s);
    if AllWhitespace(s) {
      assert TrimOffset(s) == |s|;
    }
  }

  /** `s.substring(start)`: a start past the end is clamped, leaving the empty string. */
  function Substring(s: string, start: nat): (r: string)
    ensures |r| == if start <= |s| then |s| - start else 0
    ensures s == s[..|s| - |r|] + r
  {
    if start <= |s| then s[start..] else []
  }

  function DigitChar(d: nat): (c: char)
    requires d < 10
  {
    "0123456789"[d]
  }

  function DigitValue(c: char): (d: nat)
    ensures d < 10
  {
    if '0' <= c <= '9' then c as int - '0' as int else 0
  }

  predicate IsDigit(c: char) {
    '0' <= c <= '9'
  }

  lemma DigitRoundTrip(d: nat)
    requires d < 10
    ensures IsDigit(DigitChar(d)) && DigitValue(DigitChar(d)) == d
  {
  }

  /** The decimal numeral of `n`: at least one digit, all digits, no leading zero. */
  function NatToString(n: nat): (r: string)
    ensures |r| >= 1
    ensures forall k :: 0 <= k < |r| ==> IsDigit(r[k])
    ensures r[0] == '0' ==> n == 0
    decreases n
  {
    DigitRoundTrip(n % 10);
    if n < 10 then [DigitChar(n)] else NatToString(n / 10) + [DigitChar(n % 10)]
  }

  /** `String(i)` for an integer `i`: a minus sign before the magnitude's numeral when negative. */
  function IntToString(i: int): (r: string)
    ensures |r| >= 1
    ensures r[0] == '-' <==> i < 0
  {
    if i < 0 then "-" + NatToString(-i) else NatToString(i)
  }

  /** Reads a decimal numeral; the inverse of NatToString. */
  function ParseNat(s: string): (n: nat)
    decreases |s|
  {
    if s == [] then 0 else ParseNat(s[..|s| - 1]) * 10 + DigitValue(s[|s| - 1])
  }

  /** Reads an optionally negative decimal numeral; the inverse of IntToString. */
  function ParseInt(s: string): (i: int) {
    if |s| > 0 && s[0] == '-' then -(ParseNat(s[1..]) as int) else ParseNat(s)
  }

  lemma {:induction false} NatToStringRoundTrip(n: nat)
    ensures ParseNat(NatToString(n)) == n
    decreases n
  {
    DigitRoundTrip(n % 10);
    if n < 10 {
      assert NatToString(n)[..0] == [];
    } else {
      var r := NatToString(n);
      assert r[..|r| - 1] == NatToString(n / 10);
      NatToStringRoundTrip(n / 10);
    }
  }

  /** A leading minus sign negates what follows it. */
  lemma ParseNegated(digits: string)
    ensures ParseInt("-" + digits) == -(ParseNat(digits) as int)
  {
    var r := "-" + digits;
    assert r[0] == '-';
    assert r[1..] == digits;
  }

  /** Without a leading minus sign the text is read as a natural number. */
  lemma ParseUnsigned(digits: string)
    requires digits != [] && digits[0] != '-'
    ensures ParseInt(digits) == ParseNat(digits)
  {
  }

  /** The numeral of `n` after a minus sign is read back as `-n`. */
  lemma NegatedRoundTrip(n: nat)
    ensures ParseInt("-" + NatToString(n)) == -(n as int)
  {
    NatToStringRoundTrip(n);
    ParseNegated(NatToString(n));
  }

  /** `String(i)` is read back as `i`, so distinct integers give distinct texts. */
  lemma IntToStringRoundTrip(i: int)
    ensures ParseInt(IntToString(i)) == i
  {
    if i < 0 {
      var n: nat := -i;
      assert IntToString(i) == "-" + NatToString(n);
      NegatedRoundTrip(n);
    } else {
      var digits := NatToString(i);
      assert IntToString(i) == digits;
      assert IsDigit(digits[0]);
      NatToStringRoundTrip(i);
      ParseUnsigned(digits);
    }
  }
}
