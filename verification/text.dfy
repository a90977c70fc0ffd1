/**
 String helpers with the semantics of the .NET calls the downloader makes:
 ordinal `String.Replace`, `Int32.ToString()` and the parsing inverse used to
 show that the decimal rendering loses nothing.
 */
module Text {
  import opened Results

  /** True when `s` begins with `p`. */
  predicate StartsWith(s: string, p: string) {
    |p| <= |s| && s[..|p|] == p
  }

  /** True when no character of `s` is `c`. */
  predicate Free(s: string, c: char) {
    forall k :: 0 <= k < |s| ==> s[k] != c
  }

  /**
   Replaces every occurrence of `pattern` by `replacement`, scanning left to
   right and never overlapping, as ordinal `String.Replace` does. The source
   only ever passes non-empty patterns (an empty one raises an exception).
   */
  function ReplaceAll(s: string, pattern: string, replacement: string): (r: string)
    requires |pattern| > 0
    ensures Free(s, pattern[0]) ==> r == s
    ensures |replacement| == |pattern| ==> |r| == |s|
    decreases |s|
  {
    if |s| == 0 then []
    else if StartsWith(s, pattern) then replacement + ReplaceAll(s[|pattern|..], pattern, replacement)
    else [s[0]] + ReplaceAll(s[1..], pattern, replacement)
  }

  /** Where no occurrence starts, the first character is copied unchanged. */
  lemma ReplaceAllSkip(s: string, pattern: string, replacement: string)
    requires |pattern| > 0 && |s| > 0 && !StartsWith(s, pattern)
    ensures ReplaceAll(s, pattern, replacement) == [s[0]] + ReplaceAll(s[1..], pattern, replacement)
  {
  }

  /** An occurrence at the front is replaced and the scan resumes after it. */
  lemma ReplaceAllHit(s: string, pattern: string, replacement: string)
    requires |pattern| > 0 && StartsWith(s, pattern)
    ensures ReplaceAll(s, pattern, replacement) == replacement + ReplaceAll(s[|pattern|..], pattern, replacement)
  {
  }

  /** A prefix that cannot start an occurrence is copied unchanged. */
  lemma {:induction false} ReplaceAllFreePrefix(t: string, rest: string, pattern: string, replacement: string)
    requires |pattern| > 0
    requires Free(t, pattern[0])
    ensures ReplaceAll(t + rest, pattern, replacement) == t + ReplaceAll(rest, pattern, replacement)
    decreases |t|
  {
    if |t| > 0 {
      var s := t + rest;
      assert s[0] == t[0] && s[1..] == t[1..] + rest;
      assert Free(t[1..], pattern[0]);
      assert !StartsWith(s, pattern);
      hide *;
      ReplaceAllSkip(s, pattern, replacement);
      ReplaceAllFreePrefix(t[1..], rest, pattern, replacement);
      assert t == [t[0]] + t[1..];
    } else {
      assert t + rest == rest;
    }
  }

  /** A character that starts no occurrence, followed by a prefix that cannot start one, is copied unchanged. */
  lemma ReplaceAllCopy(c: char, t: string, rest: string, pattern: string, replacement: string)
    requires |pattern| > 0
    requires !StartsWith([c] + t + rest, pattern) && Free(t, pattern[0])
    ensures ReplaceAll([c] + t + rest, pattern, replacement) == [c] + t + ReplaceAll(rest, pattern, replacement)
  {
    var s := [c] + t + rest;
    assert s[1..] == t + rest;
    hide *;
    ReplaceAllSkip(s, pattern, replacement);
    ReplaceAllFreePrefix(t, rest, pattern, replacement);
  }

  /** `parts` with `sep` between consecutive parts, as `String.Join`. */
  function Join(parts: seq<string>, sep: string): string
    decreases |parts|
  {
    if |parts| == 0 then []
    else if |parts| == 1 then parts[0]
    else parts[0] + sep + Join(parts[1..], sep)
  }

  /**
   Replacing `pattern` in text made of pattern-free parts separated by
   `pattern` puts `replacement` exactly where the separators were.
   */
  lemma {:induction false} ReplaceAllJoin(parts: seq<string>, pattern: string, replacement: string)
    requires |pattern| > 0
    requires forall k :: 0 <= k < |parts| ==> Free(parts[k], pattern[0])
    ensures ReplaceAll(Join(parts, pattern), pattern, replacement) == Join(parts, replacement)
    decreases |parts|
  {
    if |parts| == 1 {
      ReplaceAllFreePrefix(parts[0], [], pattern, replacement);
      assert parts[0] + [] == parts[0];
    } else if |parts| > 1 {
      var rest := parts[1..];
      var tail := Join(rest, pattern);
      JoinCons(parts, pattern);
      JoinCons(parts, replacement);
      assert Free(parts[0], pattern[0]);
      assert forall k :: 0 <= k < |rest| ==> Free(rest[k], pattern[0]);
      assert StartsWith(pattern + tail, pattern) && (pattern + tail)[|pattern|..] == tail;
      hide *;
      ReplaceAllFreePrefix(parts[0], pattern + tail, pattern, replacement);
      ReplaceAllHit(pattern + tail, pattern, replacement);
      ReplaceAllJoin(rest, pattern, replacement);
    }
  }

  /** Joining two or more parts puts the first part, then a separator, before the rest. */
  lemma JoinCons(parts: seq<string>, sep: string)
    requires |parts| > 1
    ensures Join(parts, sep) == parts[0] + (sep + Join(parts[1..], sep))
  {
  }

  /** A decimal digit. */
  predicate IsDigit(c: char) {
    '0' <= c <= '9'
  }

  /** A character `Int32.ToString()` can produce: a digit or the minus sign. */
  predicate IsNumeral(c: char) {
    c == '-' || IsDigit(c)
  }

  predicate AllDigits(s: string) {
    forall k :: 0 <= k < |s| ==> IsDigit(s[k])
  }

  function DigitChar(d: nat): (c: char)
    requires d < 10
    ensures IsDigit(c) && c as int - '0' as int == d
  {
    (d + '0' as int) as char
  }

  /** Decimal rendering of a natural number, without leading zeros. */
  function NatToString(n: nat): (s: string)
    ensures |s| > 0 && AllDigits(s)
    ensures |s| > 1 ==> s[0] != '0'
    ensures s[0] == '0' <==> n == 0
    decreases n
  {
    if n < 10 then [DigitChar(n)] else NatToString(n / 10) + [DigitChar(n % 10)]
  }

  /** `Int32.ToString()`: a minus sign for negatives, then the digits of the magnitude. */
  function IntToString(n: int): (s: string)
    ensures |s| > 0
    ensures forall k :: 0 <= k < |s| ==> IsNumeral(s[k])
    ensures s[0] == '-' <==> n < 0
    ensures forall k :: 0 < k < |s| ==> IsDigit(s[k])
    ensures s[0] == '-' ==> |s| > 1 && s[1] != '0'
    ensures |s| > 1 && s[0] != '-' ==> s[0] != '0'
  {
    if n < 0 then "-" + NatToString(-n) else NatToString(n)
  }

  /** Value of a string of digits, most significant first. */
  function DigitsValue(s: string): nat
    requires AllDigits(s)
    decreases |s|
  {
    if |s| == 0 then 0 else 10 * DigitsValue(s[..|s| - 1]) + (s[|s| - 1] as int - '0' as int)
  }

  /** Reads back an optionally signed decimal number; `None` for anything else. */
  function ParseInt(s: string): (r: Option<int>)
    ensures r.Some? ==> |s| > 0 && forall k :: 0 <= k < |s| ==> IsNumeral(s[k])
  {
    if |s| > 1 && s[0] == '-' && AllDigits(s[1..]) then Some(0 - DigitsValue(s[1..]))
    else if |s| > 0 && AllDigits(s) then Some(DigitsValue(s))
    else None
  }

  lemma {:induction false} NatToStringRoundTrip(n: nat)
    ensures DigitsValue(NatToString(n)) == n
    decreases n
  {
    if n >= 10 {
      var s := NatToString(n);
      assert s[..|s| - 1] == NatToString(n / 10);
      NatToStringRoundTrip(n / 10);
    }
  }

  /** Parsing the decimal rendering of any integer gives the integer back. */
  lemma IntToStringRoundTrip(n: int)
    ensures ParseInt(IntToString(n)) == Some(n)
  {
    if n < 0 {
      var s := IntToString(n);
      assert s[1..] == NatToString(-n);
      NatToStringRoundTrip(-n);
    } else {
      NatToStringRoundTrip(n);
    }
  }

  /** Distinct integers have distinct decimal renderings. */
  lemma IntToStringInjective(a: int, b: int)
    requires IntToString(a) == IntToString(b)
    ensures a == b
  {
    IntToStringRoundTrip(a);
    IntToStringRoundTrip(b);
  }

  /** Index of the last `c` in `s`, as `String.LastIndexOf(char)`. */
  function LastIndexOf(s: string, c: char): (r: Option<nat>)
    ensures r.Some? ==> r.value < |s| && s[r.value] == c && Free(s[r.value + 1..], c)
    ensures r.None? ==> Free(s, c)
    decreases |s|
  {
    if |s| == 0 then None
    else if s[|s| - 1] == c then Some(|s| - 1)
    else LastIndexOf(s[..|s| - 1], c)
  }

  /** The separator before a separator-free tail is the last one. */
  lemma {:induction false} LastIndexOfJoin(a: string, c: char, b: string)
    requires Free(b, c)
    ensures LastIndexOf(a + [c] + b, c) == Some(|a|)
    decreases |b|
  {
    var s := a + [c] + b;
    if |b| > 0 {
      assert s[|s| - 1] == b[|b| - 1];
      assert s[..|s| - 1] == a + [c] + b[..|b| - 1];
      LastIndexOfJoin(a, c, b[..|b| - 1]);
    }
  }
}
