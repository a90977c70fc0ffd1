/**
 The subdomain pattern `\[(.*)\]` of the downloader (Downloader.cs line 18),
 evaluated the way a backtracking regular-expression engine evaluates it:
 the leftmost `[` that has a `]` later on the same line starts the match, and
 the greedy `.*` (which does not cross a line feed) makes it end at the last
 such `]`. `Replace` substitutes every match, resuming after the previous one.
 */
module SubdomainPattern {
  import opened Results

  /** A match: `s[start] == '['`, `s[stop] == ']'`, group 1 strictly between. */
  datatype Span = Span(start: nat, stop: nat)

  /** Declarative reading of the pattern: `s[i..j+1]` is `[`, a run of non-line-feed characters, `]`. */
  predicate IsMatch(s: string, i: int, j: int) {
    0 <= i < j < |s| && s[i] == '[' && s[j] == ']' &&
    forall k :: i < k < j ==> s[k] != '\n'
  }

  /** Index of the first line feed at or after `from`, or `|s|`: how far `.*` can reach. */
  function LineEnd(s: string, from: nat): (e: nat)
    requires from <= |s|
    ensures from <= e <= |s|
    ensures forall k :: from <= k < e ==> s[k] != '\n'
    ensures e < |s| ==> s[e] == '\n'
    decreases |s| - from
  {
    if from == |s| || s[from] == '\n' then from else LineEnd(s, from + 1)
  }

  /** The last `]` in `s[lo..hi]`: where backtracking out of `.*` first succeeds. */
  function LastClose(s: string, lo: nat, hi: nat): (j: Option<nat>)
    requires lo <= hi <= |s|
    ensures j.Some? ==> lo <= j.value < hi && s[j.value] == ']'
    ensures j.Some? ==> forall k :: j.value < k < hi ==> s[k] != ']'
    ensures j.None? ==> forall k :: lo <= k < hi ==> s[k] != ']'
    decreases hi - lo
  {
    if lo == hi then None
    else if s[hi - 1] == ']' then Some(hi - 1)
    else LastClose(s, lo, hi - 1)
  }

  /** `Regex.Match` started at `from`: the leftmost match, extended as far as the line allows. */
  function MatchFrom(s: string, from: nat): (r: Option<Span>)
    requires from <= |s|
    ensures r.Some? ==> from <= r.value.start && IsMatch(s, r.value.start, r.value.stop)
    ensures r.Some? ==> forall j :: r.value.stop < j ==> !IsMatch(s, r.value.start, j)
    ensures r.Some? ==> forall i, j :: from <= i < r.value.start ==> !IsMatch(s, i, j)
    ensures r.None? ==> forall i, j :: from <= i ==> !IsMatch(s, i, j)
    decreases |s| - from
  {
    if from == |s| then None
    else if s[from] == '[' && LastClose(s, from + 1, LineEnd(s, from + 1)).Some? then
      Some(Span(from, LastClose(s, from + 1, LineEnd(s, from + 1)).value))
    else
      MatchFrom(s, from + 1)
  }

  /**
   The match the regular expression engine reports first: the leftmost
   start, and from there the longest (greedy) extent.
   */
  ghost predicate FirstMatch(s: string, i: int, j: int) {
    && IsMatch(s, i, j)
    && (forall i', j' :: 0 <= i' < i ==> !IsMatch(s, i', j'))
    && (forall j' :: j < j' ==> !IsMatch(s, i, j'))
  }

  /** The text captured by group 1 of a match. */
  function Group(s: string, m: Span): string
    requires m.start < m.stop <= |s|
  {
    s[m.start + 1..m.stop]
  }

  /** `Regex.Replace(s, letter)` from `from` on: every match becomes `letter`. */
  function ReplaceMatches(s: string, from: nat, letter: char): string
    requires from <= |s|
    decreases |s| - from
  {
    match MatchFrom(s, from)
    case None => s[from..]
    case Some(m) => s[from..m.start] + [letter] + ReplaceMatches(s, m.stop + 1, letter)
  }

  /** Without a match the template is left as it is. */
  lemma NoMatchUnchanged(s: string, letter: char)
    requires MatchFrom(s, 0).None?
    ensures ReplaceMatches(s, 0, letter) == s
  {
  }

  /**
   On a single-line template whose first `[` comes before its last `]`, the
   match is exactly that span, the group is everything between the two, and
   the replacement puts `letter` in place of the whole span.
   */
  lemma SingleLineGreedy(s: string, i: nat, j: nat, letter: char)
    requires forall k :: 0 <= k < |s| ==> s[k] != '\n'
    requires i < j < |s| && s[i] == '[' && s[j] == ']'
    requires forall k :: 0 <= k < i ==> s[k] != '['
    requires forall k :: j < k < |s| ==> s[k] != ']'
    ensures MatchFrom(s, 0) == Some(Span(i, j))
    ensures Group(s, Span(i, j)) == s[i + 1..j]
    ensures ReplaceMatches(s, 0, letter) == s[..i] + [letter] + s[j + 1..]
  {
    assert IsMatch(s, i, j);
  }
}
