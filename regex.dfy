/**
 * How Python's `re.search` and `re.findall` walk a string, for a pattern
 * given as its "match starting exactly at p" function.  Each extractor
 * supplies that function for its own pattern; what the backtracking
 * engine returns at one start position is proved there.
 */
module Regex {
  import opened Wrappers
  import opened Text

  /** What a pattern returns at one start position: its groups and the end of the match. */
  datatype Hit<H> = Hit(groups: H, end: nat)

  /** A match found by a scan: where it starts, its groups, where it ends. */
  datatype Match<H> = Match(start: nat, groups: H, end: nat)

  /**
   * Every match of the pattern inside a string of length `n` is non-empty
   * and ends inside the string; all patterns of the parser have this form.
   */
  ghost predicate NonEmptyWithin<H>(n: nat, at: nat -> Option<Hit<H>>)
  {
    forall p: nat :: p <= n && at(p).Some? ==> p < at(p).value.end <= n
  }

  /** `re.search` from position `i`: the leftmost start at which the pattern matches. */
  function Search<H>(n: nat, i: nat, at: nat -> Option<Hit<H>>): (r: Option<Match<H>>)
    requires i <= n + 1
    ensures r.Some? ==> i <= r.value.start <= n
    ensures r.Some? ==> at(r.value.start) == Some(Hit(r.value.groups, r.value.end))
    ensures r.Some? ==> forall p :: i <= p < r.value.start ==> at(p).None?
    ensures r.None? ==> forall p :: i <= p <= n ==> at(p).None?
    decreases n + 1 - i
  {
    if i > n then None
    else match at(i)
      case Some(h) => Some(Match(i, h.groups, h.end))
      case None => Search(n, i + 1, at)
  }

  /**
   * `re.findall` from position `i`: each match is the leftmost one at or
   * after the end of the previous match, and the scan stops when there is
   * none (`FindAllGaps` states the second half).
   */
  function FindAll<H>(n: nat, i: nat, at: nat -> Option<Hit<H>>): (ms: seq<Match<H>>)
    requires i <= n
    requires NonEmptyWithin(n, at)
    ensures forall k :: 0 <= k < |ms| ==> i <= ms[k].start < ms[k].end <= n
    ensures forall k :: 0 <= k < |ms| ==> at(ms[k].start) == Some(Hit(ms[k].groups, ms[k].end))
    ensures forall k :: 0 < k < |ms| ==> ms[k - 1].end <= ms[k].start
    decreases n - i
  {
    match Search(n, i, at)
    case None => []
    case Some(m) => [m] + FindAll(n, m.end, at)
  }

  /**
   * Nothing is skipped: before the first match, between two matches and
   * after the last one the pattern matches at no position.
   */
  lemma FindAllGaps<H>(n: nat, i: nat, at: nat -> Option<Hit<H>>)
    requires i <= n && NonEmptyWithin(n, at)
    ensures var ms := FindAll(n, i, at);
            && (forall p :: i <= p <= n && (ms == [] || p < ms[0].start) ==> at(p).None?)
            && (forall k, p :: 0 < k < |ms| && ms[k - 1].end <= p < ms[k].start ==> at(p).None?)
            && (ms != [] ==> forall p :: ms[|ms| - 1].end <= p <= n ==> at(p).None?)
  {
    FindAllBefore(n, i, at);
    FindAllBetween(n, i, at);
    FindAllAfter(n, i, at);
  }

  /** No match starts before the first match of a scan, or anywhere when there is none. */
  lemma FindAllBefore<H>(n: nat, i: nat, at: nat -> Option<Hit<H>>)
    requires i <= n && NonEmptyWithin(n, at)
    ensures var ms := FindAll(n, i, at);
            forall p :: i <= p <= n && (ms == [] || p < ms[0].start) ==> at(p).None?
  {
    var ms := FindAll(n, i, at);
    var r := Search(n, i, at);
    if r.Some? {
      assert ms[0] == r.value;
    }
  }

  /** A scan finds something when the pattern matches at some position it passes. */
  lemma FindAllNonEmpty<H>(n: nat, i: nat, at: nat -> Option<Hit<H>>, p: nat)
    requires i <= p <= n && NonEmptyWithin(n, at) && at(p).Some?
    ensures FindAll(n, i, at) != []
  {
    FindAllBefore(n, i, at);
  }

  /** No match of `at` starts between two consecutive matches of `ms`. */
  ghost predicate NoneBetween<H>(ms: seq<Match<H>>, at: nat -> Option<Hit<H>>)
  {
    forall k, p: nat :: 0 < k < |ms| && ms[k - 1].end <= p < ms[k].start ==> at(p).None?
  }

  /** No match starts between two consecutive matches of a scan. */
  lemma {:induction false} FindAllBetween<H>(n: nat, i: nat, at: nat -> Option<Hit<H>>)
    requires i <= n && NonEmptyWithin(n, at)
    ensures NoneBetween(FindAll(n, i, at), at)
    decreases n - i
  {
    var ms := FindAll(n, i, at);
    match Search(n, i, at)
    case None =>
    case Some(m) =>
      var rest := FindAll(n, m.end, at);
      assert ms == [m] + rest;
      FindAllBetween(n, m.end, at);
      FindAllBefore(n, m.end, at);
      NoneBetweenCons(m, rest, at);
  }

  /** Prepending a match keeps the gaps empty when the gap before the old first match is. */
  lemma NoneBetweenCons<H>(m: Match<H>, rest: seq<Match<H>>, at: nat -> Option<Hit<H>>)
    requires NoneBetween(rest, at)
    requires rest != [] ==> forall p :: m.end <= p < rest[0].start ==> at(p).None?
    ensures NoneBetween([m] + rest, at)
  {
    var ms := [m] + rest;
    forall k, p: nat | 0 < k < |ms| && ms[k - 1].end <= p < ms[k].start
      ensures at(p).None?
    {
      if k > 1 {
        assert ms[k - 1] == rest[k - 2] && ms[k] == rest[k - 1];
        assert rest[(k - 1) - 1].end <= p < rest[k - 1].start;
      } else {
        assert ms[0] == m && ms[1] == rest[0];
      }
    }
  }

  /** No match starts after the last match of a scan. */
  lemma {:induction false} FindAllAfter<H>(n: nat, i: nat, at: nat -> Option<Hit<H>>)
    requires i <= n && NonEmptyWithin(n, at)
    ensures var ms := FindAll(n, i, at);
            ms != [] ==> forall p :: ms[|ms| - 1].end <= p <= n ==> at(p).None?
    decreases n - i
  {
    var ms := FindAll(n, i, at);
    match Search(n, i, at)
    case None =>
    case Some(m) =>
      var rest := FindAll(n, m.end, at);
      assert ms == [m] + rest;
      FindAllAfter(n, m.end, at);
      if rest != [] {
        assert ms[|ms| - 1] == rest[|rest| - 1];
      }
  }

  /** The matches of a scan come in document order and do not overlap. */
  lemma {:induction false} FindAllOrdered<H>(n: nat, i: nat, at: nat -> Option<Hit<H>>, j: nat, k: nat)
    requires i <= n && NonEmptyWithin(n, at)
    requires j < k < |FindAll(n, i, at)|
    ensures FindAll(n, i, at)[j].end <= FindAll(n, i, at)[k].start
    decreases k - j
  {
    var ms := FindAll(n, i, at);
    if j + 1 < k {
      FindAllOrdered(n, i, at, j, k - 1);
    }
  }

  /**
   * A lazy `.*?` (without DOTALL) that started at `b` and has reached `x`:
   * the engine tries the ends `x`, `x + 1`, ... along the line and keeps
   * the first one at which the rest of the pattern, `ok`, succeeds.
   */
  function LazyLine(s: string, b: nat, x: nat, ok: nat -> bool): (r: Option<nat>)
    requires b <= x <= |s| && All(s, b, x, NotNewline)
    ensures r.Some? ==> x <= r.value <= |s| && All(s, b, r.value, NotNewline) && ok(r.value)
    ensures r.Some? ==> forall y: nat :: x <= y < r.value ==> !ok(y)
    ensures r.None? ==> forall y: nat :: x <= y <= |s| && All(s, b, y, NotNewline) ==> !ok(y)
    decreases |s| - x
  {
    if ok(x) then Some(x)
    else if x < |s| && s[x] != '\n' then LazyLine(s, b, x + 1, ok)
    else
      assert forall y: nat :: x < y <= |s| ==> !All(s, b, y, NotNewline);
      None
  }

  /**
   * A lazy `.*?` under DOTALL that has reached `x` in a string of length
   * `n`: the engine tries the ends `x`, `x + 1`, ... and keeps the first
   * one at which the rest of the pattern, `ok`, succeeds.
   */
  function LazyAny(n: nat, x: nat, ok: nat -> bool): (r: Option<nat>)
    requires x <= n
    ensures r.Some? ==> x <= r.value <= n && ok(r.value)
    ensures r.Some? ==> forall y: nat :: x <= y < r.value ==> !ok(y)
    ensures r.None? ==> forall y: nat :: x <= y <= n ==> !ok(y)
    decreases n - x
  {
    if ok(x) then Some(x)
    else if x < n then LazyAny(n, x + 1, ok)
    else None
  }

  /**
   * When every match holds at least `k` copies of `c`, a scan of `s` finds
   * at most `Count / k` matches: the matches do not overlap.
   */
  lemma {:induction false} FindAllCount<H>(s: string, c: char, k: nat, i: nat, at: nat -> Option<Hit<H>>)
    requires i <= |s| && NonEmptyWithin(|s|, at)
    requires forall p: nat :: p <= |s| && at(p).Some? ==> Count(s[p..at(p).value.end], c) >= k
    ensures |FindAll(|s|, i, at)| * k <= Count(s[i..], c)
    decreases |s| - i
  {
    var r := Search(|s|, i, at);
    if r.Some? {
      var m := r.value;
      var rest := FindAll(|s|, m.end, at);
      assert (1 + |rest|) * k == k + |rest| * k;
      assert FindAll(|s|, i, at) == [m] + rest;
      assert at(m.start) == Some(Hit(m.groups, m.end));
      var inM := Count(s[m.start..m.end], c);
      assert inM >= k;
      FindAllCount(s, c, k, m.end, at);
      var a, b, d := s[i..m.start], s[m.start..m.end], s[m.end..];
      SliceSplit(s, i, m.start, m.end);
      CountAppend(a, b, c);
      CountAppend(a + b, d, c);
      assert |FindAll(|s|, i, at)| == 1 + |rest|;
    }
  }

  lemma SliceSplit(s: string, i: nat, j: nat, k: nat)
    requires i <= j <= k <= |s|
    ensures s[i..] == s[i..j] + s[j..k] + s[k..]
  {
  }
}
