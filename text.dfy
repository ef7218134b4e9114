/**
 * Characters and strings as the resume parser sees them: the character
 * classes its regular expressions use, `str.strip`, `str.split`,
 * `str.join`, `str.lower` and the `in` substring test.
 */
module Text {
  import opened Wrappers

  /**
   * Python's whitespace, used both by `\s` in a `str` pattern and by
   * `str.strip()`: tab to carriage return, the four information
   * separators U+001C to U+001F, space, and the Unicode spaces and
   * line separators.
   */
  predicate IsSpace(c: char) {
    ('\t' <= c <= '\r') || ('\U{1C}' <= c <= ' ')
    || c == '\U{85}' || c == '\U{A0}' || c == '\U{1680}'
    || ('\U{2000}' <= c <= '\U{200A}')
    || c == '\U{2028}' || c == '\U{2029}' || c == '\U{202F}'
    || c == '\U{205F}' || c == '\U{3000}'
  }

  /** `\d`, restricted to the ASCII digits. */
  predicate IsDigit(c: char) { '0' <= c <= '9' }

  /** `[A-Za-z]`. */
  predicate IsLetter(c: char) { 'A' <= c <= 'Z' || 'a' <= c <= 'z' }

  /** `\w`, restricted to ASCII. */
  predicate IsWordChar(c: char) { IsLetter(c) || IsDigit(c) || c == '_' }

  /** Letters and digits are not whitespace. */
  lemma LetterNotSpace(c: char)
    requires IsLetter(c) || IsDigit(c)
    ensures !IsSpace(c)
  {
  }

  /** `.` without DOTALL: anything but a line feed. */
  predicate NotNewline(c: char) { c != '\n' }

  /** Every character of `s[lo..hi]` satisfies `p`. */
  predicate All(s: string, lo: nat, hi: nat, p: char -> bool)
    requires lo <= hi <= |s|
  {
    forall k :: lo <= k < hi ==> p(s[k])
  }

  /** The end of the longest run of `p`-characters that starts at `i`. */
  function SkipWhile(s: string, i: nat, p: char -> bool): (j: nat)
    requires i <= |s|
    ensures i <= j <= |s|
    ensures All(s, i, j, p)
    ensures j < |s| ==> !p(s[j])
    decreases |s| - i
  {
    if i < |s| && p(s[i]) then SkipWhile(s, i + 1, p) else i
  }

  /** A run end is determined by its start: the end of a maximal run is `SkipWhile`'s. */
  lemma SkipWhileUnique(s: string, i: nat, j: nat, p: char -> bool)
    requires i <= j <= |s|
    requires All(s, i, j, p)
    requires j < |s| ==> !p(s[j])
    ensures SkipWhile(s, i, p) == j
  {
  }

  /** Where the whitespace run at `i` ends: how far a greedy `\s*` reaches. */
  function SpaceEnd(s: string, i: nat): (j: nat)
    requires i <= |s|
    ensures i <= j <= |s| && All(s, i, j, IsSpace)
  {
    SkipWhile(s, i, IsSpace)
  }

  /** A whitespace run that stops at a non-space character stops where `SpaceEnd` does. */
  lemma SpaceEndAt(s: string, i: nat, j: nat)
    requires i <= j < |s| && All(s, i, j, IsSpace) && !IsSpace(s[j])
    ensures SpaceEnd(s, i) == j
  {
    SkipWhileUnique(s, i, j, IsSpace);
  }

  /** The position of the first line feed at or after `i`, or `|s|`. */
  function LineEnd(s: string, i: nat): (j: nat)
    requires i <= |s|
    ensures i <= j <= |s| && All(s, i, j, NotNewline)
    ensures j < |s| ==> s[j] == '\n'
  {
    SkipWhile(s, i, NotNewline)
  }

  /** The first position at or after `i` that holds `c`, or `|s|`. */
  function IndexOf(s: string, c: char, i: nat): (k: nat)
    requires i <= |s|
    ensures i <= k <= |s|
    ensures forall j :: i <= j < k ==> s[j] != c
    ensures k < |s| ==> s[k] == c
    decreases |s| - i
  {
    if i < |s| && s[i] != c then IndexOf(s, c, i + 1) else i
  }

  lemma IndexOfUnique(s: string, c: char, i: nat, k: nat)
    requires i <= k <= |s|
    requires forall j :: i <= j < k ==> s[j] != c
    requires k < |s| ==> s[k] == c
    ensures IndexOf(s, c, i) == k
  {
  }

  /** Searching a suffix is searching the whole string from the suffix's start. */
  lemma IndexOfSuffix(s: string, c: char, d: nat)
    requires d <= |s|
    ensures IndexOf(s[d..], c, 0) + d == IndexOf(s, c, d)
  {
    var k := IndexOf(s, c, d);
    IndexOfUnique(s[d..], c, 0, k - d);
  }

  /** The number of occurrences of `c` in `s`. */
  function Count(s: string, c: char): (n: nat)
    ensures n <= |s|
    ensures n == 0 <==> c !in s
  {
    if s == [] then 0 else (if s[0] == c then 1 else 0) + Count(s[1..], c)
  }

  /** Two distinct positions holding `c` make a count of at least two. */
  lemma {:induction false} CountAtLeastTwo(s: string, c: char, p: nat, q: nat)
    requires p < q < |s| && s[p] == c && s[q] == c
    ensures Count(s, c) >= 2
  {
    if p == 0 {
      assert s[1..][q - 1] == c;
    } else {
      CountAtLeastTwo(s[1..], c, p - 1, q - 1);
    }
  }

  /** The count of `c` is additive over concatenation. */
  lemma {:induction false} CountAppend(a: string, b: string, c: char)
    ensures Count(a + b, c) == Count(a, c) + Count(b, c)
  {
    if a != [] {
      assert (a + b)[0] == a[0];
      assert (a + b)[1..] == a[1..] + b;
      CountAppend(a[1..], b, c);
    } else {
      assert a + b == b;
    }
  }

  /** How many characters `str.strip()` removes from the front. */
  function StripStart(s: string): (a: nat)
    ensures a <= |s| && All(s, 0, a, IsSpace)
    ensures a < |s| ==> !IsSpace(s[a])
  {
    SkipWhile(s, 0, IsSpace)
  }

  /** Where `str.strip()` cuts the tail: walk back from `hi` over whitespace, not below `lo`. */
  function TrimBack(s: string, lo: nat, hi: nat): (b: nat)
    requires lo <= hi <= |s|
    ensures lo <= b <= hi && All(s, b, hi, IsSpace)
    ensures b > lo ==> !IsSpace(s[b - 1])
    decreases hi
  {
    if hi > lo && IsSpace(s[hi - 1]) then TrimBack(s, lo, hi - 1) else hi
  }

  /** `str.strip()`: `r` is `s` without its leading and trailing whitespace. */
  ghost predicate StrippedFrom(r: string, s: string)
  {
    exists a :: StrippedAt(r, s, a)
  }

  ghost predicate StrippedAt(r: string, s: string, a: nat)
  {
    && a + |r| <= |s| && r == s[a..a + |r|]
    && All(s, 0, a, IsSpace) && All(s, a + |r|, |s|, IsSpace)
    && (r == [] || (!IsSpace(r[0]) && !IsSpace(r[|r| - 1])))
  }

  function Strip(s: string): (r: string)
    ensures StrippedAt(r, s, StripStart(s))
    ensures r == [] || (!IsSpace(r[0]) && !IsSpace(r[|r| - 1]))
  {
    var a := StripStart(s);
    s[a..TrimBack(s, a, |s|)]
  }

  /** Stripping only removes characters. */
  lemma StripWithin(s: string)
    ensures forall c :: c in Strip(s) ==> c in s
  {
    var a := StripStart(s);
    var r := Strip(s);
    forall c | c in r
      ensures c in s
    {
      var x :| 0 <= x < |r| && r[x] == c;
      assert s[a + x] == c;
    }
  }

  /** A string with no whitespace at either end is its own strip. */
  lemma StripNoop(s: string)
    requires s == [] || (!IsSpace(s[0]) && !IsSpace(s[|s| - 1]))
    ensures Strip(s) == s
  {
    if s != [] {
      assert StripStart(s) == 0;
      assert TrimBack(s, 0, |s|) == |s|;
    }
  }

  /** `s.split(sep)`: the pieces between occurrences of `sep`. */
  function Split(s: string, sep: char): (parts: seq<string>)
    ensures |parts| == Count(s, sep) + 1
    ensures forall k :: 0 <= k < |parts| ==> sep !in parts[k]
    decreases |s|
  {
    var k := IndexOf(s, sep, 0);
    if k == |s| then
      assert Count(s, sep) == 0;
      [s]
    else
      var rest := Split(s[k + 1..], sep);
      assert s == s[..k] + [sep] + s[k + 1..];
      assert s[..k] + s[k..] == s;
      CountAppend(s[..k], s[k..], sep);
      assert s[k..] == [sep] + s[k + 1..];
      CountAppend([sep], s[k + 1..], sep);
      assert Count([sep], sep) == 1;
      assert sep !in s[..k];
      assert Count(s, sep) == Count(s[k + 1..], sep) + 1;
      [s[..k]] + rest
  }

  /** `sep.join(parts)`. */
  function Join(sep: string, parts: seq<string>): (r: string)
    decreases |parts|
  {
    if parts == [] then []
    else if |parts| == 1 then parts[0]
    else parts[0] + sep + Join(sep, parts[1..])
  }

  /** Splitting loses nothing: joining the pieces with the separator gives the string back. */
  lemma {:induction false} SplitJoin(s: string, sep: char)
    ensures Join([sep], Split(s, sep)) == s
    decreases |s|
  {
    var k := IndexOf(s, sep, 0);
    if k < |s| {
      var rest := Split(s[k + 1..], sep);
      assert Split(s, sep) == [s[..k]] + rest;
      SplitJoin(s[k + 1..], sep);
      assert ([s[..k]] + rest)[1..] == rest;
      assert s == s[..k] + [sep] + s[k + 1..];
    }
  }

  /** The first piece of a split is the text before the first separator. */
  lemma SplitFirst(s: string, sep: char)
    ensures Split(s, sep)[0] == s[..IndexOf(s, sep, 0)]
  {
  }

  /** The second piece, when there is one, runs from the first separator to the next one. */
  lemma SplitSecond(s: string, sep: char)
    requires sep in s
    ensures |Split(s, sep)| >= 2
    ensures var k := IndexOf(s, sep, 0);
            k < |s| && Split(s, sep)[1] == s[k + 1..IndexOf(s, sep, k + 1)]
  {
    var k := IndexOf(s, sep, 0);
    assert s[k] == sep;
    assert Split(s, sep) == [s[..k]] + Split(s[k + 1..], sep);
    IndexOfSuffix(s, sep, k + 1);
    SplitFirst(s[k + 1..], sep);
    assert s[k + 1..][..IndexOf(s[k + 1..], sep, 0)] == s[k + 1..IndexOf(s, sep, k + 1)];
  }

  /** `Lower` on one character: only `A`-`Z` change. */
  function LowerChar(c: char): char {
    if 'A' <= c <= 'Z' then (c as int + 32) as char else c
  }

  /** `str.lower()`, restricted to ASCII letters. */
  function Lower(s: string): (r: string)
    ensures |r| == |s|
    ensures forall k :: 0 <= k < |s| ==> r[k] == LowerChar(s[k])
  {
    seq(|s|, k requires 0 <= k < |s| => LowerChar(s[k]))
  }

  /** A slice of a slice is a slice. */
  lemma SliceOfSlice(s: string, a: nat, b: nat, c: nat, d: nat)
    requires a <= c <= d <= b <= |s|
    ensures s[a..b][c - a..d - a] == s[c..d]
  {
    assert forall k :: 0 <= k < d - c ==> s[a..b][c - a..d - a][k] == s[c..d][k];
  }

  /** `needle` occurs in `hay` starting at `k`. */
  predicate OccursAt(hay: string, needle: string, k: nat) {
    k + |needle| <= |hay| && hay[k..k + |needle|] == needle
  }

  /** The first occurrence of `needle` at or after `i`. */
  function Find(hay: string, needle: string, i: nat): (r: Option<nat>)
    ensures r.Some? ==> i <= r.value && OccursAt(hay, needle, r.value)
    ensures r.Some? ==> forall k :: i <= k < r.value ==> !OccursAt(hay, needle, k)
    ensures r.None? ==> forall k :: i <= k ==> !OccursAt(hay, needle, k)
    decreases |hay| - i
  {
    if i + |needle| > |hay| then None
    else if hay[i..i + |needle|] == needle then Some(i)
    else Find(hay, needle, i + 1)
  }

  /** Python's `needle in hay`. */
  predicate Contains(hay: string, needle: string) {
    Find(hay, needle, 0).Some?
  }

  /** `in` holds exactly when the needle occurs somewhere. */
  lemma ContainsIff(hay: string, needle: string)
    ensures Contains(hay, needle) <==> exists k :: OccursAt(hay, needle, k)
  {
  }
}
