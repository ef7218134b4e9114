/**
 * `ResumeParser._extract_certifications`: `re.findall` with
 * `- (.*?Certified.*)`, no flags.  The pattern is not anchored, so a
 * dash and a space anywhere in a line, not only a bullet at its start,
 * open a match.
 */
module Certifications {
  import opened Wrappers
  import opened Text
  import opened Regex

  /** The word every certification has to contain. */
  const Keyword: string := "Certified"

  /**
   * The pattern can match at `i` with its lazy `.*?` stopping at `x`,
   * where the keyword starts: a dash and a space, then the keyword
   * within the same line.  The greedy `.*` after it always succeeds.
   */
  ghost predicate CertMatch(s: string, i: nat, x: nat)
  {
    && i + 2 <= x && x + |Keyword| <= |s| && s[i] == '-' && s[i + 1] == ' '
    && All(s, i + 2, x + |Keyword|, NotNewline) && OccursAt(s, Keyword, x)
  }

  /**
   * What the pattern returns when tried at `i`: the group runs from
   * after the dash and space to the end of the line, provided the
   * keyword occurs there.
   */
  function CertAt(s: string, i: nat): (r: Option<Hit<string>>)
    ensures r.Some? ==> i + 2 <= r.value.end <= |s| && r.value.groups == s[i + 2..r.value.end]
  {
    if i + 2 <= |s| && s[i] == '-' && s[i + 1] == ' ' then
      var le := LineEnd(s, i + 2);
      if Contains(s[i + 2..le], Keyword) then Some(Hit(s[i + 2..le], le)) else None
    else None
  }

  /**
   * The engine finds a match at `i` exactly when the pattern can match
   * there, and wherever the keyword is, the greedy `.*` after it ends
   * where the match does: at the end of the line.
   */
  lemma CertAtIff(s: string, i: nat)
    ensures CertAt(s, i).Some? <==> exists x: nat :: CertMatch(s, i, x)
    ensures forall x: nat :: CertMatch(s, i, x) ==> CertAt(s, i).value.end == LineEnd(s, x + |Keyword|)
  {
    forall x: nat | CertMatch(s, i, x)
      ensures CertAt(s, i).Some? && CertAt(s, i).value.end == LineEnd(s, x + |Keyword|)
    {
      CertMatchFound(s, i, x);
    }
    if CertAt(s, i).Some? {
      var x := CertAtMatches(s, i);
    }
  }

  /** Wherever the keyword is, the engine finds the match and it ends with the line. */
  lemma CertMatchFound(s: string, i: nat, x: nat)
    requires CertMatch(s, i, x)
    ensures CertAt(s, i).Some? && CertAt(s, i).value.end == LineEnd(s, x + |Keyword|)
  {
    var le := LineEnd(s, i + 2);
    var w := s[i + 2..le];
    LineEndWithin(s, i + 2, x + |Keyword|);
    SliceOfSlice(s, i + 2, le, x, x + |Keyword|);
    assert OccursAt(w, Keyword, x - (i + 2));
    ContainsIff(w, Keyword);
  }

  /** What the engine finds has the keyword in it: a match in the sense of `CertMatch`. */
  lemma CertAtMatches(s: string, i: nat) returns (x: nat)
    requires CertAt(s, i).Some?
    ensures CertMatch(s, i, x)
  {
    var le := LineEnd(s, i + 2);
    var w := s[i + 2..le];
    ContainsIff(w, Keyword);
    var k: nat :| OccursAt(w, Keyword, k);
    x := i + 2 + k;
    SliceOfSlice(s, i + 2, le, x, x + |Keyword|);
  }

  /** Moving forward inside a line does not move the line's end. */
  lemma LineEndWithin(s: string, a: nat, b: nat)
    requires a <= b <= |s| && All(s, a, b, NotNewline)
    ensures LineEnd(s, a) == LineEnd(s, b)
  {
    var e := LineEnd(s, b);
    SkipWhileUnique(s, a, e, NotNewline);
  }

  /** Matches are non-empty and end inside the text, so `re.findall` can scan them. */
  lemma CertsWithin(s: string)
    ensures NonEmptyWithin(|s|, (p: nat) => CertAt(s, p))
  {
  }

  /** The matches `re.findall` collects, in order. */
  function Certs(s: string): (ms: seq<Match<string>>)
    ensures forall k :: 0 <= k < |ms| ==> CertAt(s, ms[k].start) == Some(Hit(ms[k].groups, ms[k].end))
  {
    CertsWithin(s);
    FindAll(|s|, 0, (p: nat) => CertAt(s, p))
  }

  /** `_extract_certifications`: the first group of every match. */
  function ExtractCertifications(s: string): (r: seq<string>)
    ensures |r| == |Certs(s)|
    ensures forall k :: 0 <= k < |r| ==> r[k] == Certs(s)[k].groups
  {
    var ms := Certs(s);
    seq(|ms|, k requires 0 <= k < |ms| => ms[k].groups)
  }

  /**
   * Every certification contains the keyword, stays on one line, runs to
   * the end of that line and comes right after a dash and a space.
   */
  lemma CertificationShape(s: string)
    ensures var r := ExtractCertifications(s);
            var ms := Certs(s);
            forall k :: 0 <= k < |r| ==>
              && Contains(r[k], Keyword) && '\n' !in r[k]
              && var i := ms[k].start;
              && i + 2 <= ms[k].end <= |s| && s[i] == '-' && s[i + 1] == ' '
              && r[k] == s[i + 2..ms[k].end] && (ms[k].end == |s| || s[ms[k].end] == '\n')
  {
  }

  /** No two certifications share a line: a line feed follows every one but the last. */
  lemma CertificationsOnePerLine(s: string, k: nat)
    requires k + 1 < |ExtractCertifications(s)|
    ensures var ms := Certs(s);
            ms[k].end < ms[k + 1].start && s[ms[k].end] == '\n'
  {
    var ms := Certs(s);
    CertsWithin(s);
    FindAllOrdered(|s|, 0, (p: nat) => CertAt(s, p), k, k + 1);
    CertEndsLine(s, ms[k].start);
    CertAtDash(s, ms[k + 1].start);
  }

  /** A match ends at a line feed or at the end of the text. */
  lemma CertEndsLine(s: string, i: nat)
    requires CertAt(s, i).Some?
    ensures var e := CertAt(s, i).value.end; e == |s| || (e < |s| && s[e] == '\n')
  {
  }

  /** A match starts at a dash. */
  lemma CertAtDash(s: string, i: nat)
    requires CertAt(s, i).Some?
    ensures i < |s| && s[i] == '-'
  {
  }

  /** Every certification uses up a dash of the text. */
  lemma CertificationCount(s: string)
    ensures |ExtractCertifications(s)| <= Count(s, '-')
  {
    CertsWithin(s);
    var at := (p: nat) => CertAt(s, p);
    forall p: nat | p <= |s| && at(p).Some?
      ensures Count(s[p..at(p).value.end], '-') >= 1
    {
      assert s[p..at(p).value.end][0] == '-';
    }
    FindAllCount(s, '-', 1, 0, at);
    assert s[0..] == s;
    assert |Certs(s)| == |FindAll(|s|, 0, at)|;
  }
}
