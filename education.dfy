/**
 * `ResumeParser._extract_education`: entries `degree | institution`,
 * found by `re.findall` with `(.*?)\s*\|\s*(.*)`.  The MULTILINE flag
 * changes nothing, as the pattern has no `^` or `$`.  The pattern asks
 * for nothing but a bar, so every line holding one yields an entry,
 * including the header line and the work-experience lines.
 */
module Education {
  import opened Wrappers
  import opened Text
  import opened Regex

  datatype EducationEntry = EducationEntry(degree: string, institution: string)

  /**
   * The pattern matches at `i` with the degree `s[i..e1]`, the bar at
   * `p1` and the match ending at `end`.  The `\s*` after the bar and the
   * greedy `(.*)` are taken at their longest, which always succeeds, so
   * the institution runs from the end of the whitespace to the end of
   * its line.
   */
  ghost predicate EduMatchAt(s: string, i: nat, e1: nat, p1: nat, end: nat)
  {
    && i <= e1 <= p1 < |s| && All(s, i, e1, NotNewline) && All(s, e1, p1, IsSpace) && s[p1] == '|'
    && end == LineEnd(s, SpaceEnd(s, p1 + 1))
  }

  /** The pattern matches at `i` with the degree `s[i..e1]`, ending at `end`. */
  ghost predicate EduMatch(s: string, i: nat, e1: nat, end: nat)
  {
    exists p1: nat :: EduMatchAt(s, i, e1, p1, end)
  }

  /** A degree ending at `e1` can be followed by `\s*\|`. */
  predicate DegreeWorks(s: string, e1: nat)
  {
    e1 <= |s| && SpaceEnd(s, e1) < |s| && s[SpaceEnd(s, e1)] == '|'
  }

  /** The lazy degree group `(.*?)` from `i`: the first end on the line that a bar can follow. */
  function DegreeEnd(s: string, i: nat): (r: Option<nat>)
    requires i <= |s|
    ensures r.Some? ==> i <= r.value <= |s| && All(s, i, r.value, NotNewline) && DegreeWorks(s, r.value)
    ensures r.Some? ==> forall y: nat :: i <= y < r.value ==> !DegreeWorks(s, y)
    ensures r.None? ==> forall y: nat :: i <= y <= |s| && All(s, i, y, NotNewline) ==> !DegreeWorks(s, y)
  {
    var ok := (y: nat) => DegreeWorks(s, y);
    var r := LazyLine(s, i, i, ok);
    assert r.Some? ==> ok(r.value);
    assert forall y: nat :: ok(y) == DegreeWorks(s, y);
    r
  }

  /** Positions of one match: the degree is `s[i..e1]`, the bar is at `p1`, the institution is `s[b..end]`. */
  datatype EduSpan = EduSpan(i: nat, e1: nat, p1: nat, b: nat, end: nat)

  /** The layout every match has: it ends where its line does. */
  predicate EduSpanOk(s: string, m: EduSpan)
  {
    && m.i <= m.e1 <= m.p1 < m.b <= m.end <= |s| && s[m.p1] == '|'
    && All(s, m.i, m.e1, NotNewline) && All(s, m.b, m.end, NotNewline)
    && (m.end == |s| || s[m.end] == '\n')
  }

  /**
   * Where the pattern puts the bar and the institution: the bar where the
   * whitespace after the degree stops, the institution where the
   * whitespace after the bar stops.
   */
  predicate EduGroupsPlaced(s: string, m: EduSpan)
  {
    && m.e1 <= |s| && m.p1 == SpaceEnd(s, m.e1)
    && m.p1 < |s| && m.b == SpaceEnd(s, m.p1 + 1)
  }

  /** What the pattern returns when tried at `i`. */
  function EduAt(s: string, i: nat): (r: Option<Hit<EduSpan>>)
  {
    if i > |s| then None
    else
      match DegreeEnd(s, i)
      case None => None
      case Some(e1) =>
        var p1 := SpaceEnd(s, e1);
        var b := SpaceEnd(s, p1 + 1);
        var end := LineEnd(s, b);
        Some(Hit(EduSpan(i, e1, p1, b, end), end))
  }

  /** Every match has the layout `EduSpanOk` describes. */
  lemma EduAtShape(s: string, i: nat)
    requires EduAt(s, i).Some?
    ensures var h := EduAt(s, i).value;
            h.groups.i == i && h.groups.end == h.end && EduSpanOk(s, h.groups) && EduGroupsPlaced(s, h.groups)
  {
  }

  /**
   * Every match has a degree that works, whose bar is where the
   * whitespace after it stops.
   */
  lemma EduMatchElim(s: string, i: nat, e1: nat, end: nat)
    requires EduMatch(s, i, e1, end)
    ensures i <= e1 <= |s| && All(s, i, e1, NotNewline) && DegreeWorks(s, e1)
    ensures end == LineEnd(s, SpaceEnd(s, SpaceEnd(s, e1) + 1))
  {
    var p1: nat :| EduMatchAt(s, i, e1, p1, end);
    EduMatchAtElim(s, i, e1, p1, end);
  }

  /** `EduMatchElim` for a match whose bar is at `p1`. */
  lemma EduMatchAtElim(s: string, i: nat, e1: nat, p1: nat, end: nat)
    requires EduMatchAt(s, i, e1, p1, end)
    ensures i <= e1 <= |s| && All(s, i, e1, NotNewline) && DegreeWorks(s, e1)
    ensures end == LineEnd(s, SpaceEnd(s, SpaceEnd(s, e1) + 1))
  {
    assert !IsSpace(s[p1]);
    SpaceEndAt(s, e1, p1);
  }

  /**
   * At each position the engine's answer is the match with the shortest
   * degree; there is none exactly when the pattern cannot match there.
   */
  lemma EduAtFirst(s: string, i: nat)
    ensures EduAt(s, i).Some? ==>
              var m := EduAt(s, i).value.groups;
              && EduMatch(s, i, m.e1, m.end)
              && (forall e1: nat, end: nat :: e1 < m.e1 ==> !EduMatch(s, i, e1, end))
    ensures EduAt(s, i).None? <==> forall e1: nat, end: nat :: !EduMatch(s, i, e1, end)
  {
    if i <= |s| {
      var r := DegreeEnd(s, i);
      forall e1: nat, end: nat | EduMatch(s, i, e1, end)
        ensures r.Some? && r.value <= e1
      {
        EduMatchElim(s, i, e1, end);
      }
      if r.Some? {
        var e1 := r.value;
        var p1 := SpaceEnd(s, e1);
        assert EduMatchAt(s, i, e1, p1, EduAt(s, i).value.end);
      }
    } else {
      forall e1: nat, end: nat
        ensures !EduMatch(s, i, e1, end)
      {
      }
    }
  }

  /** Matches are non-empty and end inside the text, so `re.findall` can scan them. */
  lemma EdusWithin(s: string)
    ensures NonEmptyWithin(|s|, (p: nat) => EduAt(s, p))
  {
    var at := (p: nat) => EduAt(s, p);
    forall p: nat | p <= |s| && at(p).Some?
      ensures p < at(p).value.end <= |s|
    {
      EduAtShape(s, p);
    }
  }

  /** The matches `re.findall` collects, in order. */
  function Edus(s: string): (ms: seq<Match<EduSpan>>)
    ensures forall k :: 0 <= k < |ms| ==> ms[k].groups.i == ms[k].start && EduSpanOk(s, ms[k].groups)
  {
    EdusWithin(s);
    var at := (p: nat) => EduAt(s, p);
    var ms := FindAll(|s|, 0, at);
    forall k | 0 <= k < |ms|
      ensures ms[k].groups.i == ms[k].start && EduSpanOk(s, ms[k].groups)
    {
      assert at(ms[k].start) == Some(Hit(ms[k].groups, ms[k].end));
      EduAtShape(s, ms[k].start);
    }
    ms
  }

  /** One entry of the result: both groups, stripped. */
  function Entry(s: string, m: EduSpan): EducationEntry
    requires EduSpanOk(s, m)
  {
    EducationEntry(Strip(s[m.i..m.e1]), Strip(s[m.b..m.end]))
  }

  /** `_extract_education`: one entry per match; neither field spans a line break. */
  function ExtractEducation(s: string): (r: seq<EducationEntry>)
    ensures |r| == |Edus(s)|
    ensures forall k :: 0 <= k < |r| ==> '\n' !in r[k].degree && '\n' !in r[k].institution
  {
    var ms := Edus(s);
    var r := seq(|ms|, k requires 0 <= k < |ms| => Entry(s, ms[k].groups));
    forall k | 0 <= k < |r|
      ensures '\n' !in r[k].degree && '\n' !in r[k].institution
    {
      var m := ms[k].groups;
      StripWithin(s[m.i..m.e1]);
      StripWithin(s[m.b..m.end]);
    }
    r
  }

  /**
   * Each entry comes from a match at the position the scan reached:
   * the degree is what precedes the first bar (minus the whitespace
   * before it), the institution the rest of that line, and no match
   * starts in between.
   */
  lemma EducationMatches(s: string)
    ensures var r := ExtractEducation(s);
            var ms := Edus(s);
            forall k :: 0 <= k < |r| ==>
              var m := ms[k].groups;
              && EduMatch(s, ms[k].start, m.e1, m.end)
              && (forall e1: nat, end: nat :: e1 < m.e1 ==> !EduMatch(s, ms[k].start, e1, end))
              && m.i == ms[k].start && EduSpanOk(s, m) && EduGroupsPlaced(s, m)
              && r[k] == EducationEntry(Strip(s[m.i..m.e1]), Strip(s[m.b..LineEnd(s, m.b)]))
  {
    var r := ExtractEducation(s);
    var ms := Edus(s);
    EdusWithin(s);
    var at := (p: nat) => EduAt(s, p);
    assert ms == FindAll(|s|, 0, at);
    forall k | 0 <= k < |r|
      ensures var m := ms[k].groups;
              && EduMatch(s, ms[k].start, m.e1, m.end)
              && (forall e1: nat, end: nat :: e1 < m.e1 ==> !EduMatch(s, ms[k].start, e1, end))
              && m.i == ms[k].start && EduSpanOk(s, m) && EduGroupsPlaced(s, m)
              && r[k] == EducationEntry(Strip(s[m.i..m.e1]), Strip(s[m.b..LineEnd(s, m.b)]))
    {
      assert at(ms[k].start) == Some(Hit(ms[k].groups, ms[k].end));
      EduAtFirst(s, ms[k].start);
      EduAtShape(s, ms[k].start);
    }
  }

  /** Every entry uses up a bar of the text, so there are at most as many entries as bars. */
  lemma EducationCount(s: string)
    ensures |ExtractEducation(s)| <= Count(s, '|')
  {
    EdusWithin(s);
    var at := (p: nat) => EduAt(s, p);
    forall p: nat | p <= |s| && at(p).Some?
      ensures Count(s[p..at(p).value.end], '|') >= 1
    {
      EduAtShape(s, p);
      SpanHasBar(s, at(p).value.groups);
    }
    FindAllCount(s, '|', 1, 0, at);
    assert s[0..] == s;
    assert |Edus(s)| == |FindAll(|s|, 0, at)|;
  }

  /** A match holds its bar. */
  lemma SpanHasBar(s: string, m: EduSpan)
    requires EduSpanOk(s, m)
    ensures Count(s[m.i..m.end], '|') >= 1
  {
    var w := s[m.i..m.end];
    assert w[m.p1 - m.i] == '|';
  }

  /** Text without a bar has no education entry. */
  lemma NoBarNoEducation(s: string)
    requires '|' !in s
    ensures ExtractEducation(s) == []
  {
    EducationCount(s);
  }

  /**
   * The `\s*` after the bar crosses line feeds: a bar that ends its line
   * takes the next line as the institution, and that line gives no entry
   * of its own.
   */
  lemma InstitutionOnNextLine()
    ensures ExtractEducation("A |\nB | C") == [EducationEntry("A", "B | C")]
  {
    var s := "A |\nB | C";
    EdusAcrossLine();
    EntryAcrossLine();
    var r := ExtractEducation(s);
    assert |r| == 1;
    assert r[0] == Entry(s, EduSpan(0, 1, 2, 4, 9));
  }

  /** The example's one match gives degree "A" and institution "B | C". */
  lemma EntryAcrossLine()
    ensures EduSpanOk("A |\nB | C", EduSpan(0, 1, 2, 4, 9))
    ensures Entry("A |\nB | C", EduSpan(0, 1, 2, 4, 9)) == EducationEntry("A", "B | C")
  {
    var s := "A |\nB | C";
    EduAtAcrossLine();
    EduAtShape(s, 0);
    assert s[0..1] == "A" && s[4..9] == "B | C";
    StripNoop("A");
    StripNoop("B | C");
  }

  /** The scan of the example finds one match, from its start to its end. */
  lemma EdusAcrossLine()
    ensures Edus("A |\nB | C") == [Match(0, EduSpan(0, 1, 2, 4, 9), 9)]
  {
    var s := "A |\nB | C";
    var at := (p: nat) => EduAt(s, p);
    EduAtAcrossLine();
    assert at(9).None?;
    EdusWithin(s);
    assert FindAll(9, 9, at) == [];
    assert Edus(s) == FindAll(9, 0, at);
  }

  /** At the example's start the degree is "A", the bar ends the line and the institution is the next line. */
  lemma EduAtAcrossLine()
    ensures EduAt("A |\nB | C", 0) == Some(Hit(EduSpan(0, 1, 2, 4, 9), 9))
  {
    var s := "A |\nB | C";
    assert !DegreeWorks(s, 0) by { SpaceEndAt(s, 0, 0); }
    assert DegreeWorks(s, 1) by { SpaceEndAt(s, 1, 2); }
    assert DegreeEnd(s, 0) == Some(1);
    SpaceEndAt(s, 3, 4);
    SkipWhileUnique(s, 4, 9, NotNewline);
  }
}
