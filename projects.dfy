/**
 * `ResumeParser._extract_projects`: the first match of
 * `Project.*?\n(.*?)(?=\n\n|\n#)` (DOTALL) is the project section, and
 * `### (.*?)\n(.*?)(?=\n###|\n$)` (DOTALL) is searched inside it.  The
 * section stops at the first line feed that is followed by a blank line
 * or a `#`, so the lookahead of the inner pattern can never be satisfied
 * inside it: the result is always empty (`ProjectsAlwaysEmpty`).
 */
module Projects {
  import opened Wrappers
  import opened Text
  import opened Regex

  datatype Project = Project(name: string, description: string)

  /** The word that opens the project section. */
  const SectionWord: string := "Project"

  /** The project heading marker. */
  const Heading: string := "### "

  // ---------------------------------------------------------------------
  // The section: Project.*?\n(.*?)(?=\n\n|\n#)
  // ---------------------------------------------------------------------

  /** `(?=\n\n|\n#)` holds at `e`. */
  predicate SectionStop(s: string, e: nat)
  {
    e + 2 <= |s| && s[e] == '\n' && (s[e + 1] == '\n' || s[e + 1] == '#')
  }

  /**
   * The section pattern can match at `i` with its first `.*?` ending at
   * the line feed at `nl` and the group being `s[nl + 1..e]`.
   */
  ghost predicate SectionMatch(s: string, i: nat, nl: nat, e: nat)
  {
    && i + |SectionWord| <= nl < |s| && OccursAt(s, SectionWord, i) && s[nl] == '\n'
    && nl + 1 <= e && SectionStop(s, e)
  }

  /** The first `(?=\n\n|\n#)` at or after `x`: how far the lazy group reaches. */
  function SectionEnd(s: string, x: nat): (r: Option<nat>)
    requires x <= |s|
    ensures r.Some? ==> x <= r.value && SectionStop(s, r.value)
    ensures r.Some? ==> forall y: nat :: x <= y < r.value ==> !SectionStop(s, y)
    ensures r.None? ==> forall y: nat :: x <= y ==> !SectionStop(s, y)
  {
    var ok := (y: nat) => SectionStop(s, y);
    var r := LazyAny(|s|, x, ok);
    assert r.Some? ==> ok(r.value);
    assert forall y: nat :: ok(y) == SectionStop(s, y);
    r
  }

  /**
   * What the section pattern returns when tried at `i`: the first `.*?`
   * stops at the first line feed, and the group at the first stop after
   * it.  A later line feed would only leave fewer stops to choose from.
   */
  function SectionAt(s: string, i: nat): (r: Option<Hit<string>>)
  {
    if i + |SectionWord| <= |s| && OccursAt(s, SectionWord, i) then
      var nl := IndexOf(s, '\n', i + |SectionWord|);
      if nl < |s| then
        match SectionEnd(s, nl + 1)
        case None => None
        case Some(e) => Some(Hit(s[nl + 1..e], e))
      else None
    else None
  }

  /**
   * At each position the engine's answer is the match whose first `.*?`
   * is shortest and, for it, whose group is shortest; there is none
   * exactly when the pattern cannot match there.
   */
  lemma SectionAtFirst(s: string, i: nat)
    ensures SectionAt(s, i).Some? ==>
              exists nl: nat ::
                && SectionMatch(s, i, nl, SectionAt(s, i).value.end)
                && SectionAt(s, i).value.groups == s[nl + 1..SectionAt(s, i).value.end]
                && (forall nl': nat, e: nat :: SectionMatch(s, i, nl', e) ==> nl <= nl')
                && (forall e: nat :: SectionMatch(s, i, nl, e) ==> SectionAt(s, i).value.end <= e)
    ensures SectionAt(s, i).None? <==> forall nl: nat, e: nat :: !SectionMatch(s, i, nl, e)
  {
    forall nl': nat, e: nat | SectionMatch(s, i, nl', e)
      ensures SectionAt(s, i).Some?
      ensures IndexOf(s, '\n', i + |SectionWord|) <= nl'
    {
      var nl := IndexOf(s, '\n', i + |SectionWord|);
      assert nl <= nl';
      assert SectionEnd(s, nl + 1).Some?;
    }
    if SectionAt(s, i).Some? {
      var nl := IndexOf(s, '\n', i + |SectionWord|);
      assert SectionMatch(s, i, nl, SectionAt(s, i).value.end);
    }
  }

  /** Matches are non-empty and end inside the text, so `re.findall` can scan them. */
  lemma SectionsWithin(s: string)
    ensures NonEmptyWithin(|s|, (p: nat) => SectionAt(s, p))
  {
  }

  /** `project_section[0]`, when `re.findall` finds any section: the leftmost match. */
  function Section(s: string): (r: Option<string>)
  {
    SectionsWithin(s);
    match Search(|s|, 0, (p: nat) => SectionAt(s, p))
    case None => None
    case Some(m) => Some(m.groups)
  }

  // ---------------------------------------------------------------------
  // The projects inside it: ### (.*?)\n(.*?)(?=\n###|\n$)
  // ---------------------------------------------------------------------

  /**
   * `(?=\n###|\n$)` holds at `y` in the section `b`; without MULTILINE,
   * `$` matches at the end and just before a final line feed.
   */
  predicate ProjectStop(b: string, y: nat)
  {
    && y < |b| && b[y] == '\n'
    && ((y + 4 <= |b| && b[y + 1..y + 4] == "###") || y + 1 == |b| || (y + 2 == |b| && b[y + 1] == '\n'))
  }

  /** The first `(?=\n###|\n$)` at or after `x` in `b`. */
  function ProjectEnd(b: string, x: nat): (r: Option<nat>)
    requires x <= |b|
    ensures r.Some? ==> x <= r.value && ProjectStop(b, r.value)
    ensures r.Some? ==> forall y: nat :: x <= y < r.value ==> !ProjectStop(b, y)
    ensures r.None? ==> forall y: nat :: x <= y ==> !ProjectStop(b, y)
  {
    var ok := (y: nat) => ProjectStop(b, y);
    var r := LazyAny(|b|, x, ok);
    assert r.Some? ==> ok(r.value);
    assert forall y: nat :: ok(y) == ProjectStop(b, y);
    r
  }

  /** The name and description groups of one project match. */
  datatype ProjectGroups = ProjectGroups(name: string, description: string)

  /**
   * What the project pattern returns when tried at `j` in the section
   * `b`: the name runs to the first line feed, the description to the
   * first lookahead position after it.
   */
  function ProjectAt(b: string, j: nat): (r: Option<Hit<ProjectGroups>>)
    ensures r.Some? ==> j < r.value.end && ProjectStop(b, r.value.end)
  {
    if j + |Heading| <= |b| && OccursAt(b, Heading, j) then
      var x := IndexOf(b, '\n', j + |Heading|);
      if x < |b| then
        match ProjectEnd(b, x + 1)
        case None => None
        case Some(y) => Some(Hit(ProjectGroups(b[j + |Heading|..x], b[x + 1..y]), y))
      else None
    else None
  }

  /** `str.replace('\n', ' ')`. */
  function NewlinesToSpaces(s: string): (r: string)
    ensures |r| == |s| && '\n' !in r
    ensures forall k :: 0 <= k < |s| && s[k] != '\n' ==> r[k] == s[k]
  {
    seq(|s|, k requires 0 <= k < |s| => if s[k] == '\n' then ' ' else s[k])
  }

  /** The projects `re.findall` finds in a section, converted as the parser does. */
  function ProjectsIn(b: string): (r: seq<Project>)
    ensures forall k :: 0 <= k < |r| ==> '\n' !in r[k].description
  {
    assert NonEmptyWithin(|b|, (p: nat) => ProjectAt(b, p)) by {
      forall p: nat | p <= |b| && ProjectAt(b, p).Some?
        ensures p < ProjectAt(b, p).value.end <= |b|
      {
      }
    }
    var ms := FindAll(|b|, 0, (p: nat) => ProjectAt(b, p));
    seq(|ms|, k requires 0 <= k < |ms| =>
      Project(Strip(ms[k].groups.name), NewlinesToSpaces(Strip(ms[k].groups.description))))
  }

  /** `_extract_projects`: the projects of the first section, or none without a section. */
  function ExtractProjects(s: string): seq<Project>
  {
    match Section(s)
    case None => []
    case Some(b) => ProjectsIn(b)
  }

  // ---------------------------------------------------------------------
  // Why nothing is ever found
  // ---------------------------------------------------------------------

  /**
   * A section ends at its first stop, and every place where the inner
   * lookahead could hold would be an earlier stop: the section holds no
   * such place.
   */
  lemma NoProjectStopInSection(s: string, i: nat)
    requires SectionAt(s, i).Some?
    ensures forall y: nat :: !ProjectStop(SectionAt(s, i).value.groups, y)
  {
    var nl := IndexOf(s, '\n', i + |SectionWord|);
    var e := SectionAt(s, i).value.end;
    var b := SectionAt(s, i).value.groups;
    assert b == s[nl + 1..e] && SectionStop(s, e);
    forall y: nat | y < |b|
      ensures !ProjectStop(b, y)
    {
      var p := nl + 1 + y;
      assert s[p] == b[y];
      assert !SectionStop(s, p);
      if y + 1 < |b| {
        assert s[p + 1] == b[y + 1];
        if y + 4 <= |b| {
          assert b[y + 1..y + 4][0] == b[y + 1];
        }
      } else {
        assert p + 1 == e;
      }
    }
  }

  /** A section without a place for the inner lookahead has no project in it. */
  lemma NoProjectsWithoutStop(b: string)
    requires forall y: nat :: !ProjectStop(b, y)
    ensures ProjectsIn(b) == []
  {
    var at := (p: nat) => ProjectAt(b, p);
    assert forall p: nat :: at(p).None?;
    assert Search(|b|, 0, at).None?;
  }

  /** Whatever the text, `_extract_projects` returns no project. */
  lemma ProjectsAlwaysEmpty(s: string)
    ensures ExtractProjects(s) == []
  {
    SectionsWithin(s);
    var at := (p: nat) => SectionAt(s, p);
    var r := Search(|s|, 0, at);
    if r.Some? {
      var m := r.value;
      assert at(m.start) == Some(Hit(m.groups, m.end));
      NoProjectStopInSection(s, m.start);
      NoProjectsWithoutStop(m.groups);
    }
  }

  /** The inner pattern on its own does find projects: a heading, a name line and a description. */
  lemma ProjectPatternAlone()
    ensures ProjectsIn("### A\nB\n") == [Project("A", "B")]
  {
    var b := "### A\nB\n";
    var at := (p: nat) => ProjectAt(b, p);
    ExampleFirstProject();
    assert at(0) == Some(Hit(ProjectGroups("A", "B"), 7));
    assert at(7).None? && at(8).None?;
    assert NonEmptyWithin(|b|, at) by {
      forall p: nat | p <= |b| && at(p).Some?
        ensures p < at(p).value.end <= |b|
      {
      }
    }
    assert Search(|b|, 7, at).None?;
    assert FindAll(|b|, 7, at) == [];
    assert FindAll(|b|, 0, at) == [Match(0, ProjectGroups("A", "B"), 7)];
    StripNoop("A");
    StripNoop("B");
    assert NewlinesToSpaces("B") == "B";
  }

  /** The first project of the example. */
  lemma ExampleFirstProject()
    ensures ProjectAt("### A\nB\n", 0) == Some(Hit(ProjectGroups("A", "B"), 7))
  {
    var b := "### A\nB\n";
    assert OccursAt(b, Heading, 0);
    IndexOfUnique(b, '\n', 4, 5);
    assert !ProjectStop(b, 6) && ProjectStop(b, 7);
    assert ProjectEnd(b, 6) == Some(7);
    assert ProjectAt(b, 0) == Some(Hit(ProjectGroups(b[4..5], b[6..7]), 7));
    assert b[4..5] == "A" && b[6..7] == "B";
  }
}
