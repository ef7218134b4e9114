/**
 * `ResumeParser._extract_work_experience`: entries of the form
 * `title | company | Mon YYYY - Mon YYYY`, found by `re.findall` with
 * `(.*?)\s*\|\s*(.*?)\s*\|\s*([A-Za-z]+\s+\d{4}\s*-\s*[A-Za-z]+\s+\d{4})`.
 * The MULTILINE flag changes nothing, as the pattern has no `^` or `$`;
 * `.` stops at a line feed but `\s` does not.
 */
module Experience {
  import opened Wrappers
  import opened Text
  import opened Regex

  datatype WorkExperience = WorkExperience(jobTitle: string, company: string, duration: string)

  // ---------------------------------------------------------------------
  // The duration: [A-Za-z]+\s+\d{4}\s*-\s*[A-Za-z]+\s+\d{4}
  // ---------------------------------------------------------------------

  /** `[A-Za-z]+\s+\d{4}` matches `s[a..e]`, its letters ending at `l` and its digits starting at `d`. */
  ghost predicate MonthYearAt(s: string, a: nat, l: nat, d: nat, e: nat)
  {
    && a < l < d && d + 4 == e && e <= |s|
    && All(s, a, l, IsLetter) && All(s, l, d, IsSpace) && All(s, d, e, IsDigit)
  }

  /**
   * Where `[A-Za-z]+\s+\d{4}` ends when it starts at `a`.  Both runs are
   * greedy and each is followed by a character outside its class, so
   * only their longest extent can succeed.
   */
  function MonthYearEnd(s: string, a: nat): (r: Option<nat>)
    requires a <= |s|
    ensures r.Some? ==>
              var l := SkipWhile(s, a, IsLetter);
              l <= |s| && MonthYearAt(s, a, l, SpaceEnd(s, l), r.value)
  {
    var l := SkipWhile(s, a, IsLetter);
    var d := SpaceEnd(s, l);
    if l == a || d == l || d + 4 > |s| || !All(s, d, d + 4, IsDigit) then None
    else Some(d + 4)
  }

  /** Any way `[A-Za-z]+\s+\d{4}` can match at `a` is the one `MonthYearEnd` finds. */
  lemma MonthYearForced(s: string, a: nat, l: nat, d: nat, e: nat)
    requires MonthYearAt(s, a, l, d, e)
    ensures MonthYearEnd(s, a) == Some(e)
    ensures IsLetter(s[a]) && IsDigit(s[e - 1])
  {
    assert !IsLetter(s[l]);
    SkipWhileUnique(s, a, l, IsLetter);
    assert !IsSpace(s[d]);
    SpaceEndAt(s, l, d);
  }

  /**
   * Where the parts of a date range lie: the first month's letters end at
   * `l1` and its year starts at `d1` and ends at `m1`; the dash is at `h`;
   * the second month starts at `m2`, its letters end at `l2` and its year
   * starts at `d2`.
   */
  datatype DateSpan = DateSpan(l1: nat, d1: nat, m1: nat, h: nat, m2: nat, l2: nat, d2: nat)

  /** The third group's pattern matches `s[g..end]` with its parts at `w`. */
  ghost predicate DateRangeAt(s: string, g: nat, w: DateSpan, end: nat)
  {
    && MonthYearAt(s, g, w.l1, w.d1, w.m1) && w.m1 <= w.h < |s| && All(s, w.m1, w.h, IsSpace) && s[w.h] == '-'
    && w.h + 1 <= w.m2 <= |s| && All(s, w.h + 1, w.m2, IsSpace) && MonthYearAt(s, w.m2, w.l2, w.d2, end)
  }

  /** The third group's pattern matches `s[g..end]`. */
  ghost predicate DateRange(s: string, g: nat, end: nat)
  {
    exists w: DateSpan :: DateRangeAt(s, g, w, end)
  }

  /** Where the date range starting at `g` ends, if one starts there. */
  function DateRangeEnd(s: string, g: nat): (r: Option<nat>)
    requires g <= |s|
    ensures r.Some? ==> g < r.value <= |s|
  {
    match MonthYearEnd(s, g)
    case None => None
    case Some(m1) =>
      var h := SpaceEnd(s, m1);
      if h < |s| && s[h] == '-' then
        var m2 := SpaceEnd(s, h + 1);
        match MonthYearEnd(s, m2)
        case None => None
        case Some(end) =>
          Some(end)
      else None
  }

  /** What `DateRangeEnd` finds is a date range. */
  lemma DateRangeEndSound(s: string, g: nat)
    requires g <= |s| && DateRangeEnd(s, g).Some?
    ensures DateRange(s, g, DateRangeEnd(s, g).value)
  {
    var m1 := MonthYearEnd(s, g).value;
    var h := SpaceEnd(s, m1);
    var m2 := SpaceEnd(s, h + 1);
    var end := MonthYearEnd(s, m2).value;
    var l1 := SkipWhile(s, g, IsLetter);
    var l2 := SkipWhile(s, m2, IsLetter);
    assert DateRangeAt(s, g, DateSpan(l1, SpaceEnd(s, l1), m1, h, m2, l2, SpaceEnd(s, l2)), end);
  }

  /**
   * A date range can end in one place only, the one `DateRangeEnd`
   * finds: the spaces around the dash are taken greedily, since a dash,
   * a letter or a digit must follow them.  It starts with a letter and
   * ends with a digit.
   */
  lemma DateRangeForced(s: string, g: nat, end: nat)
    requires DateRange(s, g, end)
    ensures g < end <= |s| && DateRangeEnd(s, g) == Some(end)
    ensures IsLetter(s[g]) && IsDigit(s[end - 1])
  {
    var w: DateSpan :| DateRangeAt(s, g, w, end);
    DateRangeAtForced(s, g, w, end);
  }

  lemma DateRangeAtForced(s: string, g: nat, w: DateSpan, end: nat)
    requires DateRangeAt(s, g, w, end)
    ensures g < end <= |s| && DateRangeEnd(s, g) == Some(end)
    ensures IsLetter(s[g]) && IsDigit(s[end - 1])
  {
    MonthYearForced(s, g, w.l1, w.d1, w.m1);
    MonthYearForced(s, w.m2, w.l2, w.d2, end);
    assert !IsSpace(s[w.h]);
    SpaceEndAt(s, w.m1, w.h);
    LetterNotSpace(s[w.m2]);
    SpaceEndAt(s, w.h + 1, w.m2);
    DateRangeEndSteps(s, g, w.m1, w.h, w.m2, end);
  }

  /** `DateRangeEnd` from the results of its steps. */
  lemma DateRangeEndSteps(s: string, g: nat, m1: nat, h: nat, m2: nat, end: nat)
    requires g <= |s| && MonthYearEnd(s, g) == Some(m1)
    requires h < |s| && SpaceEnd(s, m1) == h && s[h] == '-'
    requires SpaceEnd(s, h + 1) == m2 && MonthYearEnd(s, m2) == Some(end)
    ensures DateRangeEnd(s, g) == Some(end)
  {
  }

  /** `DateRangeEnd` is exact: it finds an end precisely when the pattern matches up to it. */
  lemma DateRangeEndIff(s: string, g: nat, end: nat)
    requires g <= |s|
    ensures DateRange(s, g, end) <==> DateRangeEnd(s, g) == Some(end)
  {
    if DateRange(s, g, end) {
      DateRangeForced(s, g, end);
    }
    if DateRangeEnd(s, g) == Some(end) {
      DateRangeEndSound(s, g);
    }
  }

  // ---------------------------------------------------------------------
  // After the company: \s*\|\s*(date range)
  // ---------------------------------------------------------------------

  /** Where the bar after the company and the date range after it start. */
  datatype TailSpan = TailSpan(p2: nat, g: nat)

  /** `\s*\|\s*` and a date range ending at `end`, laid out as `t` after a company ending at `e2`. */
  ghost predicate TailAt(s: string, e2: nat, t: TailSpan, end: nat)
  {
    && e2 <= t.p2 < |s| && All(s, e2, t.p2, IsSpace) && s[t.p2] == '|'
    && t.p2 + 1 <= t.g <= |s| && All(s, t.p2 + 1, t.g, IsSpace) && DateRange(s, t.g, end)
  }

  /** `\s*\|\s*` and a date range, starting where the company ends. */
  ghost predicate TailMatch(s: string, e2: nat, end: nat)
  {
    exists t: TailSpan :: TailAt(s, e2, t, end)
  }

  /**
   * The end of the tail after a company ending at `e2`.  The whitespace
   * runs before and after the bar are greedy, and only their longest
   * extent can be followed by the bar and by the letter a date range
   * starts with.
   */
  function Tail(s: string, e2: nat): (r: Option<nat>)
    requires e2 <= |s|
    ensures r.Some? ==> e2 < r.value <= |s|
  {
    var p2 := SpaceEnd(s, e2);
    if p2 < |s| && s[p2] == '|' then DateRangeEnd(s, SpaceEnd(s, p2 + 1)) else None
  }

  /** What `Tail` finds is a tail. */
  lemma TailSound(s: string, e2: nat)
    requires e2 <= |s| && Tail(s, e2).Some?
    ensures TailMatch(s, e2, Tail(s, e2).value)
  {
    var p2 := SpaceEnd(s, e2);
    assert p2 < |s| && s[p2] == '|';
    var g := SpaceEnd(s, p2 + 1);
    TailUnfold(s, e2);
    DateRangeEndSound(s, g);
    var end := DateRangeEnd(s, g).value;
    assert TailAt(s, e2, TailSpan(p2, g), end);
  }

  /** Any tail is the one `Tail` finds. */
  lemma TailForced(s: string, e2: nat, end: nat)
    requires e2 <= |s| && TailMatch(s, e2, end)
    ensures Tail(s, e2) == Some(end)
  {
    var t: TailSpan :| TailAt(s, e2, t, end);
    TailAtForced(s, e2, t, end);
  }

  /** The tail laid out as `t` is the one `Tail` finds. */
  lemma TailAtForced(s: string, e2: nat, t: TailSpan, end: nat)
    requires e2 <= |s| && TailAt(s, e2, t, end)
    ensures Tail(s, e2) == Some(end)
  {
    DateRangeForced(s, t.g, end);
    LetterNotSpace(s[t.g]);
    assert !IsSpace(s[t.p2]);
    TailFromParts(s, e2, t.p2, t.g, end);
  }

  /** `Tail` from a bar and a date range that start where the whitespace before them stops. */
  lemma TailFromParts(s: string, e2: nat, p2: nat, g: nat, end: nat)
    requires e2 <= p2 < g < |s| && All(s, e2, p2, IsSpace) && !IsSpace(s[p2]) && s[p2] == '|'
    requires All(s, p2 + 1, g, IsSpace) && !IsSpace(s[g]) && DateRangeEnd(s, g) == Some(end)
    ensures Tail(s, e2) == Some(end)
  {
    SpaceEndAt(s, e2, p2);
    SpaceEndAt(s, p2 + 1, g);
    TailUnfold(s, e2);
  }

  /** `Tail`'s definition, as one equation. */
  lemma TailUnfold(s: string, e2: nat)
    requires e2 <= |s|
    ensures Tail(s, e2) == (var q := SpaceEnd(s, e2); if q < |s| && s[q] == '|' then DateRangeEnd(s, SpaceEnd(s, q + 1)) else None)
  {
  }

  // ---------------------------------------------------------------------
  // The whole pattern
  // ---------------------------------------------------------------------

  /** The match at `i` with the first bar at `p1`, as `JobMatch` describes it. */
  ghost predicate JobMatchAt(s: string, i: nat, e1: nat, p1: nat, e2: nat, end: nat)
  {
    && i <= e1 <= p1 < |s| && All(s, i, e1, NotNewline) && All(s, e1, p1, IsSpace) && s[p1] == '|'
    && var b := SpaceEnd(s, p1 + 1);
    && b <= e2 <= |s| && All(s, b, e2, NotNewline) && TailMatch(s, e2, end)
  }

  /**
   * The pattern matches at `i` with the title `s[i..e1]`, the company
   * ending at `e2` and the whole match ending at `end`.  The `\s*` after
   * the first bar is taken greedily (the company starts at the end of the
   * whitespace): a shorter choice only hands whitespace to the lazy
   * company group, whose every way of ending is then also open to the
   * greedy choice, so the engine never keeps a shorter one.
   */
  ghost predicate JobMatch(s: string, i: nat, e1: nat, e2: nat, end: nat)
  {
    exists p1: nat :: JobMatchAt(s, i, e1, p1, e2, end)
  }

  /** A company ending at `e2` can be followed by the tail. */
  predicate CompanyWorks(s: string, e2: nat)
  {
    e2 <= |s| && Tail(s, e2).Some?
  }

  /** The lazy company group `(.*?)` from `b`: the first end on the line that a tail can follow. */
  function CompanyEnd(s: string, b: nat): (r: Option<nat>)
    requires b <= |s|
    ensures r.Some? ==> b <= r.value <= |s| && All(s, b, r.value, NotNewline) && CompanyWorks(s, r.value)
    ensures r.Some? ==> forall y: nat :: b <= y < r.value ==> !CompanyWorks(s, y)
    ensures r.None? ==> forall y: nat :: b <= y <= |s| && All(s, b, y, NotNewline) ==> !CompanyWorks(s, y)
  {
    var ok := (y: nat) => CompanyWorks(s, y);
    var r := LazyLine(s, b, b, ok);
    assert r.Some? ==> ok(r.value);
    assert forall y: nat :: ok(y) == CompanyWorks(s, y);
    r
  }

  /** Where the company starts when the title ends at `e1`: past the bar and the whitespace after it. */
  function CompanyStart(s: string, e1: nat): (b: nat)
    requires e1 <= |s|
    ensures SpaceEnd(s, e1) < |s| ==> b <= |s|
  {
    var p1 := SpaceEnd(s, e1);
    if p1 < |s| then SpaceEnd(s, p1 + 1) else |s|
  }

  /** A title ending at `e1` can be followed by the rest of the pattern. */
  predicate TitleWorks(s: string, e1: nat)
  {
    && e1 <= |s|
    && var p1 := SpaceEnd(s, e1);
    && p1 < |s| && s[p1] == '|' && CompanyEnd(s, CompanyStart(s, e1)).Some?
  }

  /** The lazy title group `(.*?)` from `i`: the first end on the line that the rest can follow. */
  function TitleEnd(s: string, i: nat): (r: Option<nat>)
    requires i <= |s|
    ensures r.Some? ==> i <= r.value <= |s| && All(s, i, r.value, NotNewline) && TitleWorks(s, r.value)
    ensures r.Some? ==> forall y: nat :: i <= y < r.value ==> !TitleWorks(s, y)
    ensures r.None? ==> forall y: nat :: i <= y <= |s| && All(s, i, y, NotNewline) ==> !TitleWorks(s, y)
  {
    var ok := (y: nat) => TitleWorks(s, y);
    var r := LazyLine(s, i, i, ok);
    assert r.Some? ==> ok(r.value);
    assert forall y: nat :: ok(y) == TitleWorks(s, y);
    r
  }

  /**
   * Positions of one match: the title is `s[i..e1]`, the bars are at `p1`
   * and `p2`, the company is `s[b..e2]` and the duration `s[g..end]`.
   */
  datatype JobSpan = JobSpan(i: nat, e1: nat, p1: nat, b: nat, e2: nat, p2: nat, g: nat, end: nat)

  /** The layout every match has. */
  predicate JobSpanOk(s: string, m: JobSpan)
  {
    && m.i <= m.e1 <= m.p1 < m.b <= m.e2 <= m.p2 < m.g < m.end <= |s|
    && s[m.p1] == '|' && s[m.p2] == '|'
    && All(s, m.i, m.e1, NotNewline) && All(s, m.b, m.e2, NotNewline)
    && IsLetter(s[m.g]) && IsDigit(s[m.end - 1])
  }

  /**
   * Where the pattern puts each bar and each group after one: the bar
   * where the whitespace after the group before it stops, the next group
   * where the whitespace after the bar stops.
   */
  predicate JobGroupsPlaced(s: string, m: JobSpan)
  {
    && m.e1 <= |s| && m.p1 == SpaceEnd(s, m.e1)
    && m.p1 < |s| && m.b == SpaceEnd(s, m.p1 + 1)
    && m.e2 <= |s| && m.p2 == SpaceEnd(s, m.e2)
    && m.p2 < |s| && m.g == SpaceEnd(s, m.p2 + 1)
  }

  /** What the pattern returns when tried at `i`. */
  function JobAt(s: string, i: nat): (r: Option<Hit<JobSpan>>)
  {
    if i > |s| then None
    else
      match TitleEnd(s, i)
      case None => None
      case Some(e1) => Some(JobFrom(s, i, e1))
  }

  /** The match at `i` once the title is known to end at `e1`. */
  function JobFrom(s: string, i: nat, e1: nat): (h: Hit<JobSpan>)
    requires i <= e1 && TitleWorks(s, e1)
    ensures h.groups.i == i && h.groups.e1 == e1 && JobGroupsPlaced(s, h.groups)
  {
    var p1 := SpaceEnd(s, e1);
    var b := CompanyStart(s, e1);
    var e2 := CompanyEnd(s, b).value;
    var p2 := SpaceEnd(s, e2);
    var end := Tail(s, e2).value;
    Hit(JobSpan(i, e1, p1, b, e2, p2, SpaceEnd(s, p2 + 1), end), end)
  }

  /** A title that works, with the first company end that works, is a match. */
  lemma JobMatchIntro(s: string, i: nat, e1: nat)
    requires i <= e1 <= |s| && All(s, i, e1, NotNewline) && TitleWorks(s, e1)
    ensures var b := CompanyStart(s, e1);
            var e2 := CompanyEnd(s, b).value;
            JobMatch(s, i, e1, e2, Tail(s, e2).value)
  {
    var p1 := SpaceEnd(s, e1);
    assert p1 < |s| && s[p1] == '|';
    var b := CompanyStart(s, e1);
    assert SpaceEnd(s, p1 + 1) == b;
    var c := CompanyEnd(s, b);
    assert c.Some?;
    var e2 := c.value;
    assert b <= e2 <= |s| && All(s, b, e2, NotNewline) && CompanyWorks(s, e2);
    var t := Tail(s, e2);
    TailSound(s, e2);
    assert JobMatchAt(s, i, e1, p1, e2, t.value);
  }

  /**
   * Every match has a title that works and a company end no earlier
   * than the first one that works, and the tail `Tail` finds.
   */
  lemma JobMatchElim(s: string, i: nat, e1: nat, e2: nat, end: nat)
    requires JobMatch(s, i, e1, e2, end)
    ensures i <= e1 <= |s| && All(s, i, e1, NotNewline) && TitleWorks(s, e1)
    ensures var b := CompanyStart(s, e1); CompanyEnd(s, b).value <= e2
    ensures Tail(s, e2) == Some(end)
  {
    var p1: nat :| JobMatchAt(s, i, e1, p1, e2, end);
    JobMatchAtElim(s, i, e1, p1, e2, end);
  }

  /** `JobMatchElim` for a match whose first bar is at `p1`. */
  lemma JobMatchAtElim(s: string, i: nat, e1: nat, p1: nat, e2: nat, end: nat)
    requires JobMatchAt(s, i, e1, p1, e2, end)
    ensures i <= e1 <= |s| && All(s, i, e1, NotNewline) && TitleWorks(s, e1)
    ensures var b := CompanyStart(s, e1); CompanyEnd(s, b).value <= e2
    ensures Tail(s, e2) == Some(end)
  {
    assert !IsSpace(s[p1]);
    SpaceEndAt(s, e1, p1);
    TailForced(s, e2, end);
    var b := SpaceEnd(s, p1 + 1);
    assert CompanyStart(s, e1) == b;
    assert CompanyWorks(s, e2);
    assert CompanyEnd(s, b).Some?;
  }

  /**
   * At each position the engine's answer is the match with the shortest
   * title and, for that title, the shortest company; there is none
   * exactly when the pattern cannot match there.
   */
  lemma JobAtFirst(s: string, i: nat)
    ensures JobAt(s, i).Some? ==>
              var m := JobAt(s, i).value.groups;
              && JobMatch(s, i, m.e1, m.e2, m.end)
              && (forall e1: nat, e2: nat, end: nat :: e1 < m.e1 ==> !JobMatch(s, i, e1, e2, end))
              && (forall e2: nat, end: nat :: e2 < m.e2 ==> !JobMatch(s, i, m.e1, e2, end))
    ensures JobAt(s, i).None? <==> forall e1: nat, e2: nat, end: nat :: !JobMatch(s, i, e1, e2, end)
  {
    if i <= |s| {
      var r := TitleEnd(s, i);
      forall e1: nat, e2: nat, end: nat | JobMatch(s, i, e1, e2, end)
        ensures r.Some? && r.value <= e1
        ensures r.value == e1 ==> CompanyEnd(s, CompanyStart(s, e1)).value <= e2
      {
        JobMatchElim(s, i, e1, e2, end);
      }
      if r.Some? {
        JobMatchIntro(s, i, r.value);
      }
    } else {
      forall e1: nat, e2: nat, end: nat
        ensures !JobMatch(s, i, e1, e2, end)
      {
      }
    }
  }

  /** Every match has the layout `JobSpanOk` describes, and its third group is a date range. */
  lemma JobAtShape(s: string, i: nat)
    requires JobAt(s, i).Some?
    ensures var h := JobAt(s, i).value;
            && h.groups.i == i && h.groups.end == h.end
            && JobSpanOk(s, h.groups) && JobGroupsPlaced(s, h.groups) && DateRange(s, h.groups.g, h.end)
  {
    var e1 := TitleEnd(s, i).value;
    assert JobAt(s, i).value == JobFrom(s, i, e1);
    JobFromShape(s, i, e1);
  }

  /** `JobAtShape` once the title is known. */
  lemma JobFromShape(s: string, i: nat, e1: nat)
    requires i <= e1 && TitleWorks(s, e1) && All(s, i, e1, NotNewline)
    ensures var h := JobFrom(s, i, e1);
            && h.groups.i == i && h.groups.end == h.end
            && JobSpanOk(s, h.groups) && DateRange(s, h.groups.g, h.end)
  {
    var p1 := SpaceEnd(s, e1);
    assert p1 < |s| && s[p1] == '|';
    var b := CompanyStart(s, e1);
    assert b == SpaceEnd(s, p1 + 1);
    var e2 := CompanyEnd(s, b).value;
    assert b <= e2 <= |s| && All(s, b, e2, NotNewline) && CompanyWorks(s, e2);
    var p2, g, end := TailShape(s, e2);
    JobFromUnfold(s, i, e1);
    var h := JobFrom(s, i, e1);
    assert h.groups == JobSpan(i, e1, p1, b, e2, p2, g, end) && h.end == end;
    assert JobSpanOk(s, h.groups);
  }

  /** `JobFrom`'s definition, as one equation. */
  lemma JobFromUnfold(s: string, i: nat, e1: nat)
    requires i <= e1 && TitleWorks(s, e1)
    ensures JobFrom(s, i, e1) ==
            var p1 := SpaceEnd(s, e1);
            var b := CompanyStart(s, e1);
            var e2 := CompanyEnd(s, b).value;
            var p2 := SpaceEnd(s, e2);
            var end := Tail(s, e2).value;
            Hit(JobSpan(i, e1, p1, b, e2, p2, SpaceEnd(s, p2 + 1), end), end)
  {
  }

  /** A tail has its bar where the whitespace after the company stops, then a date range. */
  lemma TailShape(s: string, e2: nat) returns (p2: nat, g: nat, end: nat)
    requires e2 <= |s| && Tail(s, e2).Some?
    ensures p2 == SpaceEnd(s, e2) && p2 < |s| && s[p2] == '|'
    ensures g == SpaceEnd(s, p2 + 1) && Some(end) == Tail(s, e2)
    ensures g < end && IsLetter(s[g]) && IsDigit(s[end - 1]) && DateRange(s, g, end)
  {
    p2, g := TailBar(s, e2);
    end := DateRangeEndShape(s, g);
  }

  /** A tail that is found has its bar where the whitespace stops, and its date range after the next run. */
  lemma TailBar(s: string, e2: nat) returns (p2: nat, g: nat)
    requires e2 <= |s| && Tail(s, e2).Some?
    ensures p2 == SpaceEnd(s, e2) && p2 < |s| && s[p2] == '|'
    ensures g == SpaceEnd(s, p2 + 1) && Tail(s, e2) == DateRangeEnd(s, g)
  {
    p2 := SpaceEnd(s, e2);
    assert p2 < |s| && s[p2] == '|' by { TailUnfold(s, e2); }
    g := SpaceEnd(s, p2 + 1);
    assert Tail(s, e2) == DateRangeEnd(s, g) by { TailUnfold(s, e2); }
  }

  /** A date range the scanner finds starts with a letter and ends with a digit. */
  lemma DateRangeEndShape(s: string, g: nat) returns (end: nat)
    requires g <= |s| && DateRangeEnd(s, g).Some?
    ensures DateRangeEnd(s, g) == Some(end) && g < end <= |s|
    ensures IsLetter(s[g]) && IsDigit(s[end - 1]) && DateRange(s, g, end)
  {
    DateRangeEndSound(s, g);
    end := DateRangeEnd(s, g).value;
    DateRangeForced(s, g, end);
  }

  /** Matches are non-empty and end inside the text, so `re.findall` can scan them. */
  lemma JobsWithin(s: string)
    ensures NonEmptyWithin(|s|, (p: nat) => JobAt(s, p))
  {
    var at := (p: nat) => JobAt(s, p);
    forall p: nat | p <= |s| && at(p).Some?
      ensures p < at(p).value.end <= |s|
    {
      JobAtShape(s, p);
    }
  }

  /** The matches `re.findall` collects, in order. */
  function Jobs(s: string): (ms: seq<Match<JobSpan>>)
    ensures forall k :: 0 <= k < |ms| ==> ms[k].groups.i == ms[k].start && JobSpanOk(s, ms[k].groups)
  {
    JobsWithin(s);
    var at := (p: nat) => JobAt(s, p);
    var ms := FindAll(|s|, 0, at);
    forall k | 0 <= k < |ms|
      ensures ms[k].groups.i == ms[k].start && JobSpanOk(s, ms[k].groups)
    {
      assert at(ms[k].start) == Some(Hit(ms[k].groups, ms[k].end));
      JobAtShape(s, ms[k].start);
    }
    ms
  }

  /** A match needs a digit after a dash: the year of its second month. */
  lemma JobNeedsDigitAfterDash(s: string, i: nat)
    ensures JobAt(s, i).Some? ==> exists h, e :: i <= h < e < |s| && s[h] == '-' && IsDigit(s[e])
  {
    if JobAt(s, i).Some? {
      JobAtShape(s, i);
      var m := JobAt(s, i).value;
      var w: DateSpan :| DateRangeAt(s, m.groups.g, w, m.end);
      assert i <= w.h < m.end - 1 && s[w.h] == '-' && IsDigit(s[m.end - 1]);
    }
  }

  /** A text in which no digit follows a dash, such as one whose durations end in "Present", has no entry. */
  lemma NoDigitAfterDashNoEntry(s: string)
    requires forall h, e :: 0 <= h < e < |s| && s[h] == '-' ==> !IsDigit(s[e])
    ensures ExtractWorkExperience(s) == []
  {
    JobsWithin(s);
    var at := (p: nat) => JobAt(s, p);
    forall p: nat | p <= |s|
      ensures at(p).None?
    {
      JobNeedsDigitAfterDash(s, p);
    }
    assert Search(|s|, 0, at).None?;
    assert Jobs(s) == FindAll(|s|, 0, at);
  }

  /** A job whose duration runs to "Present" is not read. */
  lemma PresentNotRead()
    ensures ExtractWorkExperience("Dev | Acme | January 2020 - Present\n- Built X") == []
  {
    PresentNoEarlyDash();
    PresentNoLateDigit();
    NoDigitAfterDashNoEntry("Dev | Acme | January 2020 - Present\n- Built X");
  }

  /** The example's first 26 characters hold no dash. */
  lemma PresentNoEarlyDash()
    ensures var s := "Dev | Acme | January 2020 - Present\n- Built X";
            forall h :: 0 <= h < 26 ==> s[h] != '-'
  {
    var a, b := "Dev | Acme | January 2020 ", "- Present\n- Built X";
    var s := a + b;
    assert s == "Dev | Acme | January 2020 - Present\n- Built X";
    assert '-' !in a;
    forall h | 0 <= h < |a|
      ensures s[h] != '-'
    {
      assert s[h] == a[h] && a[h] in a;
    }
  }

  /** The example holds no digit from its 27th character on. */
  lemma PresentNoLateDigit()
    ensures var s := "Dev | Acme | January 2020 - Present\n- Built X";
            forall e :: 26 <= e < |s| ==> !IsDigit(s[e])
  {
    var a, b := "Dev | Acme | January 2020 ", "- Present\n- Built X";
    var s := a + b;
    assert s == "Dev | Acme | January 2020 - Present\n- Built X";
    assert forall c :: c in b ==> !IsDigit(c);
    forall e | |a| <= e < |s|
      ensures !IsDigit(s[e])
    {
      assert s[e] == b[e - |a|] && b[e - |a|] in b;
    }
  }

  /** One entry of the result: the three groups, each stripped. */
  function Entry(s: string, m: JobSpan): WorkExperience
    requires JobSpanOk(s, m)
  {
    WorkExperience(Strip(s[m.i..m.e1]), Strip(s[m.b..m.e2]), Strip(s[m.g..m.end]))
  }

  /**
   * `_extract_work_experience`: one entry per match.  Titles and
   * companies stay on one line, and every duration runs from a letter to
   * a digit.
   */
  function ExtractWorkExperience(s: string): (r: seq<WorkExperience>)
    ensures |r| == |Jobs(s)|
    ensures forall k :: 0 <= k < |r| ==> EntryShape(r[k])
  {
    var ms := Jobs(s);
    var r := seq(|ms|, k requires 0 <= k < |ms| => Entry(s, ms[k].groups));
    forall k | 0 <= k < |r|
      ensures EntryShape(r[k])
    {
      EntryFromSpan(s, ms[k].groups);
    }
    r
  }

  /** Title and company on one line, duration from a letter to a digit. */
  predicate EntryShape(e: WorkExperience)
  {
    && '\n' !in e.jobTitle && '\n' !in e.company
    && |e.duration| > 0 && IsLetter(e.duration[0]) && IsDigit(e.duration[|e.duration| - 1])
  }

  /** Every entry built from a match has that shape, and its duration is the whole third group. */
  lemma EntryFromSpan(s: string, m: JobSpan)
    requires JobSpanOk(s, m)
    ensures EntryShape(Entry(s, m)) && Entry(s, m).duration == s[m.g..m.end]
  {
    OneLineStripped(s, m.i, m.e1);
    OneLineStripped(s, m.b, m.e2);
    var d := s[m.g..m.end];
    assert d[0] == s[m.g] && d[|d| - 1] == s[m.end - 1];
    LetterNotSpace(d[0]);
    LetterNotSpace(d[|d| - 1]);
    StripNoop(d);
  }

  /** Stripping a piece of one line leaves no line feed. */
  lemma OneLineStripped(s: string, lo: nat, hi: nat)
    requires lo <= hi <= |s| && All(s, lo, hi, NotNewline)
    ensures '\n' !in Strip(s[lo..hi])
  {
    StripWithin(s[lo..hi]);
  }

  /**
   * Each entry comes from a match of the pattern at the position the
   * scan reached, its duration being the whole third group.
   */
  lemma WorkExperienceMatches(s: string)
    ensures var r := ExtractWorkExperience(s);
            var ms := Jobs(s);
            forall k :: 0 <= k < |r| ==>
              var m := ms[k].groups;
              && JobMatch(s, ms[k].start, m.e1, m.e2, m.end)
              && m.i == ms[k].start && JobSpanOk(s, m) && JobGroupsPlaced(s, m)
              && r[k] == WorkExperience(Strip(s[m.i..m.e1]), Strip(s[m.b..m.e2]), s[m.g..m.end])
  {
    var r := ExtractWorkExperience(s);
    var ms := Jobs(s);
    JobsWithin(s);
    var at := (p: nat) => JobAt(s, p);
    assert ms == FindAll(|s|, 0, at);
    forall k | 0 <= k < |r|
      ensures var m := ms[k].groups;
              && JobMatch(s, ms[k].start, m.e1, m.e2, m.end)
              && m.i == ms[k].start && JobSpanOk(s, m) && JobGroupsPlaced(s, m)
              && r[k] == WorkExperience(Strip(s[m.i..m.e1]), Strip(s[m.b..m.e2]), s[m.g..m.end])
    {
      var m := ms[k].groups;
      assert at(ms[k].start) == Some(Hit(m, ms[k].end));
      JobAtFirst(s, ms[k].start);
      JobAtShape(s, ms[k].start);
      EntryFromSpan(s, m);
    }
  }

  /** Every entry uses up two bars of the text, so there are at most half as many entries as bars. */
  lemma WorkExperienceCount(s: string)
    ensures 2 * |ExtractWorkExperience(s)| <= Count(s, '|')
  {
    JobsWithin(s);
    var at := (p: nat) => JobAt(s, p);
    forall p: nat | p <= |s| && at(p).Some?
      ensures Count(s[p..at(p).value.end], '|') >= 2
    {
      JobAtShape(s, p);
      SpanHasTwoBars(s, at(p).value.groups);
    }
    FindAllCount(s, '|', 2, 0, at);
    assert s[0..] == s;
    assert |Jobs(s)| == |FindAll(|s|, 0, at)|;
  }

  /** A match holds both of its bars. */
  lemma SpanHasTwoBars(s: string, m: JobSpan)
    requires JobSpanOk(s, m)
    ensures Count(s[m.i..m.end], '|') >= 2
  {
    var w := s[m.i..m.end];
    assert w[m.p1 - m.i] == '|' && w[m.p2 - m.i] == '|';
    CountAtLeastTwo(w, '|', m.p1 - m.i, m.p2 - m.i);
  }
}
