/**
 * `ResumeParser._extract_personal_info` and `_extract_location`: the
 * email, phone, name and location of the resume's author.
 */
module PersonalInfo {
  import opened Wrappers
  import opened Text
  import opened Regex

  datatype PersonalInfo = PersonalInfo(
    name: Option<string>,
    email: Option<string>,
    phone: Option<string>,
    location: Option<string>)

  // ---------------------------------------------------------------------
  // Email: \b[A-Za-z0-9._%+-]+@[A-Za-z0-9.-]+\.[A-Z|a-z]{2,}\b
  // ---------------------------------------------------------------------

  /** `[A-Za-z0-9._%+-]`, the local part. */
  predicate IsLocalChar(c: char) {
    IsLetter(c) || IsDigit(c) || c == '.' || c == '_' || c == '%' || c == '+' || c == '-'
  }

  /** `[A-Za-z0-9.-]`, the domain. */
  predicate IsDomainChar(c: char) {
    IsLetter(c) || IsDigit(c) || c == '.' || c == '-'
  }

  /** `[A-Z|a-z]`, the top-level domain: inside a class `|` is a literal, so it is admitted. */
  predicate IsTldChar(c: char) {
    IsLetter(c) || c == '|'
  }

  /** `\b` at position `p`: exactly one of the two neighbours is a word character. */
  predicate WordBoundary(s: string, p: nat)
    requires p <= |s|
  {
    (p > 0 && IsWordChar(s[p - 1])) != (p < |s| && IsWordChar(s[p]))
  }

  /**
   * The part after the local part: `@` at `a`, a domain `s[a+1..k]`, the
   * dot at `k`, a top-level domain `s[k+1..j]` of two or more characters,
   * and a word boundary at `j`.
   */
  ghost predicate EmailTail(s: string, a: nat, k: nat, j: nat)
  {
    && a + 1 < k && k + 3 <= j <= |s|
    && All(s, a + 1, k, IsDomainChar) && s[k] == '.'
    && All(s, k + 1, j, IsTldChar) && WordBoundary(s, j)
  }

  /** `s[i..j]` is a match of the email pattern, with its `@` at `a` and its last dot at `k`. */
  ghost predicate EmailShape(s: string, i: nat, a: nat, k: nat, j: nat)
  {
    && i < a < |s| && WordBoundary(s, i) && All(s, i, a, IsLocalChar) && s[a] == '@'
    && EmailTail(s, a, k, j)
  }

  /** The email pattern matches `s[i..j]`. */
  ghost predicate EmailMatch(s: string, i: nat, j: nat)
  {
    exists a: nat, k: nat :: EmailShape(s, i, a, k, j)
  }

  /**
   * `[A-Z|a-z]{2,}\b` after the dot at `k`, the repetition greedy: try the
   * ends `t`, `t - 1`, ... down to two characters and keep the first one
   * that stands on a word boundary.
   */
  function TldEnd(s: string, k: nat, t: nat): (r: Option<nat>)
    requires t <= |s|
    ensures r.Some? ==> k + 3 <= r.value <= t && WordBoundary(s, r.value)
    ensures r.Some? ==> forall p: nat :: r.value < p <= t ==> !WordBoundary(s, p)
    ensures r.None? ==> forall p: nat :: k + 3 <= p <= t ==> !WordBoundary(s, p)
    decreases t
  {
    if t < k + 3 then None
    else if WordBoundary(s, t) then Some(t)
    else TldEnd(s, k, t - 1)
  }

  /**
   * The greedy domain `[A-Za-z0-9.-]+` gives back one character at a time:
   * with the domain ending at `k`, the dot must be at `k` and the
   * top-level domain after it.  Backtracking tries `k` from the end of the
   * domain run downwards, so the first success is the one with the last
   * dot, and with it the longest match.
   */
  function DomainBacktrack(s: string, a: nat, k: nat): (r: Option<nat>)
    requires a < k <= |s| && All(s, a + 1, k, IsDomainChar)
    ensures r.Some? ==> exists k': nat :: EmailTail(s, a, k', r.value)
    ensures r.Some? ==> forall k': nat, j: nat :: k' <= k && EmailTail(s, a, k', j) ==> j <= r.value
    ensures r.None? ==> forall k': nat, j: nat :: k' <= k ==> !EmailTail(s, a, k', j)
    decreases k
  {
    if k < a + 2 then None
    else if k < |s| && s[k] == '.' then
      match TldEnd(s, k, SkipWhile(s, k + 1, IsTldChar))
      case Some(j) =>
        assert EmailTail(s, a, k, j);
        TailsBeforeDotEndThere(s, a, k);
        Some(j)
      case None => DomainBacktrack(s, a, k - 1)
    else DomainBacktrack(s, a, k - 1)
  }

  /** A top-level domain cannot run across a later dot. */
  lemma TailsBeforeDotEndThere(s: string, a: nat, k: nat)
    requires k < |s| && s[k] == '.'
    ensures forall k': nat, j: nat :: k' < k && EmailTail(s, a, k', j) ==> j <= k
  {
    forall k': nat, j: nat | k' < k && EmailTail(s, a, k', j)
      ensures j <= k
    {
      assert !IsTldChar(s[k]);
    }
  }

  /**
   * What the pattern returns when tried at position `i`.  The local part
   * `[A-Za-z0-9._%+-]+` can only end where its greedy run ends, because
   * the `@` that must follow is not in its class.
   */
  function EmailAt(s: string, i: nat): (r: Option<Hit<string>>)
  {
    if i > |s| || !WordBoundary(s, i) then None
    else
      var a := SkipWhile(s, i, IsLocalChar);
      if a == i || a == |s| || s[a] != '@' then None
      else
        match DomainBacktrack(s, a, SkipWhile(s, a + 1, IsDomainChar))
        case None => None
        case Some(j) => Some(Hit(s[i..j], j))
  }

  /**
   * The engine's answer at `i` is the longest match starting at `i`, and
   * there is none exactly when the pattern does not match there.
   */
  lemma EmailAtLongest(s: string, i: nat)
    ensures EmailAt(s, i).Some? ==>
              && EmailMatch(s, i, EmailAt(s, i).value.end)
              && EmailAt(s, i).value.groups == s[i..EmailAt(s, i).value.end]
              && forall j: nat :: EmailMatch(s, i, j) ==> j <= EmailAt(s, i).value.end
    ensures EmailAt(s, i).None? ==> forall j: nat :: !EmailMatch(s, i, j)
  {
    if i <= |s| && WordBoundary(s, i) {
      var a := SkipWhile(s, i, IsLocalChar);
      forall j: nat, a': nat, k: nat | EmailShape(s, i, a', k, j)
        ensures a' == a && k <= SkipWhile(s, a + 1, IsDomainChar)
      {
        SkipWhileUnique(s, i, a', IsLocalChar);
        var e := SkipWhile(s, a + 1, IsDomainChar);
        if e < |s| {
          assert !IsDomainChar(s[e]);
        }
      }
      if a != i && a < |s| && s[a] == '@' {
        var e := SkipWhile(s, a + 1, IsDomainChar);
        match DomainBacktrack(s, a, e)
        case None =>
        case Some(j) =>
          var k :| EmailTail(s, a, k, j);
          assert EmailShape(s, i, a, k, j);
      }
    }
  }

  /** The matches of the email pattern, in document order (`re.findall`). */
  function Emails(s: string): (r: seq<string>)
  {
    var at := p => EmailAt(s, p);
    assert NonEmptyWithin(|s|, at);
    var ms := FindAll(|s|, 0, at);
    seq(|ms|, k requires 0 <= k < |ms| => ms[k].groups)
  }

  /** `emails[0] if emails else None`. */
  function Email(s: string): (r: Option<string>)
  {
    var emails := Emails(s);
    if |emails| > 0 then Some(emails[0]) else None
  }

  /**
   * `email` is the first match in document order: it is None exactly when
   * the pattern matches nowhere, and otherwise it is the longest match at
   * the leftmost position where the pattern matches.
   */
  lemma EmailIsFirstMatch(s: string)
    ensures Email(s).None? <==> forall i: nat, j: nat :: !EmailMatch(s, i, j)
    ensures Email(s).Some? ==>
              exists i: nat, j: nat ::
                && EmailMatch(s, i, j) && Email(s).value == s[i..j]
                && (forall i': nat, j': nat :: i' < i ==> !EmailMatch(s, i', j'))
                && (forall j': nat :: EmailMatch(s, i, j') ==> j' <= j)
  {
    var at := p => EmailAt(s, p);
    var ms := FindAll(|s|, 0, at);
    FindAllGaps(|s|, 0, at);
    if ms == [] {
      forall i: nat, j: nat
        ensures !EmailMatch(s, i, j)
      {
        if i <= |s| {
          assert at(i).None?;
          EmailAtLongest(s, i);
        }
      }
    } else {
      var m := ms[0];
      EmailAtLongest(s, m.start);
      forall i': nat, j': nat | i' < m.start
        ensures !EmailMatch(s, i', j')
      {
        assert at(i').None?;
        EmailAtLongest(s, i');
      }
      assert EmailMatch(s, m.start, m.end);
    }
  }

  /**
   * What an extracted email looks like: one `@`, and a final dot followed
   * by two or more characters of `[A-Z|a-z]`, which may include `|`.
   */
  lemma EmailLooksLikeAnAddress(s: string, i: nat, j: nat)
    requires EmailMatch(s, i, j)
    ensures Count(s[i..j], '@') == 1
    ensures exists d :: i < d && d + 3 <= j && s[d] == '.' && All(s, d + 1, j, IsTldChar)
  {
    var a: nat, k: nat :| EmailShape(s, i, a, k, j);
    assert s[i..j] == s[i..a] + [s[a]] + s[a + 1..j];
    assert '@' !in s[i..a] by {
      forall x | i <= x < a ensures s[x] != '@' { assert IsLocalChar(s[x]); }
    }
    assert '@' !in s[a + 1..j] by {
      forall x | a + 1 <= x < j ensures s[x] != '@' {
        if x < k { assert IsDomainChar(s[x]); } else if x > k { assert IsTldChar(s[x]); }
      }
    }
    CountAppend(s[i..a], [s[a]], '@');
    CountAppend(s[i..a] + [s[a]], s[a + 1..j], '@');
    assert Count([s[a]], '@') == 1 by {
      assert [s[a]][1..] == [];
    }
  }

  // ---------------------------------------------------------------------
  // Phone: (\+?\d{1,3})?[-\s.]?(\d{3})[-\s.]?(\d{3})[-\s.]?(\d{4})
  // ---------------------------------------------------------------------

  /** `[-\s.]`. */
  predicate IsPhoneSep(c: char) {
    c == '-' || c == '.' || IsSpace(c)
  }

  /** `\d{n}` at `p`. */
  predicate DigitsAt(s: string, p: nat, n: nat) {
    p + n <= |s| && All(s, p, p + n, IsDigit)
  }

  /** The four groups of a phone match; the first is None when `(\+?\d{1,3})?` was skipped. */
  datatype PhoneGroups = PhoneGroups(country: Option<string>, area: string, exchange: string, line: string)

  /**
   * One way for the pattern to match: how long the optional first group
   * is (0 when it is skipped) and which optional separators are present.
   */
  datatype PhoneChoice = PhoneChoice(lead: nat, sep1: bool, sep2: bool, sep3: bool)

  /** `\+?\d{1,3}`: a `+` if the group starts with one, then one to three digits. */
  predicate LeadGroup(g: string) {
    var d := if 0 < |g| && g[0] == '+' then 1 else 0;
    && d < |g| <= d + 3
    && IsDigit(g[d]) && (d + 1 < |g| ==> IsDigit(g[d + 1])) && (d + 2 < |g| ==> IsDigit(g[d + 2]))
  }

  function Bit(b: bool): nat { if b then 1 else 0 }

  /** Where the three digit groups start under a choice. */
  function AreaStart(i: nat, c: PhoneChoice): nat { i + c.lead + Bit(c.sep1) }
  function ExchangeStart(i: nat, c: PhoneChoice): nat { AreaStart(i, c) + 3 + Bit(c.sep2) }
  function LineStart(i: nat, c: PhoneChoice): nat { ExchangeStart(i, c) + 3 + Bit(c.sep3) }

  /** The phone pattern matches at `i` in the way `c` describes. */
  ghost predicate PhoneMatch(s: string, i: nat, c: PhoneChoice)
  {
    var a, x, l := AreaStart(i, c), ExchangeStart(i, c), LineStart(i, c);
    && l + 4 <= |s|
    && (c.lead > 0 ==> LeadGroup(s[i..i + c.lead]))
    && (c.sep1 ==> IsPhoneSep(s[i + c.lead])) && DigitsAt(s, a, 3)
    && (c.sep2 ==> IsPhoneSep(s[a + 3])) && DigitsAt(s, x, 3)
    && (c.sep3 ==> IsPhoneSep(s[x + 3])) && DigitsAt(s, l, 4)
  }

  /** Where the three digit groups of a match start. */
  datatype Starts = Starts(area: nat, exchange: nat, line: nat)

  function ChoiceStarts(i: nat, c: PhoneChoice): Starts {
    Starts(AreaStart(i, c), ExchangeStart(i, c), LineStart(i, c))
  }

  /** The first group, when it is `lead` characters long. */
  function Country(s: string, i: nat, lead: nat): Option<string>
    requires i + lead <= |s|
  {
    if lead > 0 then Some(s[i..i + lead]) else None
  }

  /** The four groups, the last three cut from the text where they start. */
  function GroupsAt(s: string, country: Option<string>, t: Starts): PhoneGroups
    requires t.area + 3 <= |s| && t.exchange + 3 <= |s| && t.line + 4 <= |s|
  {
    PhoneGroups(country, s[t.area..t.area + 3], s[t.exchange..t.exchange + 3], s[t.line..t.line + 4])
  }

  /** The groups that a match made in the way `c` captures. */
  function ChoiceGroups(s: string, i: nat, c: PhoneChoice): PhoneGroups
    requires LineStart(i, c) + 4 <= |s|
  {
    GroupsAt(s, Country(s, i, c.lead), ChoiceStarts(i, c))
  }

  /**
   * `[-\s.]?` is greedy: it takes the next character when that is a
   * separator.  Leaving a separator in place could never succeed, since a
   * digit must come next, so this is the only choice the engine can keep.
   */
  function OptSep(s: string, p: nat): (q: nat)
    requires p <= |s|
    ensures q == p || (p < |s| && q == p + 1 && IsPhoneSep(s[p]))
    ensures q <= |s|
  {
    if p < |s| && IsPhoneSep(s[p]) then p + 1 else p
  }

  /** `[-\s.]?(\d{3})[-\s.]?(\d{3})[-\s.]?(\d{4})` from `p`: where the three groups start. */
  function PhoneTail(s: string, p: nat): (r: Option<Starts>)
    requires p <= |s|
    ensures r.Some? ==> r.value.area + 3 <= |s| && r.value.exchange + 3 <= |s| && r.value.line + 4 <= |s|
  {
    var a := OptSep(s, p);
    if !DigitsAt(s, a, 3) then None
    else
      var x := OptSep(s, a + 3);
      if !DigitsAt(s, x, 3) then None
      else
        var l := OptSep(s, x + 3);
        if !DigitsAt(s, l, 4) then None
        else Some(Starts(a, x, l))
  }

  /** Whatever the separators of a match are, `PhoneTail` finds the same ones. */
  lemma PhoneTailForced(s: string, i: nat, c: PhoneChoice)
    requires PhoneMatch(s, i, c)
    ensures PhoneTail(s, i + c.lead) == Some(ChoiceStarts(i, c))
  {
    PhoneStarts(s, i, c);
  }

  /** In a match each optional separator is there exactly when `OptSep` takes it, so `OptSep` finds each group. */
  lemma PhoneStarts(s: string, i: nat, c: PhoneChoice)
    requires PhoneMatch(s, i, c)
    ensures AreaStart(i, c) + 3 <= |s| && ExchangeStart(i, c) + 3 <= |s|
    ensures OptSep(s, i + c.lead) == AreaStart(i, c)
    ensures OptSep(s, AreaStart(i, c) + 3) == ExchangeStart(i, c)
    ensures OptSep(s, ExchangeStart(i, c) + 3) == LineStart(i, c)
  {
    var a, x, l := AreaStart(i, c), ExchangeStart(i, c), LineStart(i, c);
    assert IsDigit(s[a]) && IsDigit(s[x]) && IsDigit(s[l]);
    OptSepAt(s, i + c.lead, c.sep1, a);
    OptSepAt(s, a + 3, c.sep2, x);
    OptSepAt(s, x + 3, c.sep3, l);
  }

  /** Before a digit, `[-\s.]?` takes exactly the separator that is there. */
  lemma OptSepAt(s: string, p: nat, sep: bool, d: nat)
    requires d == p + Bit(sep) && d < |s| && IsDigit(s[d]) && (sep ==> IsPhoneSep(s[p]))
    ensures OptSep(s, p) == d
  {
    LetterNotSpace(s[d]);
  }

  /**
   * A successful `PhoneTail` after a valid first group is a match, `c`,
   * with the separators `PhoneTail` took, and captures what it returned.
   */
  lemma PhoneTailSound(s: string, i: nat, lead: nat) returns (c: PhoneChoice)
    requires i + lead <= |s| && PhoneTail(s, i + lead).Some?
    requires lead > 0 ==> LeadGroup(s[i..i + lead])
    ensures c.lead == lead && PhoneMatch(s, i, c)
    ensures PhoneTail(s, i + lead) == Some(ChoiceStarts(i, c))
  {
    var a, x, l := TailStarts(s, i + lead);
    c := ChoiceAt(s, i, lead, a, x, l);
    MatchOf(s, i, c);
  }

  /** The conditions of `PhoneMatch`, one by one. */
  lemma MatchOf(s: string, i: nat, c: PhoneChoice)
    requires LineStart(i, c) + 4 <= |s| && (c.lead > 0 ==> LeadGroup(s[i..i + c.lead]))
    requires c.sep1 ==> IsPhoneSep(s[i + c.lead])
    requires c.sep2 ==> IsPhoneSep(s[AreaStart(i, c) + 3])
    requires c.sep3 ==> IsPhoneSep(s[ExchangeStart(i, c) + 3])
    requires DigitsAt(s, AreaStart(i, c), 3) && DigitsAt(s, ExchangeStart(i, c), 3) && DigitsAt(s, LineStart(i, c), 4)
    ensures PhoneMatch(s, i, c)
  {
  }

  /** The choice that `PhoneTail` made, read off where it found the groups. */
  lemma ChoiceAt(s: string, i: nat, lead: nat, a: nat, x: nat, l: nat) returns (c: PhoneChoice)
    requires i + lead <= |s| && a == OptSep(s, i + lead) && a + 3 <= |s|
    requires x == OptSep(s, a + 3) && x + 3 <= |s| && l == OptSep(s, x + 3)
    ensures c.lead == lead
    ensures AreaStart(i, c) == a && ExchangeStart(i, c) == x && LineStart(i, c) == l
    ensures c.sep1 ==> IsPhoneSep(s[i + lead])
    ensures c.sep2 ==> IsPhoneSep(s[a + 3])
    ensures c.sep3 ==> IsPhoneSep(s[x + 3])
  {
    c := PhoneChoice(lead, a > i + lead, x > a + 3, l > x + 3);
  }

  /** Where a successful `PhoneTail` from `p` found its three groups. */
  lemma TailStarts(s: string, p: nat) returns (a: nat, x: nat, l: nat)
    requires p <= |s| && PhoneTail(s, p).Some?
    ensures a == OptSep(s, p) && DigitsAt(s, a, 3)
    ensures x == OptSep(s, a + 3) && DigitsAt(s, x, 3)
    ensures l == OptSep(s, x + 3) && DigitsAt(s, l, 4)
    ensures PhoneTail(s, p) == Some(Starts(a, x, l))
  {
    a := OptSep(s, p);
    x := OptSep(s, a + 3);
    l := OptSep(s, x + 3);
  }

  /** How many digits `\d{1,3}` can take at `q`. */
  function LeadDigits(s: string, q: nat): (n: nat)
    requires q <= |s|
    ensures n <= 3 && DigitsAt(s, q, n)
    ensures n < 3 ==> q + n == |s| || !IsDigit(s[q + n])
  {
    var e := SkipWhile(s, q, IsDigit);
    if e - q < 3 then e - q else 3
  }

  /** Where the digits of the first group start: after a `+` if there is one. */
  function DigitsFrom(s: string, i: nat): nat
    requires i < |s|
  {
    if s[i] == '+' then i + 1 else i
  }

  /** A taken first group has a `+` exactly when the text has one, then one to `LeadDigits` digits. */
  lemma LeadShape(s: string, i: nat, c: PhoneChoice)
    requires PhoneMatch(s, i, c) && c.lead > 0
    ensures i < |s|
    ensures var q := DigitsFrom(s, i); q < i + c.lead <= q + LeadDigits(s, q)
  {
    var q := DigitsFrom(s, i);
    var g := s[i..i + c.lead];
    assert g[0] == s[i];
    forall k | q <= k < i + c.lead
      ensures IsDigit(s[k])
    {
      assert s[k] == g[k - i];
    }
  }

  /**
   * `h` is what the engine returns at `i` when the first group may be at
   * most `bound` characters long: the match with the longest such first
   * group (whose separators and other groups that length fixes).
   */
  ghost predicate BestPhone(s: string, i: nat, bound: nat, h: Hit<PhoneGroups>)
  {
    exists c ::
      && PhoneMatch(s, i, c) && c.lead <= bound
      && h == Hit(ChoiceGroups(s, i, c), LineStart(i, c) + 4)
      && (forall c' :: PhoneMatch(s, i, c') && c'.lead <= bound ==> c'.lead <= c.lead)
      && (forall c' :: PhoneMatch(s, i, c') && c'.lead == c.lead ==> ChoiceGroups(s, i, c') == ChoiceGroups(s, i, c))
  }

  /**
   * `(\+?\d{1,3})?` tried greedily: the first group with `n`, `n - 1`, ...,
   * one digit after the optional `+`, and at last skipped.
   */
  function PhoneLead(s: string, i: nat, q: nat, n: nat): (r: Option<Hit<PhoneGroups>>)
    requires i < |s| && q == DigitsFrom(s, i) && n <= LeadDigits(s, q)
    ensures r.Some? ==> BestPhone(s, i, q - i + n, r.value)
    ensures r.None? ==> forall c :: PhoneMatch(s, i, c) ==> c.lead > q - i + n
    decreases n
  {
    if n == 0 then LeadSkipped(s, i, q)
    else
      match PhoneTail(s, q + n)
      case Some(t) => TakenLeadIsBest(s, i, q, n); Some(Hit(GroupsAt(s, Country(s, i, q - i + n), t), t.line + 4))
      case None => var r := PhoneLead(s, i, q, n - 1); LeadStepDown(s, i, q, n, r); r
  }

  /** `(\+?\d{1,3})?` skipped: the match without a first group, if `PhoneTail` finds one at `i`. */
  function LeadSkipped(s: string, i: nat, q: nat): (r: Option<Hit<PhoneGroups>>)
    requires i < |s| && q == DigitsFrom(s, i)
    ensures r.Some? ==> BestPhone(s, i, q - i, r.value)
    ensures r.None? ==> forall c :: PhoneMatch(s, i, c) ==> c.lead > q - i
  {
    match PhoneTail(s, i)
    case None => NoMatchAtAll(s, i, q); None
    case Some(t) => SkippedLeadIsBest(s, i, q); Some(Hit(GroupsAt(s, None, t), t.line + 4))
  }

  /** When even the skipped first group cannot be followed, no match has a first group of `+` alone or nothing. */
  lemma NoMatchAtAll(s: string, i: nat, q: nat)
    requires i < |s| && q == DigitsFrom(s, i) && PhoneTail(s, i).None?
    ensures forall c :: PhoneMatch(s, i, c) ==> c.lead > q - i
  {
    NoShortLead(s, i, q);
    NoMatchWithLead(s, i, 0);
  }

  /** A first group of `n` digits that cannot be followed leaves the answer for `n - 1` digits standing. */
  lemma LeadStepDown(s: string, i: nat, q: nat, n: nat, r: Option<Hit<PhoneGroups>>)
    requires i < |s| && q == DigitsFrom(s, i) && 0 < n <= LeadDigits(s, q) && PhoneTail(s, q + n).None?
    requires r.Some? ==> BestPhone(s, i, q - i + n - 1, r.value)
    requires r.None? ==> forall c :: PhoneMatch(s, i, c) ==> c.lead > q - i + n - 1
    ensures r.Some? ==> BestPhone(s, i, q - i + n, r.value)
    ensures r.None? ==> forall c :: PhoneMatch(s, i, c) ==> c.lead > q - i + n
  {
    NoMatchWithLead(s, i, q - i + n);
    if r.Some? { BestPhoneWiden(s, i, q - i + n, r.value); }
  }

  /** The best match under a bound stays best when no match reaches the next length. */
  lemma BestPhoneWiden(s: string, i: nat, bound: nat, h: Hit<PhoneGroups>)
    requires bound > 0 && BestPhone(s, i, bound - 1, h)
    requires forall c :: PhoneMatch(s, i, c) ==> c.lead != bound
    ensures BestPhone(s, i, bound, h)
  {
    var c :| && PhoneMatch(s, i, c) && c.lead <= bound - 1
             && h == Hit(ChoiceGroups(s, i, c), LineStart(i, c) + 4)
             && (forall c' :: PhoneMatch(s, i, c') && c'.lead <= bound - 1 ==> c'.lead <= c.lead)
             && (forall c' :: PhoneMatch(s, i, c') && c'.lead == c.lead ==> ChoiceGroups(s, i, c') == ChoiceGroups(s, i, c));
    assert PhoneMatch(s, i, c) && c.lead <= bound;
  }

  /** A first group of `n` digits after the optional `+` that `PhoneTail` can follow wins. */
  lemma TakenLeadIsBest(s: string, i: nat, q: nat, n: nat)
    requires i < |s| && q == DigitsFrom(s, i) && 0 < n <= LeadDigits(s, q)
    requires PhoneTail(s, q + n).Some?
    ensures var t := PhoneTail(s, q + n).value;
            BestPhone(s, i, q - i + n, Hit(GroupsAt(s, Country(s, i, q - i + n), t), t.line + 4))
  {
    TakenLeadGroup(s, i, q, n);
    TailBest(s, i, q - i + n);
  }

  /** The `+` if any and `n` of the digits after it form a valid first group. */
  lemma TakenLeadGroup(s: string, i: nat, q: nat, n: nat)
    requires i < |s| && q == DigitsFrom(s, i) && 0 < n <= LeadDigits(s, q)
    ensures LeadGroup(s[i..i + (q - i + n)])
  {
    var g := s[i..q + n];
    forall k | q - i <= k < |g|
      ensures IsDigit(g[k])
    {
      assert g[k] == s[i + k];
    }
    assert g[0] == s[i];
  }

  /** A first group of length `lead` that `PhoneTail` can follow gives the best match for that bound. */
  lemma TailBest(s: string, i: nat, lead: nat)
    requires i + lead <= |s| && PhoneTail(s, i + lead).Some?
    requires lead > 0 ==> LeadGroup(s[i..i + lead])
    ensures var t := PhoneTail(s, i + lead).value;
            BestPhone(s, i, lead, Hit(GroupsAt(s, Country(s, i, lead), t), t.line + 4))
  {
    var c := PhoneTailSound(s, i, lead);
    BestPhoneAtLead(s, i, c);
  }

  /** A match is the best one for the length of its own first group. */
  lemma BestPhoneAtLead(s: string, i: nat, c: PhoneChoice)
    requires PhoneMatch(s, i, c)
    ensures BestPhone(s, i, c.lead, Hit(ChoiceGroups(s, i, c), LineStart(i, c) + 4))
  {
    SameLeadGroups(s, i, c);
  }

  /** When no first group can be taken, the match that skips it is the answer. */
  lemma SkippedLeadIsBest(s: string, i: nat, q: nat)
    requires i < |s| && q == DigitsFrom(s, i)
    requires PhoneTail(s, i).Some?
    ensures var t := PhoneTail(s, i).value;
            BestPhone(s, i, q - i, Hit(GroupsAt(s, None, t), t.line + 4))
  {
    NoPlusBeforeTail(s, i);
    assert q - i == 0;
    TailBest(s, i, 0);
    assert Country(s, i, 0) == None;
  }

  /** `PhoneTail` starts with a separator or a digit, so never at a `+`. */
  lemma NoPlusBeforeTail(s: string, i: nat)
    requires i < |s| && PhoneTail(s, i).Some?
    ensures s[i] != '+'
  {
    var a, x, l := TailStarts(s, i);
    assert IsDigit(s[a]);
  }

  /** No match has a first group of length `lead` when `PhoneTail` fails after it. */
  lemma NoMatchWithLead(s: string, i: nat, lead: nat)
    requires i + lead <= |s| && PhoneTail(s, i + lead).None?
    ensures forall c :: PhoneMatch(s, i, c) ==> c.lead != lead
  {
    forall c | PhoneMatch(s, i, c)
      ensures c.lead != lead
    {
      PhoneTailForced(s, i, c);
    }
  }

  /** With a `+` in front, a taken first group is longer than the `+`. */
  lemma NoShortLead(s: string, i: nat, q: nat)
    requires i < |s| && q == DigitsFrom(s, i)
    ensures forall c :: PhoneMatch(s, i, c) && c.lead <= q - i ==> c.lead == 0
  {
    forall c | PhoneMatch(s, i, c) && c.lead > 0
      ensures c.lead > q - i
    {
      LeadShape(s, i, c);
    }
  }

  /** Every match at `i` with a first group as long as that of `c` captures the same groups. */
  lemma SameLeadGroups(s: string, i: nat, c: PhoneChoice)
    requires PhoneMatch(s, i, c)
    ensures forall c' :: PhoneMatch(s, i, c') && c'.lead == c.lead ==> ChoiceGroups(s, i, c') == ChoiceGroups(s, i, c)
  {
    forall c' | PhoneMatch(s, i, c') && c'.lead == c.lead
      ensures ChoiceGroups(s, i, c') == ChoiceGroups(s, i, c)
    {
      SameLeadSameGroups(s, i, c, c');
    }
  }

  /** Two matches at `i` with first groups of the same length capture the same groups and end together. */
  lemma SameLeadSameGroups(s: string, i: nat, c: PhoneChoice, c': PhoneChoice)
    requires PhoneMatch(s, i, c) && PhoneMatch(s, i, c') && c.lead == c'.lead
    ensures ChoiceGroups(s, i, c') == ChoiceGroups(s, i, c)
  {
    PhoneTailForced(s, i, c);
    PhoneTailForced(s, i, c');
    assert ChoiceStarts(i, c') == ChoiceStarts(i, c);
  }

  /** What the phone pattern returns when tried at `i`. */
  function PhoneAt(s: string, i: nat): Option<Hit<PhoneGroups>>
  {
    // Every way of matching needs at least ten characters, so none starts at the end.
    if i >= |s| then None
    else
      var q := DigitsFrom(s, i);
      PhoneLead(s, i, q, LeadDigits(s, q))
  }

  /**
   * What the engine keeps at `i`: a match whose first group is as long as
   * any match at `i` allows (the optional group and its repetition are
   * greedy), with the groups that length fixes.
   */
  ghost predicate GreediestPhone(s: string, i: nat, h: Hit<PhoneGroups>)
  {
    exists c ::
      && PhoneMatch(s, i, c)
      && h == Hit(ChoiceGroups(s, i, c), LineStart(i, c) + 4)
      && (forall c' :: PhoneMatch(s, i, c') ==> c'.lead <= c.lead)
      && (forall c' :: PhoneMatch(s, i, c') && c'.lead == c.lead ==> ChoiceGroups(s, i, c') == ChoiceGroups(s, i, c))
  }

  /** No first group is longer than the digits after the optional `+`. */
  lemma LeadBound(s: string, i: nat)
    requires i < |s|
    ensures forall c :: PhoneMatch(s, i, c) ==> c.lead <= DigitsFrom(s, i) - i + LeadDigits(s, DigitsFrom(s, i))
  {
    forall c | PhoneMatch(s, i, c)
      ensures c.lead <= DigitsFrom(s, i) - i + LeadDigits(s, DigitsFrom(s, i))
    {
      if c.lead > 0 { LeadShape(s, i, c); }
    }
  }

  /** Under a bound no match exceeds, the best match is the greediest. */
  lemma BestIsGreediest(s: string, i: nat, bound: nat, h: Hit<PhoneGroups>)
    requires BestPhone(s, i, bound, h)
    requires forall c :: PhoneMatch(s, i, c) ==> c.lead <= bound
    ensures GreediestPhone(s, i, h)
  {
    var c :| && PhoneMatch(s, i, c) && c.lead <= bound
             && h == Hit(ChoiceGroups(s, i, c), LineStart(i, c) + 4)
             && (forall c' :: PhoneMatch(s, i, c') && c'.lead <= bound ==> c'.lead <= c.lead)
             && (forall c' :: PhoneMatch(s, i, c') && c'.lead == c.lead ==> ChoiceGroups(s, i, c') == ChoiceGroups(s, i, c));
    assert PhoneMatch(s, i, c);
  }

  /** `PhoneAt` finds the greediest match at `i`, and finds none only where the pattern cannot match. */
  lemma PhoneAtGreediest(s: string, i: nat)
    ensures PhoneAt(s, i).Some? ==> GreediestPhone(s, i, PhoneAt(s, i).value)
    ensures PhoneAt(s, i).None? <==> forall c :: !PhoneMatch(s, i, c)
  {
    if i < |s| {
      var q := DigitsFrom(s, i);
      LeadBound(s, i);
      var r := PhoneLead(s, i, q, LeadDigits(s, q));
      assert PhoneAt(s, i) == r;
      if r.Some? {
        BestIsGreediest(s, i, q - i + LeadDigits(s, q), r.value);
      }
    } else {
      forall c | PhoneMatch(s, i, c)
        ensures false
      {
      }
    }
  }

  /** Every phone match is non-empty and lies inside the text. */
  lemma PhoneMatchesWithin(s: string)
    ensures NonEmptyWithin(|s|, p => PhoneAt(s, p))
  {
    forall p: nat | p <= |s| && PhoneAt(s, p).Some?
      ensures p < PhoneAt(s, p).value.end <= |s|
    {
      PhoneAtGreediest(s, p);
    }
  }

  /** The error `''.join(match.groups())` raises when the first group did not take part. */
  datatype PhoneError = UnmatchedCountryCode

  /** `re.search` with the phone pattern. */
  function PhoneSearch(s: string): Option<Match<PhoneGroups>>
  {
    Search(|s|, 0, p => PhoneAt(s, p))
  }

  /**
   * `phones`: the four groups of the first phone match (`re.search`)
   * joined, or None when nothing matches.  A match without the first
   * group has None among its groups, which `''.join` rejects with a
   * TypeError; that is the `Failure` case.
   */
  function Phone(s: string): (r: Result<Option<string>, PhoneError>)
  {
    match PhoneSearch(s)
    case None => Success(None)
    case Some(m) =>
      match m.groups.country
      case None => Failure(UnmatchedCountryCode)
      case Some(cc) => Success(Some(cc + m.groups.area + m.groups.exchange + m.groups.line))
  }

  /** The pattern matches somewhere at `i`. */
  ghost predicate PhoneMatchesAt(s: string, i: nat)
  {
    exists c :: PhoneMatch(s, i, c)
  }

  /** `i` is the leftmost position where the phone pattern matches. */
  ghost predicate LeftmostPhone(s: string, i: nat)
  {
    PhoneMatchesAt(s, i) && forall i': nat :: i' < i ==> !PhoneMatchesAt(s, i')
  }

  /** `re.search` finds the greediest match at the leftmost matching position, if there is one. */
  lemma PhoneSearchLeftmost(s: string)
    ensures PhoneSearch(s).None? <==> forall i: nat :: !PhoneMatchesAt(s, i)
    ensures PhoneSearch(s).Some? ==>
              var m := PhoneSearch(s).value;
              LeftmostPhone(s, m.start) && GreediestPhone(s, m.start, Hit(m.groups, m.end))
  {
    var at := p => PhoneAt(s, p);
    assert PhoneSearch(s) == Search(|s|, 0, at);
    var r := PhoneSearch(s);
    if r.None? {
      forall i: nat
        ensures !PhoneMatchesAt(s, i)
      {
        if i <= |s| {
          assert at(i).None?;
        }
        PhoneAtGreediest(s, i);
      }
    } else {
      var m := r.value;
      assert at(m.start) == Some(Hit(m.groups, m.end));
      PhoneAtGreediest(s, m.start);
      forall i': nat | i' < m.start
        ensures !PhoneMatchesAt(s, i')
      {
        assert at(i').None?;
        PhoneAtGreediest(s, i');
      }
      assert LeftmostPhone(s, m.start);
    }
  }

  /** The phone result is None exactly when the pattern matches nowhere. */
  lemma PhoneAbsent(s: string)
    ensures Phone(s) == Success(None) <==> forall i: nat :: !PhoneMatchesAt(s, i)
  {
    PhoneSearchLeftmost(s);
  }

  /**
   * The phone step raises exactly when, at the leftmost position where
   * the pattern matches, no match takes the optional country group.
   */
  lemma PhoneFails(s: string)
    ensures Phone(s).Failure? <==>
              exists i: nat :: LeftmostPhone(s, i) && forall c :: PhoneMatch(s, i, c) ==> c.lead == 0
  {
    PhoneSearchLeftmost(s);
    var r := PhoneSearch(s);
    if r.Some? {
      var m := r.value;
      GreediestCountry(s, m.start, Hit(m.groups, m.end));
      forall i: nat | LeftmostPhone(s, i)
        ensures i == m.start
      {
      }
    }
  }

  /** The greediest match leaves the country group out exactly when every match at `i` does. */
  lemma GreediestCountry(s: string, i: nat, h: Hit<PhoneGroups>)
    requires GreediestPhone(s, i, h)
    ensures h.groups.country.None? <==> forall c :: PhoneMatch(s, i, c) ==> c.lead == 0
  {
    var c :| && PhoneMatch(s, i, c)
             && h == Hit(ChoiceGroups(s, i, c), LineStart(i, c) + 4)
             && (forall c' :: PhoneMatch(s, i, c') ==> c'.lead <= c.lead)
             && (forall c' :: PhoneMatch(s, i, c') && c'.lead == c.lead ==> ChoiceGroups(s, i, c') == ChoiceGroups(s, i, c));
  }

  /** An optional `+`, then eleven to thirteen digits: a country code of one to three digits and ten more. */
  predicate JoinedPhone(p: string) {
    var d := if 0 < |p| && p[0] == '+' then 1 else 0;
    d + 11 <= |p| <= d + 13 && All(p, d, |p|, IsDigit)
  }

  /** A phone number found is an optional `+` followed by eleven to thirteen digits. */
  lemma PhoneShape(s: string)
    requires Phone(s).Success? && Phone(s).value.Some?
    ensures var p := Phone(s).value.value;
            JoinedPhone(p)
  {
    PhoneSearchLeftmost(s);
    var m := PhoneSearch(s).value;
    GreediestDigits(s, m.start, Hit(m.groups, m.end));
  }

  /** The greediest match, when it takes the country group, joins to an optional `+` and eleven to thirteen digits. */
  lemma GreediestDigits(s: string, i: nat, h: Hit<PhoneGroups>)
    requires GreediestPhone(s, i, h) && h.groups.country.Some?
    ensures var g := h.groups;
            var p := g.country.value + g.area + g.exchange + g.line;
            JoinedPhone(p)
  {
    var c :| && PhoneMatch(s, i, c)
             && h == Hit(ChoiceGroups(s, i, c), LineStart(i, c) + 4)
             && (forall c' :: PhoneMatch(s, i, c') ==> c'.lead <= c.lead)
             && (forall c' :: PhoneMatch(s, i, c') && c'.lead == c.lead ==> ChoiceGroups(s, i, c') == ChoiceGroups(s, i, c));
    PhoneDigits(s, i, c);
  }

  /** The joined groups of a match that takes the country group. */
  lemma PhoneDigits(s: string, i: nat, c: PhoneChoice)
    requires PhoneMatch(s, i, c) && c.lead > 0
    ensures var g := ChoiceGroups(s, i, c);
            var p := g.country.value + g.area + g.exchange + g.line;
            JoinedPhone(p)
  {
    var g := ChoiceGroups(s, i, c);
    var cc := g.country.value;
    var p := cc + g.area + g.exchange + g.line;
    assert LeadGroup(cc);
    assert p[0] == cc[0];
    var d := if cc[0] == '+' then 1 else 0;
    forall k | d <= k < |p|
      ensures IsDigit(p[k])
    {
      if k >= |cc| + 6 {
        assert p[k] == g.line[k - |cc| - 6];
      } else if k >= |cc| + 3 {
        assert p[k] == g.exchange[k - |cc| - 3];
      } else if k >= |cc| {
        assert p[k] == g.area[k - |cc|];
      } else {
        assert p[k] == cc[k];
      }
    }
  }

  /** A number without a country code matches only with the first group skipped, so joining raises. */
  lemma PhoneWithoutCountryCodeFails()
    ensures Phone("555-123-4567").Failure?
  {
    var s := "555-123-4567";
    var h := PhoneWithoutCountryCodeAt();
    PhoneAtStart(s, h);
  }

  /** The example's only reading skips the first group. */
  lemma PhoneWithoutCountryCodeAt() returns (h: Hit<PhoneGroups>)
    ensures PhoneAt("555-123-4567", 0) == Some(h) && h.groups.country.None?
  {
    var s := "555-123-4567";
    assert LeadDigits(s, 0) == 3 by {
      assert SkipWhile(s, 0, IsDigit) == 3 by { assert !IsDigit(s[3]); }
    }
    NoCountryCodeTails();
    assert PhoneLead(s, 0, 0, 0).Some?;
    assert PhoneLead(s, 0, 0, 1) == PhoneLead(s, 0, 0, 0);
    assert PhoneLead(s, 0, 0, 2) == PhoneLead(s, 0, 0, 0);
    assert PhoneLead(s, 0, 0, 3) == PhoneLead(s, 0, 0, 0);
    h := PhoneAt(s, 0).value;
  }

  /** In the example, no first group of one to three digits leaves room for the rest. */
  lemma NoCountryCodeTails()
    ensures PhoneTail("555-123-4567", 3).None?
    ensures PhoneTail("555-123-4567", 2).None?
    ensures PhoneTail("555-123-4567", 1).None?
    ensures PhoneTail("555-123-4567", 0).Some?
  {
    var s := "555-123-4567";
    assert !DigitsAt(s, 11, 4);
    assert !DigitsAt(s, 2, 3) by { assert !IsDigit(s[3]); }
    assert !DigitsAt(s, 1, 3) by { assert !IsDigit(s[3]); }
    assert DigitsAt(s, 0, 3) && DigitsAt(s, 4, 3) && DigitsAt(s, 8, 4);
  }

  /** With a country code the four groups are joined without their separators. */
  lemma PhoneWithCountryCode(s: string)
    requires s == "+1 555 123 4567"
    ensures Phone(s) == Success(Some("+15551234567"))
  {
    assert "+1" + "555" + "123" + "4567" == "+15551234567";
    var h := Hit(PhoneGroups(Some("+1"), "555", "123", "4567"), 15);
    PhoneWithCountryCodeAt();
    PhoneAtStart(s, h);
    PhoneJoined(s, Match(0, h.groups, h.end));
  }

  /** A leftmost match with a country code gives the four groups joined. */
  lemma PhoneJoined(s: string, m: Match<PhoneGroups>)
    requires PhoneSearch(s) == Some(m) && m.groups.country.Some?
    ensures Phone(s) == Success(Some(m.groups.country.value + m.groups.area + m.groups.exchange + m.groups.line))
  {
  }

  /** The example's reading at its start takes `+1` as the first group. */
  lemma PhoneWithCountryCodeAt()
    ensures PhoneAt("+1 555 123 4567", 0) == Some(Hit(PhoneGroups(Some("+1"), "555", "123", "4567"), 15))
  {
    var s := "+1 555 123 4567";
    assert LeadDigits(s, 1) == 1 by {
      assert SkipWhile(s, 1, IsDigit) == 2 by { assert !IsDigit(s[2]); }
    }
    assert s[0..2] == "+1" && s[3..6] == "555" && s[7..10] == "123" && s[11..15] == "4567";
    assert PhoneTail(s, 2) == Some(Starts(3, 7, 11));
  }

  /** A match at the very start is the one `re.search` returns. */
  lemma PhoneAtStart(s: string, h: Hit<PhoneGroups>)
    requires PhoneAt(s, 0) == Some(h)
    ensures PhoneSearch(s) == Some(Match(0, h.groups, h.end))
  {
    var at := p => PhoneAt(s, p);
    assert at(0) == Some(h);
    assert PhoneSearch(s) == Search(|s|, 0, at);
  }

  // ---------------------------------------------------------------------
  // Name: the first entity the language model labels PERSON
  // ---------------------------------------------------------------------

  /** A named entity as the language model reports it: its text and its label. */
  datatype Entity = Entity(text: string, kind: string)

  /** `names[0] if names else None`, with `names` the PERSON entities in order. */
  function Name(ents: seq<Entity>): (r: Option<string>)
    ensures r.None? <==> forall k :: 0 <= k < |ents| ==> ents[k].kind != "PERSON"
    ensures r.Some? ==>
              exists k :: && 0 <= k < |ents| && ents[k].kind == "PERSON" && r.value == ents[k].text
                          && forall j :: 0 <= j < k ==> ents[j].kind != "PERSON"
    decreases |ents|
  {
    if ents == [] then None
    else if ents[0].kind == "PERSON" then Some(ents[0].text)
    else
      var r := Name(ents[1..]);
      assert forall k :: 1 <= k < |ents| ==> ents[k] == ents[1..][k - 1];
      if r.Some? then
        var k :| && 0 <= k < |ents[1..]| && ents[1..][k].kind == "PERSON" && r.value == ents[1..][k].text
                 && forall j :: 0 <= j < k ==> ents[1..][j].kind != "PERSON";
        assert ents[k + 1] == ents[1..][k];
        r
      else r
  }

  // ---------------------------------------------------------------------
  // Location: the second `|`-separated field of the first line
  // ---------------------------------------------------------------------

  /** `resume_text.strip().split('\n')[0]`; the split always has a first piece. */
  function FirstLine(s: string): (l: string)
    ensures '\n' !in l
    ensures l == Strip(s)[..IndexOf(Strip(s), '\n', 0)]
  {
    SplitFirst(Strip(s), '\n');
    Split(Strip(s), '\n')[0]
  }

  /** `[p.strip() for p in parts]`. */
  function StripAll(parts: seq<string>): (r: seq<string>)
    ensures |r| == |parts| && forall k :: 0 <= k < |parts| ==> r[k] == Strip(parts[k])
  {
    seq(|parts|, k requires 0 <= k < |parts| => Strip(parts[k]))
  }

  /** `_extract_location`: the second field of the first line, stripped, when the line has one. */
  function Location(s: string): (r: Option<string>)
  {
    var parts := StripAll(Split(FirstLine(s), '|'));
    if |parts| >= 2 then Some(parts[1]) else None
  }

  /**
   * There is a location exactly when the first line holds a `|`, and it
   * is then the stripped text between the first `|` and the next one (or
   * the end of the line).
   */
  lemma LocationIsSecondField(s: string)
    ensures Location(s).None? <==> '|' !in FirstLine(s)
    ensures Location(s).Some? ==>
              var l := FirstLine(s);
              var k := IndexOf(l, '|', 0);
              k < |l| && Location(s).value == Strip(l[k + 1..IndexOf(l, '|', k + 1)])
  {
    var l := FirstLine(s);
    var parts := Split(l, '|');
    assert |parts| >= 2 <==> '|' in l;
    assert Location(s) == if |parts| >= 2 then Some(Strip(parts[1])) else None;
    if '|' in l {
      SplitSecond(l, '|');
    }
  }

  /** A location never spans lines, holds no `|`, and has no whitespace at either end. */
  lemma LocationShape(s: string)
    requires Location(s).Some?
    ensures var loc := Location(s).value;
            && '\n' !in loc && '|' !in loc
            && (loc == [] || (!IsSpace(loc[0]) && !IsSpace(loc[|loc| - 1])))
  {
    LocationIsSecondField(s);
    var l := FirstLine(s);
    FieldShape(l, IndexOf(l, '|', 0) + 1);
  }

  /** A field of a line, cut at the next `|` and stripped, holds neither a line break nor a `|`. */
  lemma FieldShape(l: string, i: nat)
    requires i <= |l| && '\n' !in l
    ensures var f := Strip(l[i..IndexOf(l, '|', i)]);
            '\n' !in f && '|' !in f
  {
    var f := l[i..IndexOf(l, '|', i)];
    StripWithin(f);
    forall c | c in f
      ensures c != '\n' && c != '|'
    {
      var x :| 0 <= x < |f| && f[x] == c;
      assert l[i + x] == c;
    }
  }

  /** A header line in the expected `Name | Location` form yields its second field. */
  lemma LocationExample()
    ensures Location("A | B\nC") == Some("B")
  {
    ExampleFirstLine();
    ExampleField();
    LocationIsSecondField("A | B\nC");
  }

  lemma ExampleFirstLine()
    ensures FirstLine("A | B\nC") == "A | B"
  {
    var s := "A | B\nC";
    StripNoop(s);
    IndexOfUnique(s, '\n', 0, 5);
    assert s[..5] == "A | B";
  }

  lemma ExampleField()
    ensures var l := "A | B";
            IndexOf(l, '|', 0) == 2 && IndexOf(l, '|', 3) == 5 && Strip(l[3..5]) == "B"
  {
    var l := "A | B";
    IndexOfUnique(l, '|', 0, 2);
    IndexOfUnique(l, '|', 3, 5);
    var f := " B";
    assert l[3..5] == f;
    assert StripStart(f) == 1;
    assert TrimBack(f, 1, |f|) == 2;
  }

  // ---------------------------------------------------------------------
  // _extract_personal_info
  // ---------------------------------------------------------------------

  /**
   * `_extract_personal_info`: the email, phone and location come from the
   * text and the name from the entities the language model found in it.
   * The phone step is the only one that can raise.
   */
  function ExtractPersonalInfo(s: string, ents: seq<Entity>): (r: Result<PersonalInfo, PhoneError>)
    ensures r.Failure? <==> Phone(s).Failure?
  {
    match Phone(s)
    case Failure(e) => Failure(e)
    case Success(phone) => Success(PersonalInfo(Name(ents), Email(s), phone, Location(s)))
  }
}
