/**
 * `ResumeParser._extract_skills`: which of a fixed list of technical
 * skills occur anywhere in the resume, ignoring case.
 */
module Skills {
  import opened Text

  /** The predefined skill keywords, in the order the parser lists them. */
  const Catalogue: seq<string> :=
    ["python", "java", "machine learning", "ai", "tensorflow",
     "pytorch", "javascript", "react", "sql", "git"]

  /** `skill.lower() in resume_text.lower()`. */
  predicate Mentions(s: string, skill: string) {
    Contains(Lower(s), Lower(skill))
  }

  /**
   * The list comprehension over `skills`: the keywords the text mentions,
   * in catalogue order.
   */
  function Found(skills: seq<string>, s: string): (r: seq<string>)
    ensures |r| <= |skills|
    ensures forall t :: t in r <==> t in skills && Mentions(s, t)
    decreases |skills|
  {
    if skills == [] then []
    else
      var rest := Found(skills[1..], s);
      assert forall t :: t in skills <==> t == skills[0] || t in skills[1..];
      if Mentions(s, skills[0]) then [skills[0]] + rest else rest
  }

  /**
   * `list(set(found_skills))`: the order of the resulting list is whatever
   * the set's iteration order is, so the model keeps the set.
   */
  function ExtractSkills(s: string): (r: set<string>)
    ensures r <= set t | t in Catalogue
  {
    set t | t in Found(Catalogue, s)
  }

  /**
   * A keyword is reported exactly when it is in the catalogue and occurs in
   * the lower-cased text; the keywords are already lower case, so
   * lower-casing them changes nothing.
   */
  lemma SkillIffOccurs(s: string, t: string)
    ensures t in ExtractSkills(s) <==> t in Catalogue && exists k :: OccursAt(Lower(s), t, k)
  {
    CatalogueIsLowerCase();
    if t in Catalogue {
      ContainsIff(Lower(s), t);
    }
  }

  /** Every keyword is its own lower case. */
  lemma CatalogueIsLowerCase()
    ensures forall t :: t in Catalogue ==> Lower(t) == t
  {
    forall t | t in Catalogue
      ensures Lower(t) == t
    {
      forall k | 0 <= k < |t|
        ensures LowerChar(t[k]) == t[k]
      {
        assert !('A' <= t[k] <= 'Z');
      }
    }
  }

  /** Matching is by substring: a resume that mentions JavaScript is also reported as knowing Java. */
  lemma JavaScriptImpliesJava(s: string)
    requires "javascript" in ExtractSkills(s)
    ensures "java" in ExtractSkills(s)
  {
    SkillIffOccurs(s, "javascript");
    SkillIffOccurs(s, "java");
    var k := PrefixOccurs(Lower(s));
  }

  /** Where "javascript" occurs, "java" does too. */
  lemma PrefixOccurs(h: string) returns (k: nat)
    requires exists k :: OccursAt(h, "javascript", k)
    ensures OccursAt(h, "java", k)
  {
    k :| OccursAt(h, "javascript", k);
    assert h[k..k + 4] == h[k..k + 10][..4];
  }

  /** Substring matching also finds keywords inside other words: "email" yields "ai". */
  lemma EmailMentionsAi()
    ensures "ai" in ExtractSkills("Email")
  {
    EmailHasAi();
    SkillIffOccurs("Email", "ai");
  }

  lemma EmailHasAi()
    ensures OccursAt(Lower("Email"), "ai", 2)
  {
    var l := Lower("Email");
    assert l[2] == 'a' && l[3] == 'i';
    assert l[2..4] == "ai";
  }
}
