/**
 * Skill matching (`match_skills`): the nouns and proper nouns the tagger
 * finds in the résumé are intersected with the fixed skill set of the
 * selected role; the rest of the role's skills are reported missing, and
 * the score is the matched share of the role's skills.
 */
module Skills {
  import opened Percentage

  /** One token of the tagger's output: its text and its part-of-speech tag. */
  datatype Token = Token(text: string, pos: string)

  /** The two part-of-speech tags whose tokens are kept as skill candidates. */
  predicate IsNounTag(pos: string)
    ensures IsNounTag(pos) ==> pos != "SPACE"
  {
    pos == "NOUN" || pos == "PROPN"
  }

  /** The fixed role-to-skills catalog. */
  const Catalog: map<string, set<string>> := map[
    "Software Engineer" := {"Python", "Java", "C++", "Machine Learning", "Git", "SQL", "Docker",
                            "Kubernetes", "JavaScript", "React", "Node.js"},
    "Data Scientist" := {"Pandas", "NumPy", "Deep Learning", "Statistics", "Python", "R",
                         "TensorFlow", "PyTorch", "SQL", "Data Visualization"},
    "Marketing" := {"SEO", "Google Ads", "Content Writing", "Social Media", "Branding",
                    "Google Analytics", "Copywriting", "Email Marketing"},
    "UI/UX Designer" := {"Figma", "Adobe XD", "Wireframing", "User Research", "Sketch",
                         "Prototyping", "Design Thinking"},
    "Cybersecurity Analyst" := {"Network Security", "Ethical Hacking", "Cryptography", "Firewalls",
                                "Incident Response", "Penetration Testing"}
  ]

  /** The catalog offers exactly five roles. */
  lemma CatalogRoles()
    ensures Catalog.Keys == {"Software Engineer", "Data Scientist", "Marketing", "UI/UX Designer", "Cybersecurity Analyst"}
  {
  }

  /**
   * Every role in the catalog has skills, so the `else 0` default of the
   * score is never taken for it: its score is the matched share of a
   * non-empty skill set, and it is 100 exactly when nothing is missing.
   */
  lemma CatalogRoleHasSkills(nlp: string -> seq<Token>, resumeText: string, role: string)
    requires role in Catalog
    ensures Catalog[role] != {} && |RoleSkills(role)| > 0
    ensures MatchSkills(nlp, resumeText, role).score == 100.0 <==> MatchSkills(nlp, resumeText, role).missing == {}
  {
  }

  /** `predefined_skills.get(role, set())`: a role outside the catalog has no skills. */
  function RoleSkills(role: string): (skills: set<string>)
    ensures role !in Catalog ==> skills == {}
    ensures role in Catalog ==> skills == Catalog[role]
  {
    if role in Catalog then Catalog[role] else {}
  }

  /**
   * `extract_skills_nlp`: the texts of the tokens the tagger `nlp` tags as a
   * noun or proper noun. The tagger itself is a parameter; nothing is
   * assumed about the tokens it produces.
   */
  function ExtractSkills(nlp: string -> seq<Token>, text: string): (candidates: set<string>)
    ensures forall s :: s in candidates <==> exists t :: t in nlp(text) && t.text == s && IsNounTag(t.pos)
  {
    set t | t in nlp(text) && IsNounTag(t.pos) :: t.text
  }

  /** What `match_skills` returns. */
  datatype SkillMatch = SkillMatch(matched: set<string>, missing: set<string>, score: real)

  /**
   * The set logic of `match_skills` on a role's skills `jobSkills`: matched
   * skills are the extracted ones among `jobSkills`, missing skills the rest
   * of `jobSkills`, and the score is the matched share.
   */
  function Match(extracted: set<string>, jobSkills: set<string>): (m: SkillMatch)
    ensures forall s :: s in m.matched <==> s in jobSkills && s in extracted
    ensures m.matched !! m.missing && m.matched + m.missing == jobSkills
    ensures 0.0 <= m.score <= 100.0
    ensures jobSkills != {} ==> m.score * |jobSkills| as real == |m.matched| as real * 100.0
    ensures jobSkills == {} ==> m.score == 0.0
    ensures m.score == 100.0 <==> jobSkills != {} && m.missing == {}
    ensures m.score == 0.0 <==> m.matched == {}
  {
    var matched := extracted * jobSkills;
    var missing := jobSkills - matched;
    assert jobSkills == matched + missing;
    assert |jobSkills| == |matched| + |missing|;
    SkillMatch(matched, missing, Percent(|matched|, |jobSkills|))
  }

  /**
   * `match_skills(resume_text, job_role)`: a skill is matched exactly when it
   * is one of the role's skills and literally one of the extracted tokens;
   * matched and missing skills split the role's skills between them; the
   * score is the matched share, 0 for a role without skills, and 100 exactly
   * when the role has skills and none is missing.
   */
  function MatchSkills(nlp: string -> seq<Token>, resumeText: string, role: string): (m: SkillMatch)
    ensures forall s :: s in m.matched <==> s in RoleSkills(role) && s in ExtractSkills(nlp, resumeText)
    ensures m.matched !! m.missing && m.matched + m.missing == RoleSkills(role)
    ensures 0.0 <= m.score <= 100.0
    ensures m.score == Percent(|m.matched|, |RoleSkills(role)|)
    ensures RoleSkills(role) == {} ==> m.score == 0.0
    ensures m.score == 100.0 <==> RoleSkills(role) != {} && m.missing == {}
    ensures m.score == 0.0 <==> m.matched == {}
  {
    Match(ExtractSkills(nlp, resumeText), RoleSkills(role))
  }

  /** A role outside the catalog matches nothing, misses nothing and scores 0. */
  lemma UnknownRoleScoresZero(nlp: string -> seq<Token>, resumeText: string, role: string)
    requires role !in Catalog
    ensures MatchSkills(nlp, resumeText, role) == SkillMatch({}, {}, 0.0)
  {
  }

  /**
   * When every skill of a catalog role is tagged as a noun in the résumé,
   * the role is fully matched.
   */
  lemma AllSkillsTaggedScoresFull(nlp: string -> seq<Token>, resumeText: string, role: string)
    requires role in Catalog
    requires forall s :: s in Catalog[role] ==> exists t :: t in nlp(resumeText) && t.text == s && IsNounTag(t.pos)
    ensures MatchSkills(nlp, resumeText, role).score == 100.0
    ensures MatchSkills(nlp, resumeText, role).missing == {}
  {
    var m := MatchSkills(nlp, resumeText, role);
    assert m.matched == RoleSkills(role);
  }

  /**
   * Matching is exact and case-sensitive: a lower-case "python" token never
   * matches the catalog's "Python", whatever the tagger produces.
   */
  lemma MatchIsCaseSensitive(nlp: string -> seq<Token>, resumeText: string)
    ensures "python" !in MatchSkills(nlp, resumeText, "Software Engineer").matched
    ensures "Python" in MatchSkills(nlp, resumeText, "Software Engineer").matched <==>
      exists t :: t in nlp(resumeText) && t.text == "Python" && IsNounTag(t.pos)
  {
    assert "python" !in RoleSkills("Software Engineer");
    assert "Python" in RoleSkills("Software Engineer");
  }

  /** A string with a space in it. */
  predicate HasSpace(s: string) {
    exists i :: 0 <= i < |s| && s[i] == ' '
  }

  /** Every role in the catalog lists at least one skill of two words. */
  lemma EveryRoleHasTwoWordSkill(role: string)
    requires role in Catalog
    ensures exists s :: s in Catalog[role] && HasSpace(s)
  {
    var s: string :=
      if role == "Software Engineer" then "Machine Learning"
      else if role == "Data Scientist" then "Deep Learning"
      else if role == "Marketing" then "Google Ads"
      else if role == "UI/UX Designer" then "Adobe XD"
      else "Network Security";
    assert s in Catalog[role];
    assert s[6] == ' ' || s[4] == ' ' || s[5] == ' ' || s[7] == ' ';
  }

  /**
   * When the tagger never tags a token with a space in it as a noun or
   * proper noun, no role can reach a score of 100: its two-word skill is
   * always missing. Tokens with other tags, such as whitespace tokens, are
   * unconstrained.
   */
  lemma NoFullScoreWithoutSpacedTokens(nlp: string -> seq<Token>, resumeText: string, role: string)
    requires forall t :: t in nlp(resumeText) && IsNounTag(t.pos) ==> !HasSpace(t.text)
    ensures MatchSkills(nlp, resumeText, role).score < 100.0
  {
    var m := MatchSkills(nlp, resumeText, role);
    if role in Catalog {
      EveryRoleHasTwoWordSkill(role);
      var s :| s in Catalog[role] && HasSpace(s);
      assert s !in ExtractSkills(nlp, resumeText);
      assert s in m.missing;
    }
  }
}
