/**
 * The section check (`check_resume_format`): a fixed, ordered table of five
 * résumé sections, each with keywords; a section is reported missing when
 * none of its keywords occurs as a substring of the lower-cased résumé.
 */
module ResumeFormat {
  import opened PyText

  /** One row of the section table: a section name and the keywords that reveal it. */
  datatype Section = Section(name: string, keywords: seq<string>)

  /** The section table, in the order the result lists missing sections. */
  const SectionTable: seq<Section> := [
    Section("Education", ["education", "degree", "bachelor", "master", "university"]),
    Section("Experience", ["experience", "internship", "company", "work"]),
    Section("Skills", ["skills", "technologies", "expertise"]),
    Section("Certifications", ["certification", "course", "training"]),
    Section("Projects", ["projects", "portfolio", "github"])
  ]

  /** The section names of a table, in table order. */
  function Names(table: seq<Section>): (names: seq<string>)
    ensures |names| == |table|
    ensures forall k :: 0 <= k < |table| ==> names[k] == table[k].name
  {
    seq(|table|, k requires 0 <= k < |table| => table[k].name)
  }

  /** `any(keyword in text for keyword in keywords)`. */
  predicate AnyKeyword(keywords: seq<string>, text: string)
    ensures keywords == [] ==> !AnyKeyword(keywords, text)
    ensures "" in keywords ==> AnyKeyword(keywords, text)
  {
    exists kw :: kw in keywords && Contains(text, kw)
  }

  /** `a` is `b` with some elements left out, the rest kept in order. */
  predicate IsSubsequence(a: seq<string>, b: seq<string>)
    decreases |b|
  {
    a == [] || (b != [] && ((a[0] == b[0] && IsSubsequence(a[1..], b[1..])) || IsSubsequence(a, b[1..])))
  }

  /** No element occurs twice. */
  predicate NoDuplicates(s: seq<string>) {
    forall i, j :: 0 <= i < j < |s| ==> s[i] != s[j]
  }

  /** Every element of a subsequence is an element of the sequence. */
  lemma {:induction false} SubsequenceElements(a: seq<string>, b: seq<string>)
    requires IsSubsequence(a, b)
    ensures forall x :: x in a ==> x in b
    decreases |b|
  {
    if a != [] {
      if a[0] == b[0] && IsSubsequence(a[1..], b[1..]) {
        SubsequenceElements(a[1..], b[1..]);
        assert forall x :: x in a ==> x == a[0] || x in a[1..];
      } else {
        SubsequenceElements(a, b[1..]);
      }
    }
  }

  /** A subsequence of a duplicate-free sequence is duplicate-free. */
  lemma {:induction false} SubsequenceNoDuplicates(a: seq<string>, b: seq<string>)
    requires IsSubsequence(a, b) && NoDuplicates(b)
    ensures NoDuplicates(a)
    decreases |b|
  {
    if a != [] {
      assert NoDuplicates(b[1..]) by {
        assert forall i :: 0 <= i < |b[1..]| ==> b[1..][i] == b[i + 1];
      }
      if a[0] == b[0] && IsSubsequence(a[1..], b[1..]) {
        SubsequenceNoDuplicates(a[1..], b[1..]);
        SubsequenceElements(a[1..], b[1..]);
        assert b[0] !in b[1..];
        forall i, j | 0 <= i < j < |a|
          ensures a[i] != a[j]
        {
          if i == 0 {
            assert a[j] == a[1..][j - 1];
          } else {
            assert a[i] == a[1..][i - 1] && a[j] == a[1..][j - 1];
          }
        }
      } else {
        SubsequenceNoDuplicates(a, b[1..]);
      }
    }
  }

  /** Dropping the first row of a table drops the first name. */
  lemma NamesTail(table: seq<Section>)
    requires table != []
    ensures Names(table) == [table[0].name] + Names(table[1..])
  {
  }

  /**
   * The list comprehension of `check_resume_format` over any table and
   * already lower-cased text: the names of the rows none of whose keywords
   * occurs in `lowered`, kept in table order.
   */
  function MissingFrom(table: seq<Section>, lowered: string): (missing: seq<string>)
    ensures IsSubsequence(missing, Names(table))
    ensures forall k :: 0 <= k < |table| && !AnyKeyword(table[k].keywords, lowered) ==> table[k].name in missing
    ensures forall n :: n in missing ==>
      exists k :: 0 <= k < |table| && table[k].name == n && !AnyKeyword(table[k].keywords, lowered)
  {
    if table == [] then []
    else
      var rest := MissingFrom(table[1..], lowered);
      NamesTail(table);
      assert forall k :: 1 <= k < |table| ==> table[k] == table[1..][k - 1];
      if AnyKeyword(table[0].keywords, lowered) then rest else [table[0].name] + rest
  }

  /** The section names in table order. */
  const AllSections: seq<string> := ["Education", "Experience", "Skills", "Certifications", "Projects"]

  /** The table lists each section once, in the order of `AllSections`. */
  lemma SectionTableNames()
    ensures Names(SectionTable) == AllSections
    ensures NoDuplicates(AllSections)
  {
  }

  /**
   * `check_resume_format(resume_text)`: the sections whose keywords are all
   * absent from the lower-cased résumé, a duplicate-free subsequence of
   * `AllSections` that holds a section exactly when none of its keywords
   * occurs.
   */
  function MissingSections(resumeText: string): (missing: seq<string>)
    ensures IsSubsequence(missing, AllSections)
    ensures NoDuplicates(missing)
    ensures forall k :: 0 <= k < |SectionTable| ==>
      (SectionTable[k].name in missing <==> !AnyKeyword(SectionTable[k].keywords, Lower(resumeText)))
  {
    var missing := MissingFrom(SectionTable, Lower(resumeText));
    SectionTableNames();
    SubsequenceNoDuplicates(missing, AllSections);
    missing
  }

  /** With no keyword hit in any row, every row's name is reported, in table order. */
  lemma {:induction false} NoHitsAllMissing(table: seq<Section>, lowered: string)
    requires forall k :: 0 <= k < |table| ==> !AnyKeyword(table[k].keywords, lowered)
    ensures MissingFrom(table, lowered) == Names(table)
  {
    if table != [] {
      NamesTail(table);
      assert forall k :: 1 <= k < |table[1..]| + 1 ==> table[1..][k - 1] == table[k];
      NoHitsAllMissing(table[1..], lowered);
    }
  }

  /** An empty résumé contains no keyword, so all five sections are missing, in table order. */
  lemma EmptyResumeMissesAll()
    ensures MissingSections("") == AllSections
  {
    var lowered := Lower("");
    assert lowered == [];
    forall k | 0 <= k < |SectionTable|
      ensures !AnyKeyword(SectionTable[k].keywords, lowered)
    {
      forall kw | kw in SectionTable[k].keywords
        ensures !Contains(lowered, kw)
      {
        ContainsInEmpty(kw);
      }
    }
    NoHitsAllMissing(SectionTable, lowered);
    SectionTableNames();
  }

  /** When every keyword found in `t1` is also found in `t2`, `t2` misses a subsequence of what `t1` misses. */
  lemma {:induction false} MissingShrinks(table: seq<Section>, t1: string, t2: string)
    requires forall kw :: Contains(t1, kw) ==> Contains(t2, kw)
    ensures IsSubsequence(MissingFrom(table, t2), MissingFrom(table, t1))
  {
    if table != [] {
      MissingShrinks(table[1..], t1, t2);
      var r1, r2 := MissingFrom(table[1..], t1), MissingFrom(table[1..], t2);
      if !AnyKeyword(table[0].keywords, t2) {
        assert !AnyKeyword(table[0].keywords, t1);
        assert ([table[0].name] + r2)[1..] == r2;
        assert ([table[0].name] + r1)[1..] == r1;
      } else if !AnyKeyword(table[0].keywords, t1) {
        assert ([table[0].name] + r1)[1..] == r1;
      }
    }
  }

  /** Adding text before or after a résumé never adds a missing section, and keeps the order of the ones that remain. */
  lemma MoreTextFewerMissing(resumeText: string, extra: string)
    ensures IsSubsequence(MissingSections(resumeText + extra), MissingSections(resumeText))
    ensures IsSubsequence(MissingSections(extra + resumeText), MissingSections(resumeText))
  {
    LowerAppend(resumeText, extra);
    LowerAppend(extra, resumeText);
    forall kw | Contains(Lower(resumeText), kw)
      ensures Contains(Lower(resumeText + extra), kw) && Contains(Lower(extra + resumeText), kw)
    {
      ContainsExtend(Lower(resumeText), Lower(extra), kw);
    }
    MissingShrinks(SectionTable, Lower(resumeText), Lower(resumeText + extra));
    MissingShrinks(SectionTable, Lower(resumeText), Lower(extra + resumeText));
  }

  /** The check ignores case: lower-casing the résumé first changes nothing. */
  lemma SectionCheckIgnoresCase(resumeText: string)
    ensures MissingSections(Lower(resumeText)) == MissingSections(resumeText)
  {
    LowerIdempotent(resumeText);
  }

  /**
   * Keywords are matched as substrings, not words: "Network" reveals an
   * Experience section because it contains "work".
   */
  lemma KeywordsMatchInsideWords()
    ensures "Experience" !in MissingSections("Network")
  {
    var lowered := Lower("Network");
    assert lowered[3..7] == "work" by {
      var w := lowered[3..7];
      assert w[0] == 'w' && w[1] == 'o' && w[2] == 'r' && w[3] == 'k';
    }
    assert OccursAt(lowered, "work", 3);
    assert "work" in SectionTable[1].keywords;
    assert AnyKeyword(SectionTable[1].keywords, lowered);
  }
}
