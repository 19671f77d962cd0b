# IntelliScan résumé analyser: a Dafny model of its text-analysis core

IntelliScan takes uploaded résumés (PDF or DOCX), a pasted job description
and a target role. For each résumé it reports:

- which of the role's catalog skills were found and which are missing, with a skill score;
- how many job-description words also occur in the résumé, as a job score;
- which of five standard résumé sections (Education, Experience, Skills,
  Certifications, Projects) show no sign of being present.

This project models that logic from `app.py` as pure Dafny functions and
proves properties about it.

- `pytext.dfy` (module `PyText`) holds the Python string operations the
  analyser uses. `str.lower()` is `Lower`. `str.split()` with no separator
  is `Words`, using Python's full list of whitespace characters. The
  substring test `kw in text` is `Contains`. The analyser never joins
  words; `JoinWords` (`" ".join`) is there only to state that splitting
  undoes it.
- `percentage.dfy` (module `Percentage`) holds the score formula both
  scores share: `(part / whole) * 100 if whole else 0`, over exact reals.
- `skills.dfy` (module `Skills`) holds the role-to-skills catalog
  (`predefined_skills`) and `extract_skills_nlp`, which keeps the tokens
  tagged NOUN or PROPN. It also holds `match_skills`. The part-of-speech
  tagger is a parameter `nlp: string -> seq<Token>`, and nothing is assumed
  about what it returns.
- `job_match.dfy` (module `JobMatch`) holds `job_match_percentage`.
- `resume_format.dfy` (module `ResumeFormat`) holds the section table and
  `check_resume_format`.
- `extraction.dfy` (module `Extraction`) holds the file-name test of
  `extract_text`. It models `os.path.splitext` as on POSIX, lower-cases the
  extension, and picks the PDF parser, the DOCX parser or none.

What is proved:

- Matched and missing skills partition the role's skills.
- A skill matches only by exact, case-sensitive equality with a tagged
  noun's text.
- Both scores lie in [0, 100]. Each is 0 on an empty denominator (a role
  outside the catalog, a job description without words). Each is 100
  exactly when the denominator is non-empty and nothing is missing.
- The job score ignores case. It is unchanged when the whole résumé or the
  whole job description is repeated, and when two space-joined parts of the
  job description are swapped.
- The missing-section list is a duplicate-free subsequence of the table's
  names. It contains a section exactly when none of that section's
  keywords occurs. Adding text before or after a résumé never adds a
  missing section.
- A file gets a parser exactly when its name ends in ".pdf" or ".docx", in
  any case, after a stem whose last path component is not made of dots
  only.

Two facts about the code:

- `app.py` does not clamp either score. Both still lie in [0, 100],
  because an intersection is never larger than the set it is taken from
  (`Skills.Match`, `JobMatch.Overlap`).
- Every role in the catalog lists at least one two-word skill, such as
  "Machine Learning" or "Google Ads". A tagger that never tags a token
  containing a space as NOUN or PROPN therefore cannot bring any role to
  100% (`Skills.NoFullScoreWithoutSpacedTokens`). A full skill score needs
  noun tokens that contain spaces.

## Model

| member | source | states |
|---|---|---|
| `PyText.Lower` | app.py:16 | the result has the input's length and each character is that character lower-cased; only ASCII letters are folded (see "## Left out") |
| `PyText.IsSpace` | app.py:46-47 | the separator set of `str.split()`: exactly Python's whitespace characters (U+0009-U+000D, U+001C-U+0020, U+0085, U+00A0, U+1680, U+2000-U+200A, U+2028, U+2029, U+202F, U+205F, U+3000); no separator is changed by lower-casing |
| `PyText.Words` | app.py:46-47 | every piece `str.split()` yields is a non-empty string without whitespace |
| `PyText.WordsJoinWords` | app.py:46-47 | splitting `" ".join(ws)` gives back `ws` for any list of whitespace-free words (split is the inverse of join) |
| `PyText.WordsAppend` | app.py:46-47 | splitting `a + b` where `b` starts with whitespace gives the words of `a` followed by the words of `b` |
| `PyText.WordsEmptyIff` | app.py:47 | a string splits into no words exactly when every character is whitespace |
| `PyText.LowerIdempotent` | app.py:46-47 | lower-casing twice is the same as lower-casing once |
| `PyText.LowerAppend` | app.py:46-47 | lower-casing distributes over concatenation |
| `PyText.Contains` | app.py:59 | `keyword in text`: the keyword occurs contiguously in the text; the empty keyword occurs in every text, and a keyword longer than the text never occurs |
| `PyText.ContainsInEmpty` | app.py:59 | the only keyword occurring in the empty text is the empty string |
| `PyText.ContainsExtend` | app.py:59 | a substring occurrence survives adding text on either side |
| `Percentage.Percent` | app.py:42 | the score times the denominator equals the count times 100; it is 0 on an empty denominator, in [0, 100] when count ≤ denominator, 100 exactly when count equals a non-zero denominator, and 0 exactly when the count or the denominator is 0 |
| `Skills.Catalog` | app.py:25-31 | the role-to-skills catalog, equal to `predefined_skills` entry for entry |
| `Skills.IsNounTag` | app.py:35 | the tags NOUN and PROPN, the only ones whose tokens are kept; whitespace tokens (tag SPACE) are dropped |
| `Skills.CatalogRoles` | app.py:25-31 | the catalog has exactly the five roles Software Engineer, Data Scientist, Marketing, UI/UX Designer and Cybersecurity Analyst |
| `Skills.CatalogRoleHasSkills` | app.py:25-42 | every catalog role has a non-empty skill set, so the `else 0` default is never taken for it and its score is 100 exactly when no skill is missing |
| `Skills.RoleSkills` | app.py:39 | a role outside the catalog gets the empty set, and a catalog role gets its catalog entry |
| `Skills.ExtractSkills` | app.py:33-35 | a string is a candidate exactly when some token the tagger produced has that text and is tagged NOUN or PROPN |
| `Skills.Match` | app.py:40-42 | matched holds exactly the extracted strings that are role skills; matched and missing are disjoint and together form the role's skills; the score is in [0, 100], equals matched/role × 100, is 0 when the role has no skills, is 100 exactly when the role has skills and none is missing, and is 0 exactly when nothing matched |
| `Skills.MatchSkills` | app.py:37-43 | the same guarantees for the catalog lookup: a skill is matched exactly when it is in the role's catalog set and among the tagged nouns; matched and missing partition the role's skills; the score is `Percent(|matched|, |role skills|)`, within [0, 100], 0 for an unknown role, and 100 exactly when nothing is missing |
| `Skills.UnknownRoleScoresZero` | app.py:39-42 | a role outside the catalog yields no matched skills, no missing skills and a score of 0 |
| `Skills.AllSkillsTaggedScoresFull` | app.py:38-42 | when every skill of a catalog role is a tagged noun in the résumé, the score is 100 and nothing is missing |
| `Skills.MatchIsCaseSensitive` | app.py:35-40 | a token "python" never matches the Software Engineer skill "Python", and "Python" matches exactly when a noun token with that literal text was produced |
| `Skills.EveryRoleHasTwoWordSkill` | app.py:25-31 | every catalog role lists a skill containing a space |
| `Skills.NoFullScoreWithoutSpacedTokens` | app.py:35-42 | if no token the tagger tags NOUN or PROPN contains a space, the skill score of every role is below 100; tokens with other tags are unconstrained |
| `JobMatch.WordSet` | app.py:46-47 | every element of `set(text.lower().split())` is a non-empty whitespace-free word |
| `JobMatch.Overlap` | app.py:48-49 | on word sets, the score is in [0, 100], is 0 for no job words, is \|common\|/\|job words\| × 100, is 100 exactly when the job words are non-empty and all among the résumé words, and is 0 exactly when the two sets share no word |
| `JobMatch.JobMatchPercentage` | app.py:45-49 | the job score is in [0, 100], is 0 when the job description has no words, equals the shared-word count over the job-word count × 100, and is 100 exactly when the description has words and every lower-cased one occurs among the lower-cased résumé words |
| `JobMatch.BlankJobScoresZero` | app.py:47-49 | the job description has no words exactly when it is all whitespace, and such a description scores 0 |
| `JobMatch.JobScoreIgnoresCase` | app.py:46-47 | lower-casing either text beforehand leaves the job score unchanged |
| `JobMatch.WordSetJoin` | app.py:46-47 | the word set of `a + " " + b` is the union of the word sets of `a` and `b` |
| `JobMatch.JobScoreIgnoresRepeatedJobWords` | app.py:47-49 | repeating the job description leaves the score unchanged, so duplicate words count once |
| `JobMatch.JobScoreIgnoresRepeatedResumeWords` | app.py:46-49 | repeating the résumé leaves the score unchanged |
| `JobMatch.JobScoreIgnoresWordOrder` | app.py:47-49 | swapping two parts of the job description leaves the score unchanged |
| `ResumeFormat.SectionTable` | app.py:52-58 | the section table, equal to the `sections` dict entry for entry and in its insertion order |
| `ResumeFormat.AnyKeyword` | app.py:59 | `any(keyword in text for keyword in keywords)`: some keyword of the row occurs in the text; a row without keywords never hits, and a row with the empty keyword always does |
| `ResumeFormat.SectionTableNames` | app.py:52-58 | the section table lists Education, Experience, Skills, Certifications and Projects in that order, each once |
| `ResumeFormat.MissingFrom` | app.py:59 | for any table, the result is a subsequence of the table's names; each row with no keyword hit is in it, and every name in it belongs to a row with no keyword hit |
| `ResumeFormat.MissingSections` | app.py:51-59 | the result is a duplicate-free subsequence of the five section names in table order, and a section is in it exactly when none of its keywords is a substring of the lower-cased résumé |
| `ResumeFormat.NoHitsAllMissing` | app.py:59 | when no row has a keyword hit, every row's name is reported, in table order |
| `ResumeFormat.EmptyResumeMissesAll` | app.py:51-59 | the empty résumé is missing all five sections, in table order |
| `ResumeFormat.MissingShrinks` | app.py:59 | if every keyword found in one text is also found in another, the second text's missing list is a subsequence of the first's |
| `ResumeFormat.MoreTextFewerMissing` | app.py:59 | adding text before or after a résumé never adds a missing section, and the order of the remaining ones is kept |
| `ResumeFormat.SectionCheckIgnoresCase` | app.py:59 | lower-casing the résumé beforehand leaves the missing list unchanged |
| `ResumeFormat.KeywordsMatchInsideWords` | app.py:54-59 | keywords match inside words: "Network" counts as an Experience hit because it contains "work" |
| `Extraction.LastIndexOf` | app.py:16 | the result is -1 or the position of the character, and no occurrence lies after it (the `rfind` inside `splitext`) |
| `Extraction.Extension` | app.py:16 | the extension `splitext` returns is a suffix of the name, and is either empty or a '.' followed by no other '.' or '/' |
| `Extraction.ExtensionOfJoin` | app.py:16 | for an extension-shaped `ext`, `splitext(root + ext)` returns `ext` exactly when the last component of `root` has a non-dot character, and "" otherwise |
| `Extraction.Dispatch` | app.py:16-23 | a parser is chosen only when the lower-cased extension equals that format's ".pdf" or ".docx", and otherwise the result is None |
| `Extraction.DispatchedNameEndsInSuffix` | app.py:16-20 | a file sent to a parser has a name ending, in any case, in that format's extension after a stem whose last path component is not made of dots only |
| `Extraction.SuffixedNameIsDispatched` | app.py:16-20 | a name ending, in any case, in a format's extension after a stem whose last path component is not made of dots only is sent to that format's parser |
| `Extraction.DispatchIff` | app.py:16-20 | a file goes to a format's parser exactly when its name ends in that format's extension in any mix of case and the last path component of its stem is not made of dots only |
| `Extraction.DispatchOfJoin` | app.py:16-23 | after a stem whose last path component is not made of dots only, the lower-cased extension alone decides: ".pdf" gives PDF, ".docx" gives DOCX, anything else None |
| `Extraction.NameWithoutDotHasNoParser` | app.py:16-23 | a name without a dot has an empty extension and gets no parser |
| `Extraction.UpperCasePdfDispatches` | app.py:16-17 | "CV.PDF" goes to the PDF parser |
| `Extraction.DotFileHasNoParser` | app.py:16-23 | a file named ".pdf" has no extension and gets no parser |
| `Extraction.OnlyLastExtensionCounts` | app.py:16-23 | "resume.pdf.txt" gets no parser, because only the last extension counts |

## Left out

- Loading the spaCy model and part-of-speech tagging (app.py:8-11, 34): this is a foreign NLP model. The tagger is the parameter `nlp`, and only the NOUN/PROPN filter applied to its tokens is modelled.
- PDF and DOCX parsing, including the newline-joining of page and paragraph texts (app.py:18-22): library I/O on uploaded byte streams. Only the extension dispatch is modelled. Parser exceptions are not modelled either.
- `generate_pdf` (app.py:61-84): the report layout, comma-joining and latin-1 encoding are FPDF library calls.
- The Streamlit interface and the per-file loop (app.py:88-134): widgets, display and download buttons. This includes the upload-type filter at app.py:99 and the guard at app.py:106 that skips files with no extracted text.
- Floating point: scores are exact reals. IEEE rounding of the division and the `:.2f` formatting (app.py:69-70, 115-116) are not modelled.
- Python sets have no order. The order in which the display joins matched and missing skills is part of the interface and is not modelled.
- `PyText.Lower`: folds only ASCII letters. Python's `str.lower()` also folds non-ASCII letters, and some of those become two characters ('İ'). Both are not modelled.
- `Extraction.Extension`: models the POSIX `os.path.splitext`. The Windows flavour, which also treats '\\' and drive letters as separators, is not modelled.
