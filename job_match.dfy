/**
 * Job-description overlap (`job_match_percentage`): both texts are
 * lower-cased and split on whitespace into word sets, and the score is the
 * share of job-description words that also occur in the résumé.
 */
module JobMatch {
  import opened PyText
  import opened Percentage

  /** `set(text.lower().split())`. */
  function WordSet(text: string): (ws: set<string>)
    ensures forall w :: w in ws ==> IsWord(w)
  {
    set w | w in Words(Lower(text))
  }

  /** A subset is no larger than its superset, and equally large only when it is all of it. */
  lemma SubsetSize(a: set<string>, b: set<string>)
    requires a <= b
    ensures |a| <= |b|
    ensures |a| == |b| ==> a == b
  {
    assert b == a + (b - a);
    assert a * (b - a) == {};
  }

  /** The overlap score of two word sets: the share of `jobWords` that also lie in `resumeWords`. */
  function Overlap(resumeWords: set<string>, jobWords: set<string>): (p: real)
    ensures 0.0 <= p <= 100.0
    ensures jobWords == {} ==> p == 0.0
    ensures jobWords != {} ==> p * |jobWords| as real == |resumeWords * jobWords| as real * 100.0
    ensures p == 100.0 <==> jobWords != {} && jobWords <= resumeWords
    ensures p == 0.0 <==> resumeWords * jobWords == {}
  {
    var common := resumeWords * jobWords;
    SubsetSize(common, jobWords);
    assert common == jobWords <==> jobWords <= resumeWords;
    Percent(|common|, |jobWords|)
  }

  /**
   * The score of `resume_text` against `job_description`: a percentage in
   * [0, 100], the share of job words that the résumé also contains, 0 when
   * the job description has no words, and 100 exactly when it has words
   * and every one of them occurs in the résumé.
   */
  function JobMatchPercentage(resumeText: string, jobDescription: string): (p: real)
    ensures 0.0 <= p <= 100.0
    ensures WordSet(jobDescription) == {} ==> p == 0.0
    ensures WordSet(jobDescription) != {} ==>
      p * |WordSet(jobDescription)| as real == |WordSet(resumeText) * WordSet(jobDescription)| as real * 100.0
    ensures p == 100.0 <==> WordSet(jobDescription) != {} && WordSet(jobDescription) <= WordSet(resumeText)
    ensures p == 0.0 <==> WordSet(resumeText) * WordSet(jobDescription) == {}
  {
    Overlap(WordSet(resumeText), WordSet(jobDescription))
  }

  /** The job description has no words exactly when it is all whitespace, so such a description scores 0. */
  lemma BlankJobScoresZero(resumeText: string, jobDescription: string)
    ensures WordSet(jobDescription) == {} <==> forall i :: 0 <= i < |jobDescription| ==> IsSpace(jobDescription[i])
    ensures (forall i :: 0 <= i < |jobDescription| ==> IsSpace(jobDescription[i])) ==>
      JobMatchPercentage(resumeText, jobDescription) == 0.0
  {
    var lowered := Lower(jobDescription);
    WordsEmptyIff(lowered);
    assert forall i :: 0 <= i < |jobDescription| ==> (IsSpace(lowered[i]) <==> IsSpace(jobDescription[i]));
    if Words(lowered) != [] {
      assert Words(lowered)[0] in WordSet(jobDescription);
    }
  }

  /** Lower-casing either text first changes nothing: the score ignores case. */
  lemma JobScoreIgnoresCase(resumeText: string, jobDescription: string)
    ensures JobMatchPercentage(Lower(resumeText), Lower(jobDescription)) == JobMatchPercentage(resumeText, jobDescription)
  {
    LowerIdempotent(resumeText);
    LowerIdempotent(jobDescription);
  }

  /** The words of two texts joined by a space are the words of each. */
  lemma WordSetJoin(a: string, b: string)
    ensures WordSet(a + " " + b) == WordSet(a) + WordSet(b)
  {
    LowerAppend(a, " " + b);
    LowerAppend(" ", b);
    assert Lower(" ") == " ";
    assert a + " " + b == a + (" " + b);
    WordsAppend(Lower(a), " " + Lower(b));
    WordsAfterSpace(Lower(b));
  }

  /** Repeating the job description does not change the score: duplicate words count once. */
  lemma JobScoreIgnoresRepeatedJobWords(resumeText: string, jobDescription: string)
    ensures JobMatchPercentage(resumeText, jobDescription + " " + jobDescription) == JobMatchPercentage(resumeText, jobDescription)
  {
    var words := WordSet(jobDescription);
    WordSetJoin(jobDescription, jobDescription);
    assert words + words == words;
  }

  /** Repeating the résumé does not change the score either. */
  lemma JobScoreIgnoresRepeatedResumeWords(resumeText: string, jobDescription: string)
    ensures JobMatchPercentage(resumeText + " " + resumeText, jobDescription) == JobMatchPercentage(resumeText, jobDescription)
  {
    var words := WordSet(resumeText);
    WordSetJoin(resumeText, resumeText);
    assert words + words == words;
  }

  /** Word order does not matter: swapping two halves of the job description leaves the score unchanged. */
  lemma JobScoreIgnoresWordOrder(resumeText: string, first: string, second: string)
    ensures JobMatchPercentage(resumeText, first + " " + second) == JobMatchPercentage(resumeText, second + " " + first)
  {
    WordSetJoin(first, second);
    WordSetJoin(second, first);
    assert WordSet(first) + WordSet(second) == WordSet(second) + WordSet(first);
  }
}
