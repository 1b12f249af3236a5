/**
 * The aggregator (`FitScorer.score_job_fit`) and the batch fan-out
 * (`FitScorer.process_batch`).
 *
 * The embedding model is not modelled: `cosine(resume, jd)` stands for the
 * cosine similarity of the two texts' embeddings.
 */
module FitScoring {
  import opened Seqs
  import opened Text
  import opened Sorting
  import opened SkillMatching
  import opened Experience

  /** Cosine similarity of the two texts' embeddings. */
  type Similarity = (string, string) -> real

  datatype ExperienceDetail = ExperienceDetail(required: real, found: real, score: nat)

  /** The result dictionary of `score_job_fit`. */
  datatype FitReport = FitReport(
    overallScore: real,
    matchedSkills: seq<string>,
    missingSkills: seq<string>,
    experience: ExperienceDetail,
    semanticScore: real)

  /** The fixed weighting 0.4 skill + 0.2 experience + 0.4 semantic. With
      skill and experience scores in [0, 100] and a cosine in [-1, 1] the
      overall score lies in [-40, 100]; it is negative only when the
      semantic score is. */
  function OverallScore(skill: real, exp: real, semantic: real): (overall: real)
    ensures 0.0 <= skill <= 100.0 && 0.0 <= exp <= 100.0 && -100.0 <= semantic <= 100.0 ==>
              -40.0 <= overall <= 100.0
    ensures 0.0 <= skill && 0.0 <= exp && 0.0 <= semantic ==> 0.0 <= overall
  {
    0.4 * skill + 0.2 * exp + 0.4 * semantic
  }

  /** The weighting is monotone in each sub-score. */
  lemma OverallScoreMonotone(skill: real, exp: real, semantic: real, skill': real, exp': real, semantic': real)
    requires skill <= skill' && exp <= exp' && semantic <= semantic'
    ensures OverallScore(skill, exp, semantic) <= OverallScore(skill', exp', semantic')
  {
  }

  /** Skill 80, experience 100 and semantic 50 weigh in at 72. */
  lemma OverallScoreExample()
    ensures OverallScore(80.0, 100.0, 50.0) == 72.0
  {
  }

  /** `semantic_score`: the cosine scaled by 100, not clamped; it keeps
      the cosine's sign, and a cosine in [-1, 1] gives a score in
      [-100, 100]. */
  function SemanticScore(cosine: Similarity, resumeText: string, jdText: string): (r: real)
    ensures -1.0 <= cosine(resumeText, jdText) <= 1.0 ==> -100.0 <= r <= 100.0
    ensures r < 0.0 <==> cosine(resumeText, jdText) < 0.0
    ensures r == 0.0 <==> cosine(resumeText, jdText) == 0.0
  {
    cosine(resumeText, jdText) * 100.0
  }

  /** A set of skills as the sorted list of its elements. */
  ghost function SortedSkills(s: set<string>): (xs: seq<string>)
    ensures Sorted(xs) && NoDuplicates(xs) && SetOf(xs) == s
  {
    var ys := SetToSeq(s);
    var xs := Sort(ys);
    assert forall x :: x in xs <==> x in ys by {
      forall x ensures x in xs <==> x in ys {
        assert x in xs <==> x in multiset(xs);
        assert x in ys <==> x in multiset(ys);
      }
    }
    PermutationKeepsDistinct(ys, xs);
    xs
  }

  /** The report `score_job_fit` produces, whatever order the scorer
      happened to list the requirements in. */
  ghost function FitSpec(lib: SkillLibrary, scan: YearScan, cosine: Similarity,
                         resumeText: string, jdText: string): (r: FitReport)
    ensures r.experience.score in {40, 60, 85, 100}
    ensures Sorted(r.matchedSkills) && NoDuplicates(r.matchedSkills)
    ensures Sorted(r.missingSkills) && NoDuplicates(r.missingSkills)
    ensures SetOf(r.matchedSkills) == MatchedRequirements(lib, resumeText, jdText)
    ensures SetOf(r.missingSkills) == MissingRequirements(lib, resumeText, jdText)
  {
    var skill := MandatoryScore(lib, resumeText, jdText);
    var exp := ScoreExperience(scan, resumeText, jdText);
    var semantic := SemanticScore(cosine, resumeText, jdText);
    FitReport(
      OverallScore(skill, exp.0 as real, semantic),
      SortedSkills(MatchedRequirements(lib, resumeText, jdText)),
      SortedSkills(MissingRequirements(lib, resumeText, jdText)),
      ExperienceDetail(exp.1, exp.2, exp.0),
      semantic)
  }

  /** Sorting a duplicate-free list gives the sorted list of its set. */
  lemma SortDistinct(xs: seq<string>)
    requires NoDuplicates(xs)
    ensures Sort(xs) == SortedSkills(SetOf(xs))
  {
    var ys := SetToSeq(SetOf(xs));
    DistinctMultiset(xs);
    DistinctMultiset(ys);
    SortPermutation(xs, ys);
  }

  /** `score_job_fit`. */
  method ScoreJobFit(lib: SkillLibrary, scan: YearScan, cosine: Similarity,
                     resumeText: string, jdText: string) returns (report: FitReport)
    ensures report == FitSpec(lib, scan, cosine, resumeText, jdText)
  {
    var skillScore, matched, missing := ScoreMandatorySkills(lib, resumeText, jdText);
    var exp := ScoreExperience(scan, resumeText, jdText);
    var semanticScore := cosine(resumeText, jdText) * 100.0;
    var finalScore := 0.4 * skillScore + 0.2 * exp.0 as real + 0.4 * semanticScore;
    report := FitReport(
      finalScore,
      Sort(matched),
      Sort(missing),
      ExperienceDetail(exp.1, exp.2, exp.0),
      semanticScore);
    FitSpecFromScorerLists(lib, scan, cosine, resumeText, jdText, skillScore, matched, missing);
  }

  /** The report built from any listing of the scorer's two sets. */
  lemma FitSpecFromScorerLists(lib: SkillLibrary, scan: YearScan, cosine: Similarity,
                               resumeText: string, jdText: string,
                               skill: real, matched: seq<string>, missing: seq<string>)
    requires skill == MandatoryScore(lib, resumeText, jdText)
    requires NoDuplicates(matched) && NoDuplicates(missing)
    requires SetOf(matched) == MatchedRequirements(lib, resumeText, jdText)
    requires SetOf(missing) == MissingRequirements(lib, resumeText, jdText)
    ensures var exp := ScoreExperience(scan, resumeText, jdText);
            var semantic := cosine(resumeText, jdText) * 100.0;
            FitSpec(lib, scan, cosine, resumeText, jdText)
            == FitReport(0.4 * skill + 0.2 * exp.0 as real + 0.4 * semantic,
                         Sort(matched), Sort(missing),
                         ExperienceDetail(exp.1, exp.2, exp.0), semantic)
  {
    SortDistinct(matched);
    SortDistinct(missing);
  }

  /** The reported lists are sorted, free of duplicates, disjoint, and
      together hold exactly the targeted requirements; the matched list
      holds those the resume meets. */
  lemma FitSpecSkills(lib: SkillLibrary, scan: YearScan, cosine: Similarity,
                      resumeText: string, jdText: string)
    ensures var r := FitSpec(lib, scan, cosine, resumeText, jdText);
            && Sorted(r.matchedSkills) && Sorted(r.missingSkills)
            && NoDuplicates(r.matchedSkills) && NoDuplicates(r.missingSkills)
            && SetOf(r.matchedSkills) == MatchedRequirements(lib, resumeText, jdText)
            && SetOf(r.missingSkills) == MissingRequirements(lib, resumeText, jdText)
            && SetOf(r.matchedSkills) !! SetOf(r.missingSkills)
            && SetOf(r.matchedSkills) + SetOf(r.missingSkills) == TargetedRequirements(lib, jdText)
  {
    MatchedMissingPartition(lib, resumeText, jdText);
  }

  /** Without a targeted requirement the report has full skill marks and
      empty lists. */
  lemma FitSpecNoTargets(lib: SkillLibrary, scan: YearScan, cosine: Similarity,
                         resumeText: string, jdText: string)
    requires TargetedRequirements(lib, jdText) == {}
    ensures var r := FitSpec(lib, scan, cosine, resumeText, jdText);
            r.matchedSkills == [] && r.missingSkills == []
            && r.overallScore == 40.0 + 0.2 * r.experience.score as real + 0.4 * r.semanticScore
  {
  }

  /** The overall score of a report is bounded as the weighting says. */
  lemma FitSpecOverallBounds(lib: SkillLibrary, scan: YearScan, cosine: Similarity,
                             resumeText: string, jdText: string)
    requires -1.0 <= cosine(resumeText, jdText) <= 1.0
    ensures var r := FitSpec(lib, scan, cosine, resumeText, jdText);
            -40.0 <= r.overallScore <= 100.0
            && (cosine(resumeText, jdText) >= 0.0 ==> r.overallScore >= 0.0)
  {
    MandatoryScorePenalties(lib, resumeText, jdText);
  }

  // ---------------------------------------------------------------------
  // The batch

  /** An insertion-ordered dictionary, as a Python `dict` is. */
  type Dict<K, V> = seq<(K, V)>

  function Keys<K, V>(d: Dict<K, V>): seq<K>
  {
    seq(|d|, i requires 0 <= i < |d| => d[i].0)
  }

  /** `d[k] = v`: overwrite the entry of k in place when k is present,
      append a new last entry otherwise. */
  function Put<K(==), V>(d: Dict<K, V>, k: K, v: V): (r: Dict<K, V>)
    ensures k !in Keys(d) ==> r == d + [(k, v)]
    ensures k in Keys(d) ==> exists j :: 0 <= j < |d| && d[j].0 == k && r == d[j := (k, v)]
  {
    if d == [] then [(k, v)]
    else if d[0].0 == k then
      assert Keys(d)[0] == k;
      d[0 := (k, v)]
    else
      assert Keys(d) == [d[0].0] + Keys(d[1..]);
      var rest := Put(d[1..], k, v);
      if k in Keys(d[1..]) then
        OverwriteBehindHead(d, k, v, rest);
        [d[0]] + rest
      else
        [d[0]] + rest
  }

  /** An overwrite in the tail of a dictionary is one in the dictionary. */
  lemma OverwriteBehindHead<K, V>(d: Dict<K, V>, k: K, v: V, rest: Dict<K, V>)
    requires d != []
    requires exists j :: 0 <= j < |d| - 1 && d[1..][j].0 == k && rest == d[1..][j := (k, v)]
    ensures exists j :: 0 <= j < |d| && d[j].0 == k && [d[0]] + rest == d[j := (k, v)]
  {
    var j :| 0 <= j < |d| - 1 && d[1..][j].0 == k && rest == d[1..][j := (k, v)];
    assert [d[0]] + rest == d[j + 1 := (k, v)];
  }

  /** `f"resume_{i}"`: the prefix followed by the decimal digits of i. */
  function ResumeId(i: nat): (r: string)
    ensures |r| >= 8 && r[..7] == "resume_"
    ensures forall k :: 7 <= k < |r| ==> IsDigit(r[k])
    ensures i < 10 <==> |r| == 8
    ensures i >= 1 ==> r[7] != '0'
  {
    "resume_" + DecimalString(i)
  }

  lemma ResumeIdInjective(i: nat, j: nat)
    requires ResumeId(i) == ResumeId(j)
    ensures i == j
  {
    var p := "resume_";
    assert DecimalString(i) == ResumeId(i)[|p|..];
    assert DecimalString(j) == ResumeId(j)[|p|..];
    DecimalStringInjective(i, j);
  }

  /** The ids of the first and the twelfth resume. */
  lemma ResumeIdExamples()
    ensures ResumeId(1) == "resume_1" && ResumeId(12) == "resume_12"
  {
    assert DecimalString(12) == DecimalString(1) + [DigitChar(2)];
  }

  /** Reports keyed `resume_1`, `resume_2`, ... in order. */
  function Keyed<V>(reports: seq<V>): (d: Dict<string, V>)
    ensures |d| == |reports|
    ensures forall i :: 0 <= i < |d| ==> d[i] == (ResumeId(i + 1), reports[i])
  {
    seq(|reports|, i requires 0 <= i < |reports| => (ResumeId(i + 1), reports[i]))
  }

  /** The keys are distinct, so every `d[k] = v` of the loop appends. */
  lemma KeyedKeysDistinct<V>(reports: seq<V>)
    ensures NoDuplicates(Keys(Keyed(reports)))
  {
    var d := Keyed(reports);
    forall i, j | 0 <= i < j < |d| ensures Keys(d)[i] != Keys(d)[j] {
      if Keys(d)[i] == Keys(d)[j] {
        ResumeIdInjective(i + 1, j + 1);
      }
    }
  }

  lemma KeyedNextIsFresh<V>(reports: seq<V>)
    ensures ResumeId(|reports| + 1) !in Keys(Keyed(reports))
  {
    var d := Keyed(reports);
    if ResumeId(|reports| + 1) in Keys(d) {
      var k :| 0 <= k < |d| && Keys(d)[k] == ResumeId(|reports| + 1);
      ResumeIdInjective(k + 1, |reports| + 1);
    }
  }

  lemma KeyedAppend<V>(reports: seq<V>, v: V)
    ensures Keyed(reports + [v]) == Keyed(reports) + [(ResumeId(|reports| + 1), v)]
  {
  }

  /** The report of every resume, in input order. */
  ghost function BatchReports(lib: SkillLibrary, scan: YearScan, cosine: Similarity,
                              resumes: seq<string>, jdText: string): seq<FitReport>
  {
    seq(|resumes|, i requires 0 <= i < |resumes| => FitSpec(lib, scan, cosine, resumes[i], jdText))
  }

  /** The batch result: entry i (from 0) is keyed `resume_{i+1}` and holds
      the report for the i-th resume. */
  ghost function BatchSpec(lib: SkillLibrary, scan: YearScan, cosine: Similarity,
                           resumes: seq<string>, jdText: string): Dict<string, FitReport>
  {
    Keyed(BatchReports(lib, scan, cosine, resumes, jdText))
  }

  /** The batch has one key per resume, `resume_1` to `resume_n` in input
      order, with no key twice, and entry i is the report for resume i. */
  lemma BatchKeys(lib: SkillLibrary, scan: YearScan, cosine: Similarity,
                  resumes: seq<string>, jdText: string)
    ensures var b := BatchSpec(lib, scan, cosine, resumes, jdText);
            && |b| == |resumes|
            && (forall i :: 0 <= i < |b| ==> b[i].0 == ResumeId(i + 1))
            && (forall i :: 0 <= i < |b| ==> b[i].1 == FitSpec(lib, scan, cosine, resumes[i], jdText))
            && NoDuplicates(Keys(b))
  {
    KeyedKeysDistinct(BatchReports(lib, scan, cosine, resumes, jdText));
  }

  /** `process_batch`: scores every resume against the one description. */
  method ProcessBatch(lib: SkillLibrary, scan: YearScan, cosine: Similarity,
                      resumes: seq<string>, jdText: string)
    returns (batchResults: Dict<string, FitReport>)
    ensures batchResults == BatchSpec(lib, scan, cosine, resumes, jdText)
  {
    batchResults := [];
    ghost var expected := BatchReports(lib, scan, cosine, resumes, jdText);
    ghost var reports: seq<FitReport> := [];
    var i := 0;
    while i < |resumes|
      invariant 0 <= i <= |resumes|
      invariant reports == expected[..i] && batchResults == Keyed(reports)
    {
      var resumeId := ResumeId(i + 1);
      var report := ScoreJobFit(lib, scan, cosine, resumes[i], jdText);
      assert report == expected[i];
      KeyedNextIsFresh(reports);
      KeyedAppend(reports, report);
      batchResults := Put(batchResults, resumeId, report);
      reports := reports + [report];
      PrefixExtend(expected, i);
      i := i + 1;
    }
    assert expected[..i] == expected;
  }
}
