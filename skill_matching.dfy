/**
 * The mandatory-skill scorer (`FitScorer.score_mandatory_skills`): job
 * description lines that carry a mandatory cue are tokenised, the tokens
 * the skill library knows become the targeted requirements, and each is
 * checked against the resume's tokens. A category requirement matches on
 * its own name or any of its synonyms; any other term only on itself.
 */
module SkillMatching {
  import opened Seqs
  import opened Text

  /** Category name to its list of synonym terms (`SKILL_LIBRARY`). */
  type SkillLibrary = map<string, seq<string>>

  /** The library used when no skill file exists. */
  const DefaultLibrary: SkillLibrary :=
    map["python" := ["django", "flask", "pytorch"], "sql" := ["postgresql", "mysql"]]

  /** A job-description line is mandatory when it contains one of these. */
  const MandatoryCues: seq<string> := ["must have", "required", "mandatory", "essential"]

  predicate HasCue(line: string): (b: bool)
    ensures b <==> Contains(line, "must have") || Contains(line, "required")
                   || Contains(line, "mandatory") || Contains(line, "essential")
  {
    exists cue :: cue in MandatoryCues && Contains(line, cue)
  }

  ghost predicate IsTokenOf(text: string, t: string)
  {
    exists k :: TokenAt(text, k, t)
  }

  /** `extract_all_raw_words`: the tokens of the lower-cased text. Each is
      a nonempty run of lower-case letters and `+ # .` that occurs in the
      lower-cased text between word boundaries. */
  function ExtractAllRawWords(text: string): (r: set<string>)
    ensures forall t :: t in r ==> IsTokenOf(Lower(text), t)
    ensures forall t, j :: t in r && 0 <= j < |t| ==> !IsUpper(t[j])
  {
    forall t | t in Words(Lower(text)) ensures IsTokenOf(Lower(text), t) {
      WordsSound(Lower(text), t);
    }
    LowerTokensAreLower(Lower(text));
    Words(Lower(text))
  }

  lemma LowerTokensAreLower(s: string)
    requires forall i :: 0 <= i < |s| ==> !IsUpper(s[i])
    requires forall t :: t in Words(s) ==> IsTokenOf(s, t)
    ensures forall t, j :: t in Words(s) && 0 <= j < |t| ==> !IsUpper(t[j])
  {
    forall t, j | t in Words(s) && 0 <= j < |t| ensures !IsUpper(t[j]) {
      var k :| TokenAt(s, k, t);
      assert t[j] == s[k + j];
    }
  }

  /** The seven terms the built-in library recognises. */
  lemma DefaultLibraryTerms(lib: SkillLibrary)
    requires lib == DefaultLibrary
    ensures LibraryTerms(lib)
            == {"python", "django", "flask", "pytorch", "sql", "postgresql", "mysql"}
  {
    assert lib.Keys == {"python", "sql"};
    TwoCategoryTerms(lib, "python", "sql");
    var syn, sql := lib["python"], lib["sql"];
    assert syn == ["django", "flask", "pytorch"] && sql == ["postgresql", "mysql"];
    assert SetOf(syn) == {syn[0], syn[1], syn[2]} && SetOf(sql) == {sql[0], sql[1]};
  }

  /** The terms of a library with two categories. */
  lemma TwoCategoryTerms(lib: SkillLibrary, a: string, b: string)
    requires lib.Keys == {a, b}
    ensures LibraryTerms(lib) == {a, b} + SetOf(lib[a]) + SetOf(lib[b])
  {
    forall t ensures t in LibraryTerms(lib) <==> t in {a, b} + SetOf(lib[a]) + SetOf(lib[b]) {
      if t in LibraryTerms(lib) && t !in lib {
        var k :| k in lib && t in lib[k];
        assert k == a || k == b;
      }
    }
  }

  // ---------------------------------------------------------------------
  // Requirements

  /** The tokens of the cue-carrying lines, the final value of
      `raw_requirements` after the loop over the lines. */
  function CueTokens(lines: seq<string>): (r: set<string>)
    ensures forall i :: 0 <= i < |lines| && HasCue(lines[i]) ==> Words(lines[i]) <= r
  {
    if lines == [] then {}
    else
      var last := lines[|lines| - 1];
      assert forall i :: 0 <= i < |lines| - 1 ==> lines[..|lines| - 1][i] == lines[i];
      CueTokens(lines[..|lines| - 1]) + (if HasCue(last) then Words(last) else {})
  }

  /** A token is a raw requirement iff some line with a cue holds it:
      lines without a cue never contribute. */
  lemma {:induction false} CueTokensMembership(lines: seq<string>, t: string)
    ensures t in CueTokens(lines) <==>
            exists i :: 0 <= i < |lines| && HasCue(lines[i]) && t in Words(lines[i])
  {
    if lines != [] {
      var init, last := lines[..|lines| - 1], lines[|lines| - 1];
      CueTokensMembership(init, t);
      assert forall i :: 0 <= i < |init| ==> init[i] == lines[i];
      if t in CueTokens(init) {
        var i :| 0 <= i < |init| && HasCue(init[i]) && t in Words(init[i]);
        assert HasCue(lines[i]) && t in Words(lines[i]);
      } else if HasCue(last) && t in Words(last) {
        assert HasCue(lines[|lines| - 1]) && t in Words(lines[|lines| - 1]);
      } else {
        forall i | 0 <= i < |lines| && HasCue(lines[i]) ensures t !in Words(lines[i]) {
          if i < |init| {
            assert lines[i] == init[i];
          }
        }
      }
    }
  }

  /** The lines of the lower-cased job description. */
  function JobLines(jdText: string): (lines: seq<string>)
    ensures |lines| >= 1
    ensures forall i :: 0 <= i < |lines| ==> '\n' !in lines[i]
    ensures JoinLines(lines) == Lower(jdText)
  {
    JoinSplitLines(Lower(jdText));
    SplitLines(Lower(jdText))
  }

  /** `raw_requirements`: every token of every cue line of the
      lower-cased description. */
  function RawRequirements(jdText: string): (r: set<string>)
    ensures forall i :: 0 <= i < |JobLines(jdText)| && HasCue(JobLines(jdText)[i]) ==>
              Words(JobLines(jdText)[i]) <= r
  {
    CueTokens(JobLines(jdText))
  }

  /** Every category name and every synonym (`valid_library_terms`). */
  function LibraryTerms(lib: SkillLibrary): (terms: set<string>)
    ensures forall t :: t in terms <==> t in lib || exists k :: k in lib && t in lib[k]
  {
    lib.Keys + (set k, v | k in lib && v in lib[k] :: v)
  }

  /** The raw requirements the library recognises. */
  function TargetedRequirements(lib: SkillLibrary, jdText: string): (r: set<string>)
    ensures forall t :: t in r <==> t in RawRequirements(jdText) && (t in lib || exists k :: k in lib && t in lib[k])
  {
    RawRequirements(jdText) * LibraryTerms(lib)
  }

  /** The matching rule for one requirement against the resume's tokens. */
  predicate Matches(lib: SkillLibrary, resumeWords: set<string>, req: string): (b: bool)
    ensures req in resumeWords ==> b
    ensures req !in lib ==> (b <==> req in resumeWords)
    ensures req in lib ==> (b <==> exists w :: w in resumeWords && (w == req || w in lib[req]))
  {
    if req in lib then req in resumeWords || exists s :: s in lib[req] && s in resumeWords
    else req in resumeWords
  }

  /** `matched`, as a set: the targeted requirements the rule matches; a
      targeted requirement the resume holds verbatim is always among them. */
  function MatchedRequirements(lib: SkillLibrary, resumeText: string, jdText: string): (r: set<string>)
    ensures r <= TargetedRequirements(lib, jdText)
    ensures forall t :: t in TargetedRequirements(lib, jdText) && t in ExtractAllRawWords(resumeText) ==> t in r
  {
    var words := ExtractAllRawWords(resumeText);
    set r | r in TargetedRequirements(lib, jdText) && Matches(lib, words, r)
  }

  /** `missing`, as a set: the other targeted requirements; none of them
      is a resume token. */
  function MissingRequirements(lib: SkillLibrary, resumeText: string, jdText: string): (r: set<string>)
    ensures r <= TargetedRequirements(lib, jdText)
    ensures r !! MatchedRequirements(lib, resumeText, jdText)
    ensures forall t :: t in r ==> t !in ExtractAllRawWords(resumeText)
  {
    TargetedRequirements(lib, jdText) - MatchedRequirements(lib, resumeText, jdText)
  }

  // ---------------------------------------------------------------------
  // The score

  function RealMax(a: real, b: real): real { if a >= b then a else b }
  function RealMin(a: real, b: real): real { if a <= b then a else b }

  lemma FractionBounds(a: nat, n: nat)
    requires a <= n && n > 0
    ensures 0.0 <= a as real / n as real <= 1.0
  {
    var q := a as real / n as real;
    assert q * n as real == a as real;
  }

  /** The score when exactly one of n requirements is missing:
      `max(0, 100 * (n - 1) / n - 15)`. */
  function OneGapScore(n: nat): real
    requires n > 0
  {
    RealMax(0.0, 100.0 * (n - 1) as real / n as real - 15.0)
  }

  /** The matched percentage, `len(matched) / len(targeted) * 100`. */
  function Coverage(matchedCount: nat, missingCount: nat): (base: real)
    requires matchedCount + missingCount > 0
    ensures 0.0 <= base <= 100.0
    ensures missingCount == 0 ==> base == 100.0
  {
    FractionBounds(matchedCount, matchedCount + missingCount);
    matchedCount as real / (matchedCount + missingCount) as real * 100.0
  }

  /** The gap penalty: one missing requirement costs 15 points, two or
      more cap the score at 50, and the score never drops below 0. */
  function Penalise(base: real, missingCount: nat): (r: real)
    ensures 0.0 <= r <= RealMax(base, 0.0)
    ensures missingCount == 0 ==> r == RealMax(base, 0.0)
    ensures missingCount == 1 ==> r == RealMax(base - 15.0, 0.0)
    ensures missingCount >= 2 ==> r <= 50.0 && (base <= 50.0 ==> r == RealMax(base, 0.0))
    ensures missingCount >= 2 && base >= 50.0 ==> r == 50.0
  {
    var penalised :=
      if missingCount == 1 then base - 15.0
      else if missingCount >= 2 then RealMin(base, 50.0)
      else base;
    RealMax(penalised, 0.0)
  }

  /** The penalised coverage score for the given numbers of matched and
      missing requirements. */
  function SkillScore(matchedCount: nat, missingCount: nat): (score: real)
    requires matchedCount + missingCount > 0
    ensures 0.0 <= score <= 100.0
    ensures missingCount == 0 ==> score == 100.0
    ensures missingCount == 1 ==> score == OneGapScore(matchedCount + missingCount)
    ensures missingCount >= 2 ==> score <= 50.0
    ensures missingCount >= 2 && matchedCount >= missingCount ==> score == 50.0
    ensures missingCount >= 2 && matchedCount < missingCount ==>
              score == Coverage(matchedCount, missingCount) < 50.0
  {
    var n := matchedCount + missingCount;
    CoverageHalf(matchedCount, missingCount);
    assert missingCount == 1 ==>
      Coverage(matchedCount, missingCount) == 100.0 * (n - 1) as real / n as real;
    Penalise(Coverage(matchedCount, missingCount), missingCount)
  }

  /** At least half the requirements are matched iff the coverage is at
      least 50. */
  lemma CoverageHalf(matchedCount: nat, missingCount: nat)
    requires matchedCount + missingCount > 0
    ensures matchedCount >= missingCount <==> Coverage(matchedCount, missingCount) >= 50.0
  {
    var a, n := matchedCount as real, (matchedCount + missingCount) as real;
    var q := a / n;
    assert q * n == a;
    assert Coverage(matchedCount, missingCount) == q * 100.0;
    assert matchedCount >= missingCount <==> 2.0 * a >= n;
    assert (2.0 * q) * n == 2.0 * a;
    ScaleCompare(2.0 * q, 1.0, n);
    ScaleCompare(1.0, 2.0 * q, n);
    assert 2.0 * q < 1.0 ==> 2.0 * a < n;
    assert 2.0 * q >= 1.0 ==> 2.0 * a >= n;
    assert matchedCount >= missingCount <==> 2.0 * q >= 1.0;
  }

  lemma ScaleCompare(x: real, y: real, n: real)
    requires n > 0.0
    ensures x < y ==> x * n < y * n
    ensures x <= y ==> x * n <= y * n
  {
    assert (y - x) * n == y * n - x * n;
  }

  /** The points m missing requirements out of n cost: m shares of 100 / n. */
  function Shortfall(missingCount: nat, n: nat): real
    requires n > 0
  {
    missingCount as real * (100.0 / n as real)
  }

  /** The coverage is 100 minus the shortfall. */
  lemma CoverageAsShortfall(matchedCount: nat, missingCount: nat)
    requires matchedCount + missingCount > 0
    ensures Coverage(matchedCount, missingCount)
            == 100.0 - Shortfall(missingCount, matchedCount + missingCount)
  {
    var n := (matchedCount + missingCount) as real;
    var q := 100.0 / n;
    assert q * n == 100.0;
    assert matchedCount as real / n * n == matchedCount as real;
    assert (matchedCount as real / n * 100.0) * n == (100.0 - missingCount as real * q) * n;
  }

  /** The shortfall grows with the number missing, one share at a time. */
  lemma ShortfallGrows(n: nat, m1: nat, m2: nat)
    requires n > 0 && m1 <= m2
    ensures Shortfall(m1, n) <= Shortfall(m2, n)
    ensures Shortfall(1, n) > 0.0
    ensures m2 >= 2 ==> 2.0 * Shortfall(1, n) <= Shortfall(m2, n)
  {
    var q := 100.0 / n as real;
    assert q * n as real == 100.0;
    assert Shortfall(m2, n) - Shortfall(m1, n) == (m2 - m1) as real * q;
    assert Shortfall(m2, n) - 2.0 * Shortfall(1, n) == (m2 as real - 2.0) * q;
  }

  /** Fewer points are left after a larger shortfall t2 than after t1, with
      q the share of one requirement. */
  lemma PenaliseMonotone(q: real, t1: real, t2: real, m1: nat, m2: nat)
    requires q > 0.0 && 0 < m1 < m2 && t1 <= t2
    requires m1 == 1 ==> t1 == q && t2 >= 2.0 * q
    ensures Penalise(100.0 - t2, m2) <= Penalise(100.0 - t1, m1)
  {
  }

  /** With the number of requirements fixed, one more missing requirement
      never raises the score: the penalties keep the score monotone. */
  lemma SkillScoreMonotone(n: nat, m1: nat, m2: nat)
    requires 0 < n && m1 <= m2 <= n
    ensures SkillScore(n - m2, m2) <= SkillScore(n - m1, m1)
  {
    if 0 < m1 < m2 {
      var t1, t2 := Shortfall(m1, n), Shortfall(m2, n);
      ShortfallGrows(n, m1, m2);
      PenaliseMonotone(Shortfall(1, n), t1, t2, m1, m2);
      CoverageAsShortfall(n - m1, m1);
      CoverageAsShortfall(n - m2, m2);
      assert SkillScore(n - m1, m1) == Penalise(100.0 - t1, m1);
      assert SkillScore(n - m2, m2) == Penalise(100.0 - t2, m2);
    }
  }

  /** The skill score of a resume against a job description: 100 when the
      description targets nothing, the penalised coverage otherwise. */
  function MandatoryScore(lib: SkillLibrary, resumeText: string, jdText: string): (r: real)
    ensures 0.0 <= r <= 100.0
    ensures MissingRequirements(lib, resumeText, jdText) == {} ==> r == 100.0
  {
    var targeted := TargetedRequirements(lib, jdText);
    if targeted == {} then 100.0
    else
      var matched := MatchedRequirements(lib, resumeText, jdText);
      var missing := MissingRequirements(lib, resumeText, jdText);
      assert targeted == matched + missing && matched !! missing;
      SkillScore(|matched|, |missing|)
  }

  // ---------------------------------------------------------------------
  // The imperative scorer

  /** The loop over the library's values that builds `valid_library_terms`. */
  method CollectLibraryTerms(lib: SkillLibrary) returns (terms: set<string>)
    ensures terms == LibraryTerms(lib)
  {
    terms := lib.Keys;
    var pending := lib.Keys;
    while pending != {}
      invariant pending <= lib.Keys
      invariant terms == lib.Keys + (set k, v | k in lib.Keys - pending && v in lib[k] :: v)
      decreases pending
    {
      var k :| k in pending;
      terms := terms + SetOf(lib[k]);
      pending := pending - {k};
    }
  }

  /** The loop over the job-description lines that builds
      `raw_requirements`: the tokens of every line carrying a cue. */
  method CollectRawRequirements(jdLines: seq<string>) returns (raw: set<string>)
    ensures raw == CueTokens(jdLines)
  {
    raw := {};
    var i := 0;
    while i < |jdLines|
      invariant 0 <= i <= |jdLines|
      invariant raw == CueTokens(jdLines[..i])
    {
      var line := jdLines[i];
      if HasCue(line) {
        raw := raw + Words(line);
      }
      assert jdLines[..i + 1][..i] == jdLines[..i];
      i := i + 1;
    }
    assert jdLines[..i] == jdLines;
  }

  /** The loop that sorts each targeted requirement into `matched` or
      `missing`. The set is iterated in an unspecified order, so the lists
      may come in any order; each requirement lands in exactly one of them,
      once, and in `matched` iff the matching rule holds for it. */
  method ClassifyRequirements(lib: SkillLibrary, resumeWords: set<string>, targeted: set<string>)
    returns (matched: seq<string>, missing: seq<string>)
    ensures NoDuplicates(matched) && NoDuplicates(missing)
    ensures SetOf(matched) == set r | r in targeted && Matches(lib, resumeWords, r)
    ensures SetOf(missing) == set r | r in targeted && !Matches(lib, resumeWords, r)
  {
    matched, missing := [], [];
    var pending := targeted;
    while pending != {}
      invariant pending <= targeted
      invariant NoDuplicates(matched) && NoDuplicates(missing)
      invariant SetOf(matched) == set r | r in targeted - pending && Matches(lib, resumeWords, r)
      invariant SetOf(missing) == set r | r in targeted - pending && !Matches(lib, resumeWords, r)
      decreases pending
    {
      var req :| req in pending;
      assert req !in SetOf(matched) && req !in SetOf(missing);
      var isMatch := false;
      if req in lib {
        var potentialMatches := {req} + SetOf(lib[req]);
        if !(resumeWords !! potentialMatches) {
          isMatch := true;
        }
      } else {
        if req in resumeWords {
          isMatch := true;
        }
      }
      assert isMatch <==> Matches(lib, resumeWords, req);
      if isMatch {
        AppendFresh(matched, req);
        matched := matched + [req];
      } else {
        AppendFresh(missing, req);
        missing := missing + [req];
      }
      pending := pending - {req};
    }
  }

  /** `score_mandatory_skills`: the score and the two lists, each element
      once, as the specification functions above describe them. */
  method ScoreMandatorySkills(lib: SkillLibrary, resumeText: string, jdText: string)
    returns (score: real, matched: seq<string>, missing: seq<string>)
    ensures TargetedRequirements(lib, jdText) == {} ==> score == 100.0 && matched == [] && missing == []
    ensures NoDuplicates(matched) && NoDuplicates(missing)
    ensures SetOf(matched) == MatchedRequirements(lib, resumeText, jdText)
    ensures SetOf(missing) == MissingRequirements(lib, resumeText, jdText)
    ensures score == MandatoryScore(lib, resumeText, jdText)
  {
    var jdLines := SplitLines(Lower(jdText));
    var raw := CollectRawRequirements(jdLines);
    var libraryTerms := CollectLibraryTerms(lib);
    var targeted := raw * libraryTerms;
    assert targeted == TargetedRequirements(lib, jdText);
    if targeted == {} {
      return 100.0, [], [];
    }
    var resumeWords := ExtractAllRawWords(resumeText);
    matched, missing := ClassifyRequirements(lib, resumeWords, targeted);
    CountsOfLists(lib, resumeText, jdText, matched, missing);
    score := SkillScore(|matched|, |missing|);
  }

  lemma CountsOfLists(lib: SkillLibrary, resumeText: string, jdText: string,
                      matched: seq<string>, missing: seq<string>)
    requires TargetedRequirements(lib, jdText) != {}
    requires NoDuplicates(matched) && NoDuplicates(missing)
    requires SetOf(matched) == MatchedRequirements(lib, resumeText, jdText)
    requires SetOf(missing) == TargetedRequirements(lib, jdText) - SetOf(matched)
    ensures SetOf(missing) == MissingRequirements(lib, resumeText, jdText)
    ensures |matched| + |missing| > 0
    ensures MandatoryScore(lib, resumeText, jdText) == SkillScore(|matched|, |missing|)
  {
    DistinctMultiset(matched);
    DistinctMultiset(missing);
  }

  // ---------------------------------------------------------------------
  // Properties

  /** A description with no cue line, or whose cue lines hold no library
      term, scores 100 with nothing matched and nothing missing. */
  lemma NoTargetsFullScore(lib: SkillLibrary, resumeText: string, jdText: string)
    requires forall t :: t in RawRequirements(jdText) ==> t !in LibraryTerms(lib)
    ensures TargetedRequirements(lib, jdText) == {}
    ensures MandatoryScore(lib, resumeText, jdText) == 100.0
    ensures MatchedRequirements(lib, resumeText, jdText) == {}
    ensures MissingRequirements(lib, resumeText, jdText) == {}
  {
  }

  lemma NoCueLineFullScore(lib: SkillLibrary, resumeText: string, jdText: string)
    requires forall i :: 0 <= i < |JobLines(jdText)| ==> !HasCue(JobLines(jdText)[i])
    ensures TargetedRequirements(lib, jdText) == {}
    ensures MandatoryScore(lib, resumeText, jdText) == 100.0
  {
    forall t | t in RawRequirements(jdText) ensures false {
      CueTokensMembership(JobLines(jdText), t);
    }
  }

  /** The targeted requirements are exactly the tokens of cue lines that
      are category names or synonyms. */
  lemma TargetedMembership(lib: SkillLibrary, jdText: string, t: string)
    ensures t in TargetedRequirements(lib, jdText) <==>
            (exists i :: 0 <= i < |JobLines(jdText)| && HasCue(JobLines(jdText)[i])
                         && t in Words(JobLines(jdText)[i]))
            && (t in lib || exists k :: k in lib && t in lib[k])
  {
    CueTokensMembership(JobLines(jdText), t);
  }

  /** Matched and missing partition the targeted requirements. */
  lemma MatchedMissingPartition(lib: SkillLibrary, resumeText: string, jdText: string)
    ensures MatchedRequirements(lib, resumeText, jdText) !! MissingRequirements(lib, resumeText, jdText)
    ensures MatchedRequirements(lib, resumeText, jdText) + MissingRequirements(lib, resumeText, jdText)
            == TargetedRequirements(lib, jdText)
  {
  }

  /** A category requirement is met by its own name or by any synonym; any
      other targeted term only by itself, with no synonym expansion. */
  lemma MatchRule(lib: SkillLibrary, resumeText: string, jdText: string, req: string)
    requires req in TargetedRequirements(lib, jdText)
    ensures req in lib ==>
      (req in MatchedRequirements(lib, resumeText, jdText) <==>
       exists w :: w in ExtractAllRawWords(resumeText) && (w == req || w in lib[req]))
    ensures req !in lib ==>
      (req in MatchedRequirements(lib, resumeText, jdText) <==> req in ExtractAllRawWords(resumeText))
  {
  }

  /** The penalty policy in terms of the targeted count n and missing count m. */
  lemma MandatoryScorePenalties(lib: SkillLibrary, resumeText: string, jdText: string)
    ensures 0.0 <= MandatoryScore(lib, resumeText, jdText) <= 100.0
    ensures var n := |TargetedRequirements(lib, jdText)|;
            var m := |MissingRequirements(lib, resumeText, jdText)|;
            && (m == 0 ==> MandatoryScore(lib, resumeText, jdText) == 100.0)
            && (m == 1 ==> MandatoryScore(lib, resumeText, jdText) == OneGapScore(n))
            && (m >= 2 ==> MandatoryScore(lib, resumeText, jdText) <= 50.0)
    ensures var k := |MatchedRequirements(lib, resumeText, jdText)|;
            var m := |MissingRequirements(lib, resumeText, jdText)|;
            && (m >= 2 && k >= m ==> MandatoryScore(lib, resumeText, jdText) == 50.0)
            && (m >= 2 && k < m ==> MandatoryScore(lib, resumeText, jdText) == Coverage(k, m) < 50.0)
  {
    ScoreFromCounts(lib, resumeText, jdText);
    PenaltyCases(|MatchedRequirements(lib, resumeText, jdText)|,
                 |MissingRequirements(lib, resumeText, jdText)|,
                 MandatoryScore(lib, resumeText, jdText));
  }

  /** The penalty cases for any score that is 100 without requirements and
      the skill score of the counts otherwise. */
  lemma PenaltyCases(k: nat, m: nat, score: real)
    requires k + m == 0 ==> score == 100.0
    requires k + m > 0 ==> score == SkillScore(k, m)
    ensures 0.0 <= score <= 100.0
    ensures m == 0 ==> score == 100.0
    ensures m == 1 ==> score == OneGapScore(k + m)
    ensures m >= 2 ==> score <= 50.0
    ensures m >= 2 && k >= m ==> score == 50.0
    ensures m >= 2 && k < m ==> score == Coverage(k, m) < 50.0
  {
  }

  /** Without targets nothing is matched or missing; otherwise the score is
      that of the two counts. */
  lemma ScoreFromCounts(lib: SkillLibrary, resumeText: string, jdText: string)
    ensures var k := |MatchedRequirements(lib, resumeText, jdText)|;
            var m := |MissingRequirements(lib, resumeText, jdText)|;
            && |TargetedRequirements(lib, jdText)| == k + m
            && (k + m == 0 ==> MandatoryScore(lib, resumeText, jdText) == 100.0)
            && (k + m > 0 ==> MandatoryScore(lib, resumeText, jdText) == SkillScore(k, m))
  {
    var targeted := TargetedRequirements(lib, jdText);
    var matched := MatchedRequirements(lib, resumeText, jdText);
    var missing := MissingRequirements(lib, resumeText, jdText);
    assert targeted == matched + missing && matched !! missing;
    assert |targeted| == |matched| + |missing|;
  }

  /** A job description without a newline is a single line. */
  lemma SingleJobLine(jdText: string)
    requires '\n' !in Lower(jdText)
    ensures JobLines(jdText) == [Lower(jdText)]
  {
    NoNewlineIndex(Lower(jdText));
  }

  /** The line "python required" carries a cue and holds the token "python". */
  lemma PythonRequiredLine(line: string)
    requires line == "python required"
    ensures HasCue(line) && "python" in Words(line)
  {
    assert MandatoryCues[1] == "required";
    assert line[7..15] == "required";
    assert OccursAt(line, "required", 7);
    assert Contains(line, "required");
    assert "required" in MandatoryCues;
    LetterRunIsWord(line, 0, 6, 6);
    assert line[0..6] == "python";
  }

  /** With the default library, "python" is a targeted requirement of a
      job line "Python required". */
  lemma DefaultLibraryTargets(jdText: string)
    requires jdText == "Python required"
    ensures "python" in TargetedRequirements(DefaultLibrary, jdText)
  {
    var line := "python required";
    assert Lower(jdText) == line;
    SingleJobLine(jdText);
    PythonRequiredLine(line);
    assert "python" in DefaultLibrary;
    TargetedMembership(DefaultLibrary, jdText, "python");
  }

  /** "django" is a resume token of "Django developer". */
  lemma DjangoIsResumeWord(resumeText: string)
    requires resumeText == "Django developer"
    ensures "django" in ExtractAllRawWords(resumeText)
  {
    var resume := "django developer";
    assert Lower(resumeText) == resume;
    LetterRunIsWord(resume, 0, 6, 6);
    assert resume[0..6] == "django";
  }

  /** A dotted name such as "Node.js" is one resume token: the pattern
      takes the longest bounded run, so "node.js" is a token and "node" is
      not. */
  lemma DottedNameIsOneWord(resumeText: string)
    requires resumeText == "Node.js required"
    ensures "node.js" in ExtractAllRawWords(resumeText)
    ensures "node" !in ExtractAllRawWords(resumeText)
  {
    var resume := "node.js required";
    assert Lower(resumeText) == resume;
    LongestTokenTaken(resume);
  }

  /** A required category is met by one of its synonyms ("django" in the
      resume meets "python"), but a synonym is not met by its category. */
  lemma SynonymsExpandOneWay(resumeText: string, jdText: string)
    requires resumeText == "Django developer" && jdText == "Python required"
    ensures "python" in MatchedRequirements(DefaultLibrary, resumeText, jdText)
    ensures !Matches(DefaultLibrary, {"python"}, "django")
  {
    DjangoIsResumeWord(resumeText);
    DefaultLibraryTargets(jdText);
    DjangoMeetsPython(resumeText, jdText);
  }

  lemma DjangoMeetsPython(resumeText: string, jdText: string)
    requires "django" in ExtractAllRawWords(resumeText)
    requires "python" in TargetedRequirements(DefaultLibrary, jdText)
    ensures "python" in MatchedRequirements(DefaultLibrary, resumeText, jdText)
  {
    assert "python" in DefaultLibrary && "django" in DefaultLibrary["python"];
    MatchRule(DefaultLibrary, resumeText, jdText, "python");
  }
}
