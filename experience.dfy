/**
 * Years of experience: `FitScorer.extract_years_range` and
 * `FitScorer.score_experience`.
 *
 * The two regular-expression scans of the lower-cased text (the range form
 * "<num> to|-|至 <num> year" and the single form "[qualifier] <num>[+]
 * year") are taken as given: a `YearScan` maps the lower-cased text to the
 * pairs found by the first and the numbers found by the second, in text
 * order. The numbers are unsigned decimals, so they are never negative.
 */
module Experience {
  import opened Text

  type Years = r: real | r >= 0.0

  datatype YearMentions = YearMentions(ranges: seq<(Years, Years)>, singles: seq<Years>)

  /** The two `re.findall` scans over a lower-cased text. */
  type YearScan = string -> YearMentions

  /** `[n for r in range_pattern for n in r]`: both ends of every range, in order. */
  function RangeEnds(ranges: seq<(Years, Years)>): (ends: seq<Years>)
    ensures |ends| == 2 * |ranges|
    ensures forall i :: 0 <= i < |ranges| ==> ends[2 * i] == ranges[i].0 && ends[2 * i + 1] == ranges[i].1
  {
    if ranges == [] then []
    else [ranges[0].0, ranges[0].1] + RangeEnds(ranges[1..])
  }

  /** `found_numbers`: the range ends followed by the single numbers. */
  function Pool(m: YearMentions): (p: seq<Years>)
    ensures |p| == 2 * |m.ranges| + |m.singles|
    ensures forall i :: 0 <= i < |m.ranges| ==> p[2 * i] == m.ranges[i].0 && p[2 * i + 1] == m.ranges[i].1
    ensures p[2 * |m.ranges|..] == m.singles
  {
    RangeEnds(m.ranges) + m.singles
  }

  /** Ranges contribute both ends, singles one number each, and nothing
      else is pooled. */
  lemma PoolContents(m: YearMentions)
    ensures |Pool(m)| == 2 * |m.ranges| + |m.singles|
    ensures forall x :: x in Pool(m) <==>
      (exists i :: 0 <= i < |m.ranges| && (x == m.ranges[i].0 || x == m.ranges[i].1))
      || x in m.singles
  {
    var ends := RangeEnds(m.ranges);
    forall x | x in ends
      ensures exists i :: 0 <= i < |m.ranges| && (x == m.ranges[i].0 || x == m.ranges[i].1)
    {
      var j :| 0 <= j < |ends| && ends[j] == x;
      assert ends[2 * (j / 2)] == m.ranges[j / 2].0 && ends[2 * (j / 2) + 1] == m.ranges[j / 2].1;
    }
    forall i | 0 <= i < |m.ranges| ensures m.ranges[i].0 in ends && m.ranges[i].1 in ends {
      assert ends[2 * i] == m.ranges[i].0 && ends[2 * i + 1] == m.ranges[i].1;
    }
  }

  /** `min` of a nonempty list. */
  function SeqMin(xs: seq<real>): (m: real)
    requires |xs| > 0
    ensures m in xs
    ensures forall x :: x in xs ==> m <= x
  {
    if |xs| == 1 then xs[0]
    else
      var rest := SeqMin(xs[1..]);
      assert xs == [xs[0]] + xs[1..];
      if xs[0] <= rest then xs[0] else rest
  }

  /** `max` of a nonempty list. */
  function SeqMax(xs: seq<real>): (m: real)
    requires |xs| > 0
    ensures m in xs
    ensures forall x :: x in xs ==> x <= m
  {
    if |xs| == 1 then xs[0]
    else
      var rest := SeqMax(xs[1..]);
      assert xs == [xs[0]] + xs[1..];
      if xs[0] >= rest then xs[0] else rest
  }

  /** (min, max) of the pooled numbers, or (0, 0) when none were found. */
  function YearsRange(m: YearMentions): (r: (real, real))
    ensures Pool(m) == [] ==> r == (0.0, 0.0)
    ensures Pool(m) != [] ==> r.0 in Pool(m) && r.1 in Pool(m)
    ensures forall x :: x in Pool(m) ==> r.0 <= x <= r.1
    ensures 0.0 <= r.0 <= r.1
  {
    var pool := Pool(m);
    if pool == [] then (0.0, 0.0) else (SeqMin(pool), SeqMax(pool))
  }

  /** `extract_years_range(text)`: the least and the greatest number the
      scans of the lower-cased text found, or (0, 0) when they found none. */
  function ExtractYearsRange(scan: YearScan, text: string): (r: (real, real))
    ensures Pool(scan(Lower(text))) == [] ==> r == (0.0, 0.0)
    ensures Pool(scan(Lower(text))) != [] ==> r.0 in Pool(scan(Lower(text))) && r.1 in Pool(scan(Lower(text)))
    ensures forall x :: x in Pool(scan(Lower(text))) ==> r.0 <= x <= r.1
    ensures 0.0 <= r.0 <= r.1
  {
    YearsRange(scan(Lower(text)))
  }

  /** The exact-match shortfall table `{-1: 85, -2: 60}`. */
  const ShortfallScores: map<real, nat> := map[-1.0 := 85, -2.0 := 60]

  /** The score for a difference between the years found and required. */
  function DiffScore(diff: real): (score: nat)
    ensures score in {40, 60, 85, 100}
    ensures score == 100 <==> diff >= 0.0
    ensures score == 85 <==> diff == -1.0
    ensures score == 60 <==> diff == -2.0
    ensures score == 40 <==> diff < 0.0 && diff != -1.0 && diff != -2.0
  {
    if diff >= 0.0 then 100
    else if diff in ShortfallScores then ShortfallScores[diff]
    else 40
  }

  /** A shortfall that is not a whole year or two scores 40, as much as a
      large one: half a year short scores below one year short. */
  lemma FractionalShortfallScoresLow()
    ensures DiffScore(-0.5) == 40 && DiffScore(-1.0) == 85 && DiffScore(-10.0) == 40
  {
  }

  /** `score_experience`: (score, required, found). */
  function ScoreExperience(scan: YearScan, resumeText: string, jdText: string): (r: (nat, real, real))
    ensures r.0 in {40, 60, 85, 100}
    ensures ExtractYearsRange(scan, jdText).0 == 0.0 ==> r == (100, 0.0, 0.0)
    ensures ExtractYearsRange(scan, jdText).0 != 0.0 ==>
      r.1 == ExtractYearsRange(scan, jdText).0 && r.2 == ExtractYearsRange(scan, resumeText).1
    ensures r.0 == 100 <==>
      ExtractYearsRange(scan, jdText).0 == 0.0
      || ExtractYearsRange(scan, resumeText).1 >= ExtractYearsRange(scan, jdText).0
  {
    var jdMin := ExtractYearsRange(scan, jdText).0;
    var resumeMax := ExtractYearsRange(scan, resumeText).1;
    if jdMin == 0.0 then (100, 0.0, 0.0)
    else (DiffScore(resumeMax - jdMin), jdMin, resumeMax)
  }

  /** Without a stated requirement the resume is not looked at. */
  lemma NoRequirementIgnoresResume(scan: YearScan, resumeA: string, resumeB: string, jdText: string)
    requires ExtractYearsRange(scan, jdText).0 == 0.0
    ensures ScoreExperience(scan, resumeA, jdText) == ScoreExperience(scan, resumeB, jdText)
  {
  }

  /** The shortfall buckets, with d = resume maximum - job minimum. */
  lemma ExperienceBuckets(scan: YearScan, resumeText: string, jdText: string)
    requires ExtractYearsRange(scan, jdText).0 != 0.0
    ensures var d := ExtractYearsRange(scan, resumeText).1 - ExtractYearsRange(scan, jdText).0;
            var s := ScoreExperience(scan, resumeText, jdText).0;
            && (d >= 0.0 ==> s == 100)
            && (d == -1.0 ==> s == 85)
            && (d == -2.0 ==> s == 60)
            && (d < 0.0 && d != -1.0 && d != -2.0 ==> s == 40)
  {
  }
}
