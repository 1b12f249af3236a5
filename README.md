# Fit scoring: a Dafny model

This project models the resume-to-job fit-scoring engine, the class
`FitScorer` in `fit_score/fit_scoring.py`, and proves properties of it.
For one resume and one job description the engine produces a report.
The report combines three sub-scores:

- **Mandatory skills** (`score_mandatory_skills`). The job description
  is lower-cased and split into lines. Only lines that contain one of
  the cues "must have", "required", "mandatory" or "essential" are
  tokenised. Their tokens that the skill library knows are the targeted
  requirements. A library term is a category name or one of its
  synonyms. A category requirement is met when the resume holds the
  category name or any of its synonyms. Any other requirement is met
  only by itself. The score is the matched percentage. One missing
  requirement costs 15 points. Two or more cap the score at 50. The
  score never goes below 0. Without a targeted requirement the result
  is `(100, [], [])`.
- **Experience** (`extract_years_range`, `score_experience`). The
  numbers that year ranges and single year mentions contribute are
  pooled. The pool gives `(min, max)`, or `(0, 0)` when it is empty.
  A job minimum of 0 scores 100 whatever the resume says. Otherwise
  the score depends on `diff = resume max - job min`: 100 when
  `diff >= 0`, 85 at exactly -1, 60 at exactly -2, and 40 for any other
  shortfall, fractional ones included.
- **Semantic similarity**: 100 times the cosine of the two texts'
  embeddings.

`score_job_fit` weighs these 0.4 / 0.2 / 0.4 and reports the matched
and missing lists sorted. `process_batch` scores a list of resumes
against one description. It keys the results `resume_1` ... `resume_n`
in input order.

Modules:

- `Seqs` (`seqs.dfy`): lists used as sets, lists without duplicates,
  and an `Option` type.
- `Text` (`text.dfy`):
  - ASCII lower-casing and `split("\n")`;
  - a model of `re.findall(r"\b[a-zA-Z\+\#\.]+\b", s)` that keeps
    the word boundaries;
  - the decimal rendering of the batch ids.
- `Sorting` (`sorting.dfy`): Python's ordering of strings and `sorted`.
- `SkillMatching` (`skill_matching.dfy`): the mandatory-skill scorer.
  It has specification functions and the scorer's three loops as
  methods proved against them.
- `Experience` (`experience.dfy`): pooling, min/max and the bucket
  policy.
- `FitScoring` (`fit_scoring.dfy`): the weighting, the report, and the
  batch loop over an insertion-ordered dictionary.

Choices made in modelling:

- **The skill library is a parameter** `lib: map<string, seq<string>>`.
  `DefaultLibrary` is the built-in fallback of line 16.
- **Set iteration order is not modelled.** Python iterates the
  targeted set in an unspecified order. `ClassifyRequirements` therefore
  picks requirements in any order, and its contract holds for every
  order. The report sorts both lists. `SortedUnique` shows that a sorted
  list is determined by its elements. The report is thus a function of
  the inputs (`FitSpec`), and `ScoreJobFit` is proved equal to it.
- **The tokenizer follows the code, not its evident intent.** The
  character class includes `+ # .`, presumably to keep spellings such
  as "c++", "c#" and ".net". The `\b` anchors of the pattern do not
  allow that:
  - after a trailing `+` or `#` followed by a space, no boundary
    remains, so the match backtracks to the letters;
  - a leading `.` after a space is not at a boundary either.

  The model follows the code. `Text.TrailingSymbolsDropped` shows that
  in "c++ go", "c" and "go" are tokens and "c++" is not. Where a run of
  token characters has several boundaries, the greedy `+` stops at the
  last one: `Text.LongestTokenTaken` shows that "node.js" is one token.
- **Return types follow the code.** `score_experience` is annotated
  as returning ints, but it returns the extracted float years. The
  model returns reals for `required` and `found`.

## Model

| member | source | states |
|---|---|---|
| Text.Contains | fit_score/fit_scoring.py:46 | any occurrence of the pattern makes `pattern in s` true; the empty pattern is in every text; a pattern longer than the text is never in it |
| Text.Lower | fit_score/fit_scoring.py:40 | the result is as long as the text and has no upper-case ASCII letter; each upper-case letter becomes its lower-case letter and every other character is kept (the same lower-casing is applied at lines 43 and 85) |
| Text.LowerIsIdempotent | fit_score/fit_scoring.py:40 | lower-casing an already lower-cased text changes nothing |
| Text.SplitLines | fit_score/fit_scoring.py:43 | `split("\n")` yields at least one piece, and no piece contains a newline |
| Text.JoinSplitLines | fit_score/fit_scoring.py:43 | joining the pieces of a split with newlines gives back the original text |
| Text.SplitJoinLines | fit_score/fit_scoring.py:43 | splitting newline-free lines joined by newlines gives back exactly those lines |
| Text.MatchAt | fit_score/fit_scoring.py:40 | the pattern matches at i iff some bounded token (a nonempty run of letters and `+ # .` with a word boundary on both sides) starts there; the match is then such a token, the longest one: it ends inside the run of token characters, and no boundary follows it within the run |
| Text.FindAll | fit_score/fit_scoring.py:47 | `findall` returns at most as many matches as the text has characters; `Text.WordsSound` states what each match is |
| Text.Words | fit_score/fit_scoring.py:40 | the set of tokens has at most as many elements as the text has characters; `Text.WordsSound`, `Text.NotATokenNotAWord`, `Text.LetterRunIsWord` and `Text.LongestTokenTaken` are about this definition |
| Text.WordsSound | fit_score/fit_scoring.py:40 | every token `findall` returns is such a bounded run at some position of the text |
| Text.NotATokenNotAWord | fit_score/fit_scoring.py:40 | a string that occurs nowhere as a bounded run is never returned |
| Text.LetterRunIsWord | fit_score/fit_scoring.py:40 | a letter run at the start or after a separator, followed by zero or more symbols, then a separator or the end, is returned without the trailing symbols |
| Text.TrailingSymbolsDropped | fit_score/fit_scoring.py:40 | in "c++ go" the tokens include "c" and "go" but not "c++" |
| Text.LongestTokenTaken | fit_score/fit_scoring.py:40 | the tokens of "node.js required" are exactly "node.js" and "required"; "node" is not one, although it is a bounded run at the start |
| Text.DecimalString | fit_score/fit_scoring.py:135 | `str(n)` is one or more decimal digits without a leading zero (unless n = 0), a single digit exactly when n < 10 |
| Text.ParseDecimalString | fit_score/fit_scoring.py:135 | the decimal rendering of a number parses back to that number |
| Text.DecimalStringInjective | fit_score/fit_scoring.py:135 | different numbers have different decimal renderings |
| Sorting.LexLeq | fit_score/fit_scoring.py:125-126 | in the order `sorted` uses, a string is at or below every string it is a prefix of (itself included), and a nonempty string below another starts with a code point no greater than the other's first |
| Sorting.LexLeqTotal | fit_score/fit_scoring.py:125-126 | any two strings are comparable under Python's string order |
| Sorting.LexLeqAntisymmetric | fit_score/fit_scoring.py:125-126 | two strings each below the other are equal |
| Sorting.LexLeqTransitive | fit_score/fit_scoring.py:125-126 | the string order is transitive |
| Sorting.Insert | fit_score/fit_scoring.py:125-126 | inserting into a sorted list keeps it sorted and adds exactly that element |
| Sorting.Sort | fit_score/fit_scoring.py:125-126 | `sorted` returns an ascending permutation of its input |
| Sorting.SortedUnique | fit_score/fit_scoring.py:125-126 | two sorted lists with the same elements and counts are equal |
| Sorting.SortPermutation | fit_score/fit_scoring.py:125-126 | sorting two permutations of a list gives the same result, so the input order cannot show through |
| SkillMatching.ExtractAllRawWords | fit_score/fit_scoring.py:38-40 | every resume token occurs as a bounded run in the lower-cased text and has no upper-case letter |
| SkillMatching.DottedNameIsOneWord | fit_score/fit_scoring.py:38-40 | the resume tokens of "Node.js required" include "node.js" and not "node" |
| SkillMatching.DefaultLibraryTerms | fit_score/fit_scoring.py:16 | the built-in library recognises exactly "python", "django", "flask", "pytorch", "sql", "postgresql" and "mysql" |
| SkillMatching.HasCue | fit_score/fit_scoring.py:46 | a line is mandatory iff it contains "must have", "required", "mandatory" or "essential" |
| SkillMatching.JobLines | fit_score/fit_scoring.py:43 | the lines of the lower-cased description: at least one, none holding a newline, and joined with newlines they give the lower-cased description back |
| SkillMatching.CueTokens | fit_score/fit_scoring.py:44-48 | every token of every cue line is collected; `SkillMatching.CueTokensMembership` states that nothing else is |
| SkillMatching.RawRequirements | fit_score/fit_scoring.py:43-48 | every token of every cue line of the lower-cased description is a raw requirement |
| SkillMatching.CueTokensMembership | fit_score/fit_scoring.py:45-48 | a token is a raw requirement iff some line with a cue holds it; lines without a cue contribute nothing |
| SkillMatching.CollectRawRequirements | fit_score/fit_scoring.py:44-48 | the loop over the lines collects exactly the tokens of the cue lines |
| SkillMatching.LibraryTerms | fit_score/fit_scoring.py:50-52 | a term is valid iff it is a category name or a synonym of some category |
| SkillMatching.CollectLibraryTerms | fit_score/fit_scoring.py:50-52 | the loop over the library's values builds exactly that set of terms |
| SkillMatching.TargetedRequirements | fit_score/fit_scoring.py:54 | a token is targeted iff it is a raw requirement and a category name or a synonym of some category |
| SkillMatching.TargetedMembership | fit_score/fit_scoring.py:45-54 | targeted requirements are exactly the cue-line tokens that are category names or synonyms |
| SkillMatching.NoTargetsFullScore | fit_score/fit_scoring.py:54-56 | if no cue-line token is a library term, the score is 100 with nothing matched or missing |
| SkillMatching.NoCueLineFullScore | fit_score/fit_scoring.py:43-56 | a description without any cue line scores 100 with nothing matched or missing |
| SkillMatching.ClassifyRequirements | fit_score/fit_scoring.py:59-74 | in any iteration order each targeted requirement lands in exactly one list, once; it lands in `matched` iff the matching rule holds |
| SkillMatching.MatchedRequirements | fit_score/fit_scoring.py:59-74 | the matched requirements are targeted ones, and include every targeted requirement the resume holds verbatim |
| SkillMatching.MissingRequirements | fit_score/fit_scoring.py:59-74 | the missing requirements are targeted ones, none of them matched and none of them a resume token |
| SkillMatching.MatchedMissingPartition | fit_score/fit_scoring.py:59-74 | matched and missing are disjoint, and together they are the targeted set |
| SkillMatching.Matches | fit_score/fit_scoring.py:61-69 | a requirement the resume holds always matches; a category also matches through any of its synonyms the resume holds; any other requirement matches only itself |
| SkillMatching.MatchRule | fit_score/fit_scoring.py:61-69 | a category requirement matches iff the resume holds it or one of its synonyms; any other requirement matches iff the resume holds it |
| SkillMatching.Coverage | fit_score/fit_scoring.py:76 | the matched percentage lies in [0, 100] and is 100 when nothing is missing |
| SkillMatching.CoverageAsShortfall | fit_score/fit_scoring.py:76 | the matched percentage is 100 minus m shares of 100/n |
| SkillMatching.CoverageHalf | fit_score/fit_scoring.py:76 | the coverage is at least 50 iff at least as many requirements are matched as missing |
| SkillMatching.SkillScore | fit_score/fit_scoring.py:76-81 | the score lies in [0, 100]; it is 100 when m = 0 and `max(0, 100(n-1)/n - 15)` when m = 1; when m >= 2 it is exactly 50 if at least half are matched, and the uncapped coverage, below 50, otherwise |
| SkillMatching.ShortfallGrows | fit_score/fit_scoring.py:76 | the shortfall grows with the missing count, and two or more missing cost at least two shares |
| SkillMatching.Penalise | fit_score/fit_scoring.py:77-81 | the penalised score lies between 0 and the unpenalised score (floored at 0); no missing requirement changes nothing, one costs 15 points, and with two or more a base of 50 or more becomes exactly 50 while a lower base is kept |
| SkillMatching.PenaliseMonotone | fit_score/fit_scoring.py:77-81 | the penalty never ranks a larger shortfall above a smaller one |
| SkillMatching.SkillScoreMonotone | fit_score/fit_scoring.py:76-81 | for a fixed number of requirements, more missing requirements never raise the score |
| SkillMatching.MandatoryScore | fit_score/fit_scoring.py:54-81 | the score lies in [0, 100] and is 100 when nothing is missing; `SkillMatching.MandatoryScorePenalties` states the penalty cases |
| SkillMatching.MandatoryScorePenalties | fit_score/fit_scoring.py:54-81 | the scorer's score lies in [0, 100], with the m = 0 and m = 1 cases in terms of the targeted and missing counts; for m >= 2 it is exactly 50 when the matched count k >= m and the coverage of k and m, below 50, when k < m |
| SkillMatching.ScoreMandatorySkills | fit_score/fit_scoring.py:42-81 | returns `(100, [], [])` without targets; otherwise the lists hold each requirement once, they enumerate the matched and missing sets, and the score is that of their sizes |
| SkillMatching.SingleJobLine | fit_score/fit_scoring.py:43 | a description without a newline is one line |
| SkillMatching.DefaultLibraryTargets | fit_score/fit_scoring.py:16 | with the default library, "Python required" targets "python" |
| SkillMatching.SynonymsExpandOneWay | fit_score/fit_scoring.py:63-69 | with the default library, a resume mentioning django meets a required python; a resume token python does not meet a required django |
| Experience.RangeEnds | fit_score/fit_scoring.py:96 | the flattened range list has both ends of every range, in order |
| Experience.Pool | fit_score/fit_scoring.py:96 | `found_numbers` has both ends of range i at positions 2i and 2i+1, followed by the single numbers in order |
| Experience.PoolContents | fit_score/fit_scoring.py:96 | the pool holds both ends of each range and each single number, and nothing else |
| Experience.SeqMin | fit_score/fit_scoring.py:101 | `min` is an element of the list and is at most every element |
| Experience.SeqMax | fit_score/fit_scoring.py:101 | `max` is an element of the list and is at least every element |
| Experience.YearsRange | fit_score/fit_scoring.py:96-101 | `(0, 0)` for an empty pool; otherwise both values are in the pool, they bound every pooled number, and min <= max |
| Experience.ExtractYearsRange | fit_score/fit_scoring.py:84-101 | `(0, 0)` when the scans of the lower-cased text find no number; otherwise the least and the greatest number found, which bound every number found; 0 <= min <= max |
| Experience.DiffScore | fit_score/fit_scoring.py:108-109 | 100 iff diff >= 0, 85 iff diff = -1, 60 iff diff = -2, 40 for every other negative diff |
| Experience.FractionalShortfallScoresLow | fit_score/fit_scoring.py:109 | half a year short scores 40, below one full year short (85) and the same as ten years short |
| Experience.ScoreExperience | fit_score/fit_scoring.py:103-110 | the score is in {40, 60, 85, 100}; `(100, 0, 0)` when the job minimum is 0; otherwise it reports (job min, resume max); the score is 100 iff there is no requirement or the resume meets it |
| Experience.NoRequirementIgnoresResume | fit_score/fit_scoring.py:104-107 | without a stated requirement, any two resumes get the same result |
| Experience.ExperienceBuckets | fit_score/fit_scoring.py:106-110 | with a stated requirement, the score follows the four buckets of resume max - job min |
| FitScoring.OverallScore | fit_score/fit_scoring.py:120 | with sub-scores in range the overall score lies in [-40, 100], and it is nonnegative when every part is |
| FitScoring.OverallScoreMonotone | fit_score/fit_scoring.py:120 | the weighting is monotone in each sub-score |
| FitScoring.OverallScoreExample | fit_score/fit_scoring.py:120 | skill 80, experience 100 and semantic 50 give 72 |
| FitScoring.SemanticScore | fit_score/fit_scoring.py:118 | the score has the sign of the cosine, is 0 only for a zero cosine, and lies in [-100, 100] for a cosine in [-1, 1] |
| FitScoring.SortedSkills | fit_score/fit_scoring.py:125-126 | a set's sorted listing is sorted, has no duplicates, and holds exactly the set |
| FitScoring.SortDistinct | fit_score/fit_scoring.py:125-126 | sorting any duplicate-free listing of a set gives the set's sorted listing |
| FitScoring.FitSpec | fit_score/fit_scoring.py:112-130 | the report's experience score is one of the four buckets, and its lists are sorted, duplicate-free listings of the matched and the missing sets |
| FitScoring.ScoreJobFit | fit_score/fit_scoring.py:112-130 | the report equals `FitSpec` of the inputs, whatever order the scorer listed the requirements in |
| FitScoring.FitSpecSkills | fit_score/fit_scoring.py:113-126 | the reported lists are sorted and duplicate-free; they are the matched and missing sets, disjoint, and together the targeted set |
| FitScoring.FitSpecNoTargets | fit_score/fit_scoring.py:112-130 | without targets the lists are empty and the skill part adds its full 40 points |
| FitScoring.FitSpecOverallBounds | fit_score/fit_scoring.py:118-120 | for a cosine in [-1, 1] the overall score lies in [-40, 100], and it is nonnegative for a nonnegative cosine |
| FitScoring.Put | fit_score/fit_scoring.py:136 | `d[k] = v` appends when k is new; otherwise it replaces the entry of k in place |
| FitScoring.ResumeId | fit_score/fit_scoring.py:135 | an id is `resume_` followed by one or more decimal digits without a leading zero, a single digit exactly for indexes below 10 |
| FitScoring.ResumeIdExamples | fit_score/fit_scoring.py:135 | the first resume is keyed `resume_1` and the twelfth `resume_12` |
| FitScoring.ResumeIdInjective | fit_score/fit_scoring.py:135 | distinct indexes give distinct ids |
| FitScoring.Keyed | fit_score/fit_scoring.py:134-136 | entry i of the keyed results is `(resume_{i+1}, report i)` |
| FitScoring.KeyedKeysDistinct | fit_score/fit_scoring.py:134-136 | no id occurs twice, so every store of the loop appends |
| FitScoring.BatchKeys | fit_score/fit_scoring.py:132-137 | n resumes give exactly the keys `resume_1` ... `resume_n`, in order and each once; entry i is the report for resume i |
| FitScoring.ProcessBatch | fit_score/fit_scoring.py:132-137 | the loop builds exactly `BatchSpec` of the inputs: entry i is keyed `resume_{i+1}` and holds `FitSpec` of resume i |

## Left out

- Embedding model and cosine similarity (fit_score/fit_scoring.py:29-36, 116-118): these are a foreign library and floating-point numerics. The cosine is a parameter `cosine: (string, string) -> real`. The lazily created `_embedding_model` field and its fallback download are not modelled. The score is not clamped, as in the code; `FitScoring.FitSpecOverallBounds` assumes a cosine in [-1, 1].
- `load_skill_library` and the global `SKILL_LIBRARY` (fit_score/fit_scoring.py:14-21): the file and JSON I/O are left out. The library is a parameter, and the fallback of line 16 is `SkillMatching.DefaultLibrary`.
- The regular-expression year scans (fit_score/fit_scoring.py:87-93): `Experience.YearScan` takes them as given. It maps the lower-cased text to the range pairs and the single numbers found, in text order. The numbers are nonnegative reals. Only pooling and the min/max logic are modelled.
- `round(..., 2)` (fit_score/fit_scoring.py:123, 128): the report carries the unrounded sums.
- Floating-point arithmetic: scores are exact reals. Float rounding in `len(matched) / len(targeted) * 100` and in `resume_max - jd_min` is not modelled. For example, the float difference of two decimals may miss exactly -1.0 where the real difference hits it.
- Text.Lower: only ASCII letters are lower-cased. Python's `str.lower` also folds non-ASCII letters.
- Text.WordAt: `\w` is ASCII letters, digits and `_`. Python's Unicode `\w` also covers other alphabets.
- FastMCP tool wrappers and the server entry point (fit_score/fit_scoring.py:140-163): protocol plumbing with no logic.
- Exceptions: no modelled operation fails. `process_batch` aborts on an exception that a scoring call raises; that can only come from the embedding model, which is not modelled.
- `server.py`, `job_server.py`, `render_pdf.py`, `notifier.py` and `fit score/model.py` are not part of this model. They are HTTP, scraping, rendering and SMTP I/O.
