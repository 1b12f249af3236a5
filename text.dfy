/**
 * Text primitives of the fit scorer: ASCII lower-casing, splitting on
 * newlines, substring search, decimal rendering of an index, and the word
 * tokenizer `re.findall(r"\b[a-zA-Z\+\#\.]+\b", text)`.
 *
 * Python's `\b` is a boundary between a word character (`\w`) and a
 * non-word character, with the outside of the string counting as non-word.
 * Here `\w` is the ASCII letters, the ASCII digits and the underscore.
 */
module Text {
  import opened Seqs

  // ---------------------------------------------------------------------
  // Character classes

  predicate IsUpper(c: char) { 'A' <= c <= 'Z' }
  predicate IsLower(c: char) { 'a' <= c <= 'z' }
  predicate IsLetter(c: char) { IsLower(c) || IsUpper(c) }
  predicate IsDigit(c: char) { '0' <= c <= '9' }

  /** `\w`, restricted to ASCII. */
  predicate IsWordChar(c: char) { IsLetter(c) || IsDigit(c) || c == '_' }

  /** The three non-letter members of the token class `[a-zA-Z\+\#\.]`. */
  predicate IsSymbol(c: char) { c == '+' || c == '#' || c == '.' }

  /** A member of the token class `[a-zA-Z\+\#\.]`. */
  predicate IsTokenChar(c: char) { IsLetter(c) || IsSymbol(c) }

  /** A character that neither belongs to a token nor is a word character
      (a space, a comma, a newline, ...). */
  predicate IsSeparator(c: char) { !IsWordChar(c) && !IsSymbol(c) }

  // ---------------------------------------------------------------------
  // str.lower()

  function LowerChar(c: char): (d: char)
    ensures !IsUpper(d)
    ensures IsUpper(c) ==> IsLower(d) && d as int == c as int + 32
    ensures !IsUpper(c) ==> d == c
  {
    if IsUpper(c) then (c as int + 32) as char else c
  }

  function Lower(s: string): (r: string)
    ensures |r| == |s|
    ensures forall i :: 0 <= i < |s| ==> r[i] == LowerChar(s[i])
    ensures forall i :: 0 <= i < |r| ==> !IsUpper(r[i])
  {
    seq(|s|, i requires 0 <= i < |s| => LowerChar(s[i]))
  }

  /** Lower-casing leaves no upper-case letter and lower-casing twice is
      lower-casing once. */
  lemma LowerIsIdempotent(s: string)
    ensures forall i :: 0 <= i < |s| ==> !IsUpper(Lower(s)[i])
    ensures Lower(Lower(s)) == Lower(s)
  {
  }

  // ---------------------------------------------------------------------
  // `pattern in text`

  predicate OccursAt(s: string, pattern: string, k: int)
  {
    0 <= k && k + |pattern| <= |s| && s[k..k + |pattern|] == pattern
  }

  /** Python's substring test `pattern in s`. */
  predicate Contains(s: string, pattern: string): (b: bool)
    ensures forall k :: OccursAt(s, pattern, k) ==> b
    ensures b ==> |pattern| <= |s|
    ensures pattern == [] ==> b
  {
    assert pattern == [] ==> OccursAt(s, pattern, 0);
    exists k :: 0 <= k <= |s| - |pattern| && OccursAt(s, pattern, k)
  }

  // ---------------------------------------------------------------------
  // str.split("\n")

  function IndexOfNewline(s: string): (k: nat)
    ensures k <= |s|
    ensures k < |s| ==> s[k] == '\n'
    ensures forall j :: 0 <= j < k ==> s[j] != '\n'
  {
    if s == [] then 0
    else if s[0] == '\n' then 0
    else 1 + IndexOfNewline(s[1..])
  }

  /** `s.split("\n")`: at least one piece, none of which holds a newline. */
  function SplitLines(s: string): (lines: seq<string>)
    ensures |lines| >= 1
    ensures forall i :: 0 <= i < |lines| ==> '\n' !in lines[i]
    decreases |s|
  {
    var k := IndexOfNewline(s);
    if k == |s| then [s] else [s[..k]] + SplitLines(s[k + 1..])
  }

  /** `"\n".join(lines)`. */
  function JoinLines(lines: seq<string>): string
    requires |lines| >= 1
  {
    if |lines| == 1 then lines[0] else lines[0] + "\n" + JoinLines(lines[1..])
  }

  /** Splitting loses nothing: joining the pieces gives the text back. */
  lemma {:induction false} JoinSplitLines(s: string)
    ensures JoinLines(SplitLines(s)) == s
    decreases |s|
  {
    var k := IndexOfNewline(s);
    if k < |s| {
      var rest := SplitLines(s[k + 1..]);
      JoinSplitLines(s[k + 1..]);
      JoinCons(s[..k], rest);
      CutAtNewline(s, k);
    }
  }

  lemma JoinCons(line: string, rest: seq<string>)
    requires |rest| >= 1
    ensures JoinLines([line] + rest) == line + "\n" + JoinLines(rest)
  {
    assert ([line] + rest)[1..] == rest;
  }

  lemma CutAtNewline(s: string, k: nat)
    requires k < |s| && s[k] == '\n'
    ensures s == s[..k] + "\n" + s[k + 1..]
  {
  }

  /** And the pieces are recovered from the joined text. */
  lemma {:induction false} SplitJoinLines(lines: seq<string>)
    requires |lines| >= 1
    requires forall i :: 0 <= i < |lines| ==> '\n' !in lines[i]
    ensures SplitLines(JoinLines(lines)) == lines
  {
    var s := JoinLines(lines);
    if |lines| == 1 {
      NoNewlineIndex(lines[0]);
    } else {
      var rest := JoinLines(lines[1..]);
      assert s == lines[0] + "\n" + rest;
      NewlineIndexAfter(lines[0], rest);
      assert s[..|lines[0]|] == lines[0];
      assert s[|lines[0]| + 1..] == rest;
      SplitJoinLines(lines[1..]);
    }
  }

  lemma NoNewlineIndex(line: string)
    requires '\n' !in line
    ensures IndexOfNewline(line) == |line|
  {
  }

  lemma NewlineIndexAfter(line: string, rest: string)
    requires '\n' !in line
    ensures IndexOfNewline(line + "\n" + rest) == |line|
  {
    var s := line + "\n" + rest;
    assert s[|line|] == '\n';
    assert forall j :: 0 <= j < |line| ==> s[j] == line[j] && line[j] in line;
  }

  // ---------------------------------------------------------------------
  // re.findall(r"\b[a-zA-Z\+\#\.]+\b", s)

  /** Is there a word character at index i? Outside the string there is not. */
  predicate WordAt(s: string, i: int)
  {
    0 <= i < |s| && IsWordChar(s[i])
  }

  /** `\b` at position i (between s[i-1] and s[i]). */
  predicate IsBoundary(s: string, i: int)
  {
    WordAt(s, i - 1) != WordAt(s, i)
  }

  /** The end of the run of token characters that starts at i. */
  function RunEnd(s: string, i: nat): (e: nat)
    requires i <= |s|
    ensures i <= e <= |s|
    ensures forall k :: i <= k < e ==> IsTokenChar(s[k])
    ensures e == |s| || !IsTokenChar(s[e])
    decreases |s| - i
  {
    if i < |s| && IsTokenChar(s[i]) then RunEnd(s, i + 1) else i
  }

  /** Backtracking of the greedy `+`: the largest position in (lo, hi] at
      which `\b` holds, if any. */
  function LastBoundary(s: string, lo: nat, hi: nat): (r: Option<nat>)
    requires hi <= |s|
    ensures r.Some? ==> lo < r.value <= hi && IsBoundary(s, r.value)
    ensures r.Some? ==> forall k :: r.value < k <= hi ==> !IsBoundary(s, k)
    ensures r.None? ==> forall k :: lo < k <= hi ==> !IsBoundary(s, k)
    decreases hi
  {
    if hi <= lo then None
    else if IsBoundary(s, hi) then Some(hi)
    else LastBoundary(s, lo, hi - 1)
  }

  /** The end of the match of the pattern that starts at i, if one does:
      the pattern matches at i exactly when some bounded token starts
      there, and it then takes the longest one, ending at the last word
      boundary inside the run of token characters. */
  function MatchAt(s: string, i: nat): (r: Option<nat>)
    requires i <= |s|
    ensures r.Some? ==> i < r.value <= RunEnd(s, i) && TokenAt(s, i, s[i..r.value])
    ensures r.Some? ==> forall k :: r.value < k <= RunEnd(s, i) ==> !IsBoundary(s, k)
    ensures r.Some? ==> forall t :: TokenAt(s, i, t) ==> i + |t| <= r.value
    ensures r.None? ==> forall t :: !TokenAt(s, i, t)
  {
    TokensWithinRun(s, i);
    if i < |s| && IsTokenChar(s[i]) && IsBoundary(s, i) then
      LastBoundary(s, i, RunEnd(s, i))
    else None
  }

  /** A bounded token that starts at i ends inside the run of token
      characters that starts there. */
  lemma TokensWithinRun(s: string, i: nat)
    requires i <= |s|
    ensures forall t :: TokenAt(s, i, t) ==> i + |t| <= RunEnd(s, i)
  {
    forall t | TokenAt(s, i, t) ensures i + |t| <= RunEnd(s, i) {
      forall j | i <= j < i + |t| ensures IsTokenChar(s[j]) {
        assert s[j] == t[j - i];
      }
    }
  }

  /** t occurs at index k as a nonempty run of token characters with a word
      boundary on both sides: what the pattern describes. */
  predicate TokenAt(s: string, k: int, t: string)
  {
    && OccursAt(s, t, k)
    && |t| > 0
    && (forall j :: 0 <= j < |t| ==> IsTokenChar(t[j]))
    && IsBoundary(s, k)
    && IsBoundary(s, k + |t|)
  }

  /** The successive non-overlapping matches from position i on; each
      takes at least one character, so there are at most |s| - i. */
  function FindAll(s: string, i: nat): (r: seq<string>)
    requires i <= |s|
    ensures |r| <= |s| - i
    decreases |s| - i
  {
    if i == |s| then []
    else
      match MatchAt(s, i)
      case Some(j) => [s[i..j]] + FindAll(s, j)
      case None => FindAll(s, i + 1)
  }

  /** `set(re.findall(r"\b[a-zA-Z\+\#\.]+\b", s))`. */
  function Words(s: string): (r: set<string>)
    ensures |r| <= |s|
  {
    SetOfSize(FindAll(s, 0));
    SetOf(FindAll(s, 0))
  }

  /** Every token found is a bounded run of token characters of the text. */
  lemma {:induction false} FindAllSound(s: string, i: nat, t: string)
    requires i <= |s|
    requires t in FindAll(s, i)
    ensures exists k :: i <= k && TokenAt(s, k, t)
    decreases |s| - i
  {
    match MatchAt(s, i)
    case Some(j) =>
      if t != s[i..j] {
        FindAllSound(s, j, t);
      }
    case None =>
      FindAllSound(s, i + 1, t);
  }

  lemma WordsSound(s: string, t: string)
    requires t in Words(s)
    ensures exists k :: TokenAt(s, k, t)
  {
    FindAllSound(s, 0, t);
  }

  /** The scan does not jump over a position that follows a non-token
      character: whatever it finds from there, it finds from earlier. */
  lemma {:induction false} FindAllReaches(s: string, i: nat, p: nat)
    requires i <= p <= |s|
    requires p == 0 || !IsTokenChar(s[p - 1])
    ensures forall t :: t in FindAll(s, p) ==> t in FindAll(s, i)
    decreases p - i
  {
    if i < p {
      match MatchAt(s, i)
      case Some(j) =>
        assert j <= RunEnd(s, i) <= p - 1 < p;
        FindAllReaches(s, j, p);
      case None =>
        FindAllReaches(s, i + 1, p);
    }
  }

  /** A run of letters that starts the text or follows a separator, and
      that ends the text or is followed by symbols (possibly none) and then
      a separator or the end, is found as a token; the trailing symbols are
      not part of it. */
  lemma LetterRunIsWord(s: string, p: nat, q: nat, e: nat)
    requires p < q <= e <= |s|
    requires forall k :: p <= k < q ==> IsLetter(s[k])
    requires forall k :: q <= k < e ==> IsSymbol(s[k])
    requires p == 0 || IsSeparator(s[p - 1])
    requires e == |s| || IsSeparator(s[e])
    ensures s[p..q] in Words(s)
  {
    LetterRunMatch(s, p, q, e);
    assert s[p..q] in FindAll(s, p);
    FindAllReaches(s, 0, p);
  }

  lemma LetterRunMatch(s: string, p: nat, q: nat, e: nat)
    requires p < q <= e <= |s|
    requires forall k :: p <= k < q ==> IsLetter(s[k])
    requires forall k :: q <= k < e ==> IsSymbol(s[k])
    requires p == 0 || IsSeparator(s[p - 1])
    requires e == |s| || IsSeparator(s[e])
    ensures MatchAt(s, p) == Some(q)
  {
    RunEndIs(s, p, e);
    assert IsBoundary(s, q);
    forall k | q < k <= e ensures !IsBoundary(s, k) {
      assert !WordAt(s, k - 1);
    }
  }

  /** A string that occurs nowhere as a bounded token is not found. */
  lemma NotATokenNotAWord(s: string, t: string)
    requires forall k :: !TokenAt(s, k, t)
    ensures t !in Words(s)
  {
    forall u | u in Words(s) ensures exists k :: TokenAt(s, k, u) {
      WordsSound(s, u);
    }
  }

  /** The effect of the pattern's word boundaries: in
      "c++ go" the trailing "++" is dropped, so "c" is a token and "c++" is
      not. */
  lemma TrailingSymbolsDropped(s: string)
    requires s == "c++ go"
    ensures "c" in Words(s)
    ensures "go" in Words(s)
    ensures "c++" !in Words(s)
  {
    LetterRunIsWord(s, 0, 1, 3);
    assert s[0..1] == "c";
    LetterRunIsWord(s, 4, 6, 6);
    assert s[4..6] == "go";
    PlusPlusUnbounded(s);
    NotATokenNotAWord(s, "c++");
  }

  lemma PlusPlusUnbounded(s: string)
    requires s == "c++ go"
    ensures forall k :: !TokenAt(s, k, "c++")
  {
    forall k ensures !TokenAt(s, k, "c++") {
      if OccursAt(s, "c++", k) {
        assert s[k] == 'c';
        assert !IsBoundary(s, k + 3);
      }
    }
  }

  /** The match at a token start is the longest bounded token there: in
      "node.js required" the scan finds "node.js" and "required", and not
      the shorter "node", although "node" is itself followed by a word
      boundary. */
  lemma LongestTokenTaken(s: string)
    requires s == "node.js required"
    ensures Words(s) == {"node.js", "required"}
    ensures TokenAt(s, 0, "node") && "node" !in Words(s)
  {
    NodeJsWords(s);
    NodeIsBounded(s);
    assert |"node"| != |"node.js"| && |"node"| != |"required"|;
  }

  lemma NodeIsBounded(s: string)
    requires s == "node.js required"
    ensures TokenAt(s, 0, "node")
  {
    assert s[0..4] == "node" && IsBoundary(s, 4);
  }

  lemma NodeJsWords(s: string)
    requires s == "node.js required"
    ensures Words(s) == {"node.js", "required"}
  {
    FirstWordFound(s);
    LastWordFound(s);
    WordsOfTwo(s, "node.js", "required", 8);
  }

  lemma WordsOfTwo(s: string, a: string, b: string, p: nat)
    requires p <= |s|
    requires FindAll(s, 0) == [a] + FindAll(s, p)
    requires FindAll(s, p) == [b]
    ensures Words(s) == {a, b}
  {
    assert forall t :: t in [a] + [b] <==> t == a || t == b;
  }

  lemma FirstWordFound(s: string)
    requires s == "node.js required"
    ensures FindAll(s, 0) == ["node.js"] + FindAll(s, 8)
  {
    forall k | 0 <= k < 7 ensures IsTokenChar(s[k]) { }
    RunEndIs(s, 0, 7);
    assert IsBoundary(s, 0) && IsBoundary(s, 7);
    assert MatchAt(s, 0) == Some(7);
    assert MatchAt(s, 7) == None;
    assert s[0..7] == "node.js";
  }

  lemma RunEndIs(s: string, i: nat, e: nat)
    requires i <= e <= |s|
    requires forall k :: i <= k < e ==> IsTokenChar(s[k])
    requires e == |s| || !IsTokenChar(s[e])
    ensures RunEnd(s, i) == e
  {
  }

  lemma LastWordFound(s: string)
    requires s == "node.js required"
    ensures FindAll(s, 8) == ["required"]
  {
    RequiredRun(s);
    assert MatchAt(s, 8) == Some(16);
    assert s[8..16] == "required";
  }

  lemma RequiredRun(s: string)
    requires s == "node.js required"
    ensures RunEnd(s, 8) == 16 && IsBoundary(s, 8) && IsBoundary(s, 16)
  {
    forall k | 8 <= k < 16 ensures IsTokenChar(s[k]) { }
    RunEndIs(s, 8, 16);
  }


  // ---------------------------------------------------------------------
  // str(n) for the batch identifiers

  function DigitChar(d: nat): (c: char)
    requires d < 10
    ensures IsDigit(c) && c as int - '0' as int == d
  {
    ('0' as int + d) as char
  }

  /** `str(n)`: the decimal digits of n, most significant first. */
  function DecimalString(n: nat): (s: string)
    ensures |s| >= 1
    ensures forall k :: 0 <= k < |s| ==> IsDigit(s[k])
    ensures n < 10 <==> |s| == 1
    ensures n == 0 || s[0] != '0'
  {
    if n < 10 then [DigitChar(n)] else DecimalString(n / 10) + [DigitChar(n % 10)]
  }

  /** `int(s)` on a string of decimal digits. */
  function ParseDecimal(s: string): nat
    requires forall k :: 0 <= k < |s| ==> IsDigit(s[k])
  {
    if s == [] then 0
    else
      var last := s[|s| - 1];
      assert IsDigit(last);
      ParseDecimal(s[..|s| - 1]) * 10 + (last as int - '0' as int)
  }

  lemma {:induction false} ParseDecimalString(n: nat)
    ensures ParseDecimal(DecimalString(n)) == n
  {
    if n >= 10 {
      var s := DecimalString(n);
      ParseDecimalString(n / 10);
      assert s[..|s| - 1] == DecimalString(n / 10);
    }
  }

  /** Distinct numbers have distinct decimal renderings. */
  lemma DecimalStringInjective(a: nat, b: nat)
    requires DecimalString(a) == DecimalString(b)
    ensures a == b
  {
    ParseDecimalString(a);
    ParseDecimalString(b);
  }
}
