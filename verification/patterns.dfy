/**
 * The regular expressions of the corpus parser and the retriever, written as
 * anchored matchers (see module Scan). Every pattern here is a sequence of
 * greedy runs and literals where giving back a digit or a space can only put
 * that digit or space where the next element needs some other character, so
 * backtracking never finds a match the maximal runs miss: each matcher takes
 * the maximal run at every step. Literal letters compare case-insensitively
 * (all patterns are compiled with IGNORECASE).
 */
module Patterns {
  import opened Options
  import opened Text
  import opened Scan

  /** Where `\s*` tried at `p` stops. */
  function SkipSpace(s: string, p: nat): (q: nat)
    requires p <= |s|
    ensures p <= q <= |s|
  {
    p + SpaceRun(s, p)
  }

  /** `(?:years|year)` tried at `q`: the longer alternative is tried first. */
  function YearWord(s: string, q: nat): (e: Option<nat>)
    ensures e.Some? ==> q < e.value <= |s| && MatchesCi(s, q, "year")
    ensures e.Some? ==> e.value == q + 4 || (e.value == q + 5 && MatchesCi(s, q, "years"))
    ensures e.Some? <==> MatchesCi(s, q, "year")
    ensures MatchesCi(s, q, "years") ==> e == Some(q + 5)
  {
    if MatchesCi(s, q, "years") then
      assert MatchesCi(s, q, "year") by {
        forall k | 0 <= k < 4 ensures LowerChar(s[q + k]) == LowerChar("year"[k]) {
          assert "year"[k] == "years"[k];
        }
      }
      Some(q + 5)
    else if MatchesCi(s, q, "year") then Some(q + 4)
    else None
  }

  /** `(?:to|-)` tried at `q`. */
  function RangeSep(s: string, q: nat): (e: Option<nat>)
    ensures e.Some? ==> q < e.value <= |s|
    ensures e.Some? ==> MatchesCi(s, q, "to") || s[q] == '-'
  {
    if MatchesCi(s, q, "to") then Some(q + 2)
    else if q < |s| && s[q] == '-' then Some(q + 1)
    else None
  }

  /** The two numbers of an "a to b years" or "a-b years" range, as written. */
  datatype Span = Span(first: nat, second: nat)

  /** `\s*(?:to|-)\s*(\d+)\s*(?:years|year)` tried at `q`, capturing the second number. */
  function RangeRest(s: string, q: nat): (r: Option<Match<nat>>)
    requires q <= |s|
    ensures r.Some? ==> q < r.value.end <= |s|
  {
    var a := SkipSpace(s, q);
    match RangeSep(s, a)
    case None => None
    case Some(b) =>
      var c := SkipSpace(s, b);
      var n := DigitRun(s, c);
      if n == 0 then None
      else match YearWord(s, SkipSpace(s, c + n))
        case None => None
        case Some(e) => Some(Match(e, Decimal(s, c, n)))
  }

  /** `(\d+)\s*(?:to|-)\s*(\d+)\s*(?:years|year)`, capturing both numbers. */
  function RangeAt(s: string, p: nat): (r: Option<Match<Span>>)
    ensures r.Some? ==> p < r.value.end <= |s|
  {
    if p > |s| then None
    else
      var n := DigitRun(s, p);
      if n == 0 then None
      else match RangeRest(s, p + n)
        case None => None
        case Some(m) => Some(Match(m.end, Span(Decimal(s, p, n), m.groups)))
  }

  /** `(\d+)\s*(?:years|year)`, capturing the number. */
  function YearAt(s: string, p: nat): (r: Option<Match<nat>>)
    ensures r.Some? ==> p < r.value.end <= |s|
  {
    if p > |s| then None
    else
      var n := DigitRun(s, p);
      if n == 0 then None
      else match YearWord(s, SkipSpace(s, p + n))
        case None => None
        case Some(e) => Some(Match(e, Decimal(s, p, n)))
  }

  /** `Punishment:\s*(.*)`, capturing the rest of the line after the marker and any whitespace. */
  function MarkerAt(s: string, p: nat): (r: Option<Match<string>>)
    ensures r.Some? ==> p < r.value.end <= |s|
    ensures r.Some? ==> '\n' !in r.value.groups
  {
    if !MatchesCi(s, p, "punishment:") then None
    else
      var j := SkipSpace(s, p + 11);
      var k := j + LineRun(s, j);
      assert '\n' !in s[j..k] by {
        forall i | 0 <= i < k - j ensures s[j..k][i] != '\n' {
          InLineRun(s, j, j + i);
        }
      }
      Some(Match(k, s[j..k]))
  }

  /** `IPC\s*(\d+[A-Z]*)`, capturing the section number with its letter suffix. */
  function IpcAt(s: string, p: nat): (r: Option<Match<string>>)
    ensures r.Some? ==> p + 3 < r.value.end <= |s|
  {
    if !MatchesCi(s, p, "ipc") then None
    else
      var q := SkipSpace(s, p + 3);
      var n := DigitRun(s, q);
      if n == 0 then None
      else
        var e := q + n + LetterRun(s, q + n);
        Some(Match(e, s[q..e]))
  }

  /** `greater than (\d+)\s*(?:years|year)?`, capturing the number. */
  function GreaterAt(s: string, p: nat): (r: Option<Match<nat>>)
    ensures r.Some? ==> p < r.value.end <= |s|
  {
    if !MatchesCi(s, p, "greater than ") then None
    else
      var q := p + 13;
      var n := DigitRun(s, q);
      if n == 0 then None
      else
        var w := SkipSpace(s, q + n);
        var e := match YearWord(s, w) case Some(e) => e case None => w;
        Some(Match(e, Decimal(s, q, n)))
  }

  lemma RangeAdvancing(s: string)
    ensures Advancing(RangeAt, s)
  {
  }

  /** A character that lower-cases to a letter is not a digit. */
  lemma CiLetterNotDigit(s: string, p: nat, w: string, k: nat)
    requires MatchesCi(s, p, w) && k < |w| && IsLetter(w[k])
    ensures !IsDigit(s[p + k])
  {
    assert LowerChar(s[p + k]) == LowerChar(w[k]);
  }

  /** RangeAt in terms of the run of digits at `p` and what follows it. */
  lemma RangeAtUnfold(s: string, p: nat)
    requires p <= |s| && DigitRun(s, p) > 0
    ensures RangeAt(s, p).None? <==> RangeRest(s, p + DigitRun(s, p)).None?
    ensures RangeAt(s, p).Some? ==>
      RangeAt(s, p).value.end == RangeRest(s, p + DigitRun(s, p)).value.end &&
      RangeAt(s, p).value.groups == Span(Decimal(s, p, DigitRun(s, p)), RangeRest(s, p + DigitRun(s, p)).value.groups)
  {
  }

  /** "year" does not start with "to" or "-". */
  lemma YearIsNoSep(s: string, d: nat)
    requires YearWord(s, d).Some?
    ensures RangeSep(s, d).None?
  {
    assert LowerChar(s[d]) == LowerChar("year"[0]);
    assert !MatchesCi(s, d, "to") by {
      assert LowerChar(s[d]) != LowerChar("to"[0]);
    }
  }

  /** A range tail needs "to" or "-" after the spaces. */
  lemma RestNeedsSep(s: string, e: nat, d: nat)
    requires e <= |s| && d == SkipSpace(s, e) && RangeSep(s, d).None?
    ensures RangeRest(s, e).None?
  {
  }

  /** The parts of RangeRest(s, t): separator at `a`, second number at `c` of `n2` digits, "year" at `d`. */
  lemma RangeRestParts(s: string, t: nat) returns (a: nat, b: nat, c: nat, n2: nat, d: nat)
    requires t <= |s| && RangeRest(s, t).Some?
    ensures a == SkipSpace(s, t) && RangeSep(s, a) == Some(b) && c == SkipSpace(s, b)
    ensures n2 == DigitRun(s, c) > 0 && d == SkipSpace(s, c + n2) && YearWord(s, d) == Some(RangeRest(s, t).value.end)
    ensures RangeRest(s, t).value.groups == Decimal(s, c, n2)
  {
    a := SkipSpace(s, t);
    b := RangeSep(s, a).value;
    c := SkipSpace(s, b);
    n2 := DigitRun(s, c);
    d := SkipSpace(s, c + n2);
  }

  /** A range starts with a digit. */
  lemma RangeNeedsDigit(s: string, q: nat)
    requires q <= |s| && (q == |s| || !IsDigit(s[q]))
    ensures RangeAt(s, q).None?
  {
  }

  /** A range fails when what follows its first number is not a range tail. */
  lemma RangeNeedsRest(s: string, q: nat, e: nat)
    requires q <= |s| && q + DigitRun(s, q) == e && RangeRest(s, e).None?
    ensures RangeAt(s, q).None?
  {
    if DigitRun(s, q) > 0 {
      RangeAtUnfold(s, q);
    }
  }

  /** A range cannot start inside the second number of a range tail: "year" follows that number, not "to" or "-". */
  lemma SecondHasNoRange(s: string, c: nat, n2: nat, d: nat, q: nat)
    requires c <= |s| && n2 == DigitRun(s, c) && d == SkipSpace(s, c + n2) && YearWord(s, d).Some?
    requires c <= q < c + n2
    ensures RangeAt(s, q).None?
  {
    DigitRunSharesEnd(s, c, q);
    YearIsNoSep(s, d);
    RestNeedsSep(s, c + n2, d);
    RangeNeedsRest(s, q, c + n2);
  }

  /** Outside its second number, a range tail holds no digit: only spaces, "to" or "-", and "year" or "years". */
  lemma TailHasNoDigit(s: string, t: nat, a: nat, b: nat, c: nat, n2: nat, d: nat, e: nat, q: nat)
    requires t <= |s| && a == SkipSpace(s, t) && RangeSep(s, a) == Some(b) && c == SkipSpace(s, b)
    requires n2 == DigitRun(s, c) && d == SkipSpace(s, c + n2) && YearWord(s, d) == Some(e)
    requires t <= q < e && !(c <= q < c + n2)
    ensures !IsDigit(s[q])
  {
    if q < c {
      SepPartNoDigit(s, t, a, b, c, q);
    } else {
      YearPartNoDigit(s, c + n2, d, e, q);
    }
  }

  /** Spaces, "to" or "-", and spaces again hold no digit. */
  lemma SepPartNoDigit(s: string, t: nat, a: nat, b: nat, c: nat, q: nat)
    requires t <= |s| && a == SkipSpace(s, t) && RangeSep(s, a) == Some(b) && c == SkipSpace(s, b)
    requires t <= q < c
    ensures !IsDigit(s[q])
  {
    if q < a {
      InSpaceRun(s, t, q);
    } else if q < b {
      if MatchesCi(s, a, "to") {
        CiLetterNotDigit(s, a, "to", q - a);
      }
    } else {
      InSpaceRun(s, b, q);
    }
  }

  /** Spaces followed by "year" or "years" hold no digit. */
  lemma YearPartNoDigit(s: string, g: nat, d: nat, e: nat, q: nat)
    requires g <= |s| && d == SkipSpace(s, g) && YearWord(s, d) == Some(e)
    requires g <= q < e
    ensures !IsDigit(s[q])
  {
    if q < d {
      InSpaceRun(s, g, q);
    } else if q < d + 4 {
      CiLetterNotDigit(s, d, "year", q - d);
    } else {
      CiLetterNotDigit(s, d, "years", q - d);
    }
  }

  /** A digit inside the tail of a range belongs to its second number, which "to" or "-" does not follow. */
  lemma RestHasNoRange(s: string, t: nat, q: nat)
    requires t <= |s| && RangeRest(s, t).Some? && t <= q < RangeRest(s, t).value.end
    ensures RangeAt(s, q).None?
  {
    var a, b, c, n2, d := RangeRestParts(s, t);
    if c <= q < c + n2 {
      SecondHasNoRange(s, c, n2, d, q);
    } else {
      TailHasNoDigit(s, t, a, b, c, n2, d, RangeRest(s, t).value.end, q);
      RangeNeedsDigit(s, q);
    }
  }

  /** A range starting inside the first number of another shares its tail, so its first number is a suffix. */
  lemma RangeInFirstNumber(s: string, p: nat, q: nat)
    requires p <= |s| && p < q < p + DigitRun(s, p)
    requires RangeAt(s, p).Some? && RangeAt(s, q).Some?
    ensures RangeAt(s, q).value.groups.first <= RangeAt(s, p).value.groups.first
    ensures RangeAt(s, q).value.groups.second == RangeAt(s, p).value.groups.second
  {
    var n := DigitRun(s, p);
    var m := DigitRun(s, q);
    var e := p + n;
    DigitRunSharesEnd(s, p, q);
    RangeAtSplit(s, p, n, e);
    RangeAtSplit(s, q, m, e);
    SuffixFirstNoLarger(s, p, q, e, n, m, RangeAt(s, q).value.groups, RangeAt(s, p).value.groups);
  }

  /** A RangeAt match is the first number, `n` digits up to `e`, followed by a RangeRest match from `e`. */
  lemma RangeAtSplit(s: string, p: nat, n: nat, e: nat)
    requires RangeAt(s, p).Some? && n == DigitRun(s, p) && e == p + n
    ensures p < e <= |s| && RangeRest(s, e).Some?
    ensures RangeAt(s, p).value.groups == Span(Decimal(s, p, n), RangeRest(s, e).value.groups)
  {
    assert p <= |s|;
    RangeAtUnfold(s, p);
  }

  /** Two spans whose first numbers are the values of `s[q..e]` and of `s[p..e]`, with `p <= q`. */
  lemma SuffixFirstNoLarger(s: string, p: nat, q: nat, e: nat, n: nat, m: nat, x: Span, y: Span)
    requires p <= q <= e <= |s| && n == e - p && m == e - q
    requires x.first == Decimal(s, q, m) && y.first == Decimal(s, p, n)
    ensures x.first <= y.first
  {
    DecimalSuffix(s, p, n, q, m);
  }

  /**
   * A range match that starts inside another one starts in its first number
   * (see RestHasNoRange), so it shares the other's second number and its first
   * number is a suffix of the other's first number, hence no larger.
   */
  lemma RangeInside(s: string, p: nat, q: nat)
    requires RangeAt(s, p).Some? && p < q < RangeAt(s, p).value.end
    ensures RangeAt(s, q).Some? ==>
      && RangeAt(s, q).value.groups.first <= RangeAt(s, p).value.groups.first
      && RangeAt(s, q).value.groups.second == RangeAt(s, p).value.groups.second
  {
    var n := DigitRun(s, p);
    RangeAtUnfold(s, p);
    if q < p + n {
      if RangeAt(s, q).Some? {
        RangeInFirstNumber(s, p, q);
      }
    } else {
      RestHasNoRange(s, p + n, q);
    }
  }

  /** YearAt in terms of the run of digits at `p` and the word after the spaces. */
  lemma YearAtUnfold(s: string, p: nat, n: nat, d: nat)
    requires p <= |s| && n == DigitRun(s, p) > 0 && d == SkipSpace(s, p + n)
    ensures YearAt(s, p) == match YearWord(s, d) case None => None case Some(e) => Some(Match(e, Decimal(s, p, n)))
  {
  }

  /** The second number of a range, with what follows it, is itself an "N years" match. */
  lemma RangeHasYear(s: string, p: nat) returns (q: nat)
    requires RangeAt(s, p).Some?
    ensures YearAt(s, q) == Some(Match(RangeAt(s, p).value.end, RangeAt(s, p).value.groups.second))
  {
    RangeAtUnfold(s, p);
    var a, b, c, n2, d := RangeRestParts(s, p + DigitRun(s, p));
    YearAtUnfold(s, c, n2, d);
    q := c;
  }

  // ------------------------------------------------ what each matcher accepts

  /** `s[i..j]` is a greedy run of `P`: every character in it satisfies `P`, and the one after it does not. */
  ghost predicate MaximalRun(s: string, i: nat, j: nat, P: char -> bool) {
    i <= j <= |s| && (forall k :: i <= k < j ==> P(s[k])) && (j == |s| || !P(s[j]))
  }

  /** A greedy run from `i` can end in one place only. */
  lemma MaximalRunUnique(s: string, i: nat, j1: nat, j2: nat, P: char -> bool)
    requires MaximalRun(s, i, j1, P) && MaximalRun(s, i, j2, P)
    ensures j1 == j2
  {
  }

  lemma DigitRunMaximal(s: string, p: nat)
    requires p <= |s|
    ensures MaximalRun(s, p, p + DigitRun(s, p), IsDigit)
  {
    forall k | p <= k < p + DigitRun(s, p) ensures IsDigit(s[k]) {
      InDigitRun(s, p, k);
    }
  }

  lemma SpaceRunMaximal(s: string, p: nat)
    requires p <= |s|
    ensures MaximalRun(s, p, SkipSpace(s, p), IsSpace)
  {
    forall k | p <= k < SkipSpace(s, p) ensures IsSpace(s[k]) {
      InSpaceRun(s, p, k);
    }
  }

  lemma LetterRunMaximal(s: string, p: nat)
    requires p <= |s|
    ensures MaximalRun(s, p, p + LetterRun(s, p), IsLetter)
  {
    forall k | p <= k < p + LetterRun(s, p) ensures IsLetter(s[k]) {
      InLetterRun(s, p, k);
    }
  }

  lemma LineRunMaximal(s: string, p: nat)
    requires p <= |s|
    ensures MaximalRun(s, p, p + LineRun(s, p), IsNotNewline)
  {
    forall k | p <= k < p + LineRun(s, p) ensures IsNotNewline(s[k]) {
      InLineRun(s, p, k);
    }
  }

  /** `(?:years|year)` spans `w..e`; "years" is taken whenever it fits, as it is the first alternative. */
  ghost predicate YearWordMatch(s: string, w: nat, e: nat) {
    || (MatchesCi(s, w, "years") && e == w + 5)
    || (!MatchesCi(s, w, "years") && MatchesCi(s, w, "year") && e == w + 4)
  }

  /** `(?:to|-)` spans `b..c`. */
  ghost predicate SepMatch(s: string, b: nat, c: nat) {
    || (MatchesCi(s, b, "to") && c == b + 2)
    || (!MatchesCi(s, b, "to") && b < |s| && s[b] == '-' && c == b + 1)
  }

  /** `(\d+)\s*(?:years|year)` at `p`: the number runs to `d`, the spaces to `w`, the year word to `e`. */
  ghost predicate YearMatch(s: string, p: nat, d: nat, w: nat, e: nat) {
    p < d && MaximalRun(s, p, d, IsDigit) && MaximalRun(s, d, w, IsSpace) && YearWordMatch(s, w, e)
  }

  /** A YearAt match is a YearMatch, and its number is the value of the digits. */
  lemma YearAtMatches(s: string, p: nat) returns (d: nat, w: nat)
    requires YearAt(s, p).Some?
    ensures YearMatch(s, p, d, w, YearAt(s, p).value.end)
    ensures YearAt(s, p).value.groups == Decimal(s, p, d - p)
  {
    d := p + DigitRun(s, p);
    w := SkipSpace(s, d);
    DigitRunMaximal(s, p);
    SpaceRunMaximal(s, d);
  }

  /** Every YearMatch is found by YearAt, with the value of its digits. */
  lemma MatchYearAt(s: string, p: nat, d: nat, w: nat, e: nat)
    requires YearMatch(s, p, d, w, e)
    ensures YearAt(s, p) == Some(Match(e, Decimal(s, p, d - p)))
  {
    DigitRunMaximal(s, p);
    MaximalRunUnique(s, p, d, p + DigitRun(s, p), IsDigit);
    SpaceRunMaximal(s, d);
    MaximalRunUnique(s, d, w, SkipSpace(s, d), IsSpace);
  }

  /**
   * `(\d+)\s*(?:to|-)\s*(\d+)\s*(?:years|year)` at `p`: the first number runs
   * to `a`, spaces to `b`, the separator to `c`, spaces to `f`, and from `f`
   * the second number with its year word is a YearMatch ending at `e`.
   */
  ghost predicate RangeMatch(s: string, p: nat, a: nat, b: nat, c: nat, f: nat, g: nat, w: nat, e: nat) {
    && p < a && MaximalRun(s, p, a, IsDigit) && MaximalRun(s, a, b, IsSpace)
    && SepMatch(s, b, c) && MaximalRun(s, c, f, IsSpace) && YearMatch(s, f, g, w, e)
  }

  /** A RangeAt match is a RangeMatch, and it captures the values of both numbers. */
  lemma RangeAtMatches(s: string, p: nat) returns (a: nat, b: nat, c: nat, f: nat, g: nat, w: nat)
    requires RangeAt(s, p).Some?
    ensures RangeMatch(s, p, a, b, c, f, g, w, RangeAt(s, p).value.end)
    ensures RangeAt(s, p).value.groups == Span(Decimal(s, p, a - p), Decimal(s, f, g - f))
  {
    assert p <= |s| && DigitRun(s, p) > 0;
    a := p + DigitRun(s, p);
    RangeAtUnfold(s, p);
    b, c, f, g, w := RangeRestMatches(s, a);
    DigitRunMaximal(s, p);
  }

  /** A RangeRest match is spaces, a separator, spaces and a YearMatch, capturing the value of its number. */
  lemma RangeRestMatches(s: string, a: nat) returns (b: nat, c: nat, f: nat, g: nat, w: nat)
    requires a <= |s| && RangeRest(s, a).Some?
    ensures MaximalRun(s, a, b, IsSpace) && SepMatch(s, b, c) && MaximalRun(s, c, f, IsSpace)
    ensures YearMatch(s, f, g, w, RangeRest(s, a).value.end)
    ensures RangeRest(s, a).value.groups == Decimal(s, f, g - f)
  {
    var n2;
    b, c, f, n2, w := RangeRestParts(s, a);
    g := f + n2;
    assert g - f == n2;
    RangeRestRuns(s, a, b, c, f, g, w, RangeRest(s, a).value.end);
  }

  /** The steps RangeRest takes are maximal runs, a separator and a year word. */
  lemma RangeRestRuns(s: string, a: nat, b: nat, c: nat, f: nat, g: nat, w: nat, e: nat)
    requires a <= |s| && b == SkipSpace(s, a) && RangeSep(s, b) == Some(c) && f == SkipSpace(s, c)
    requires g == f + DigitRun(s, f) && f < g && w == SkipSpace(s, g) && YearWord(s, w) == Some(e)
    ensures MaximalRun(s, a, b, IsSpace) && SepMatch(s, b, c) && MaximalRun(s, c, f, IsSpace)
    ensures YearMatch(s, f, g, w, e)
  {
    SpaceRunMaximal(s, a);
    SepMatches(s, b);
    SpaceRunMaximal(s, c);
    DigitRunMaximal(s, f);
    SpaceRunMaximal(s, g);
    YearWordMatches(s, w);
  }

  /** What RangeSep accepts is a SepMatch. */
  lemma SepMatches(s: string, b: nat)
    requires RangeSep(s, b).Some?
    ensures SepMatch(s, b, RangeSep(s, b).value)
  {
  }

  /** What YearWord accepts is a YearWordMatch. */
  lemma YearWordMatches(s: string, w: nat)
    requires YearWord(s, w).Some?
    ensures YearWordMatch(s, w, YearWord(s, w).value)
  {
  }

  /** A SepMatch is what RangeSep finds. */
  lemma SepIs(s: string, b: nat, c: nat)
    requires SepMatch(s, b, c)
    ensures RangeSep(s, b) == Some(c)
  {
  }

  /** A YearWordMatch is what YearWord finds. */
  lemma YearWordIs(s: string, w: nat, e: nat)
    requires YearWordMatch(s, w, e)
    ensures YearWord(s, w) == Some(e)
  {
  }

  /** The tail of a RangeMatch after its first number is found by RangeRest. */
  lemma MatchRangeRest(s: string, a: nat, b: nat, c: nat, f: nat, g: nat, w: nat, e: nat)
    requires MaximalRun(s, a, b, IsSpace) && SepMatch(s, b, c) && MaximalRun(s, c, f, IsSpace) && YearMatch(s, f, g, w, e)
    ensures RangeRest(s, a) == Some(Match(e, Decimal(s, f, g - f)))
  {
    SkipSpaceIs(s, a, b);
    SepIs(s, b, c);
    YearTailIs(s, c, f, g, w, e);
    RangeRestFrom(s, a, b, c, f, g - f, w, e);
  }

  /** RangeRest from the positions of its steps. */
  lemma RangeRestFrom(s: string, a: nat, b: nat, c: nat, f: nat, n: nat, w: nat, e: nat)
    requires a <= |s| && b == SkipSpace(s, a) && RangeSep(s, b) == Some(c) && f == SkipSpace(s, c)
    requires n == DigitRun(s, f) && n > 0 && w == SkipSpace(s, f + n) && YearWord(s, w) == Some(e)
    ensures RangeRest(s, a) == Some(Match(e, Decimal(s, f, n)))
  {
  }

  /** Spaces from `c` and then a YearMatch from `f` are what RangeRest reads after its separator. */
  lemma YearTailIs(s: string, c: nat, f: nat, g: nat, w: nat, e: nat)
    requires MaximalRun(s, c, f, IsSpace) && YearMatch(s, f, g, w, e)
    ensures SkipSpace(s, c) == f && DigitRun(s, f) == g - f > 0
    ensures SkipSpace(s, f + DigitRun(s, f)) == w && YearWord(s, w) == Some(e)
  {
    SkipSpaceIs(s, c, f);
    DigitRunIs(s, f, g);
    SkipSpaceIs(s, g, w);
    YearWordIs(s, w, e);
  }

  /** A greedy run of spaces from `p` ending at `q` is where SkipSpace stops. */
  lemma SkipSpaceIs(s: string, p: nat, q: nat)
    requires MaximalRun(s, p, q, IsSpace)
    ensures SkipSpace(s, p) == q
  {
    SpaceRunMaximal(s, p);
    MaximalRunUnique(s, p, q, SkipSpace(s, p), IsSpace);
  }

  /** A greedy run of digits from `p` ending at `q` is the DigitRun there. */
  lemma DigitRunIs(s: string, p: nat, q: nat)
    requires MaximalRun(s, p, q, IsDigit)
    ensures DigitRun(s, p) == q - p
  {
    DigitRunMaximal(s, p);
    MaximalRunUnique(s, p, q, p + DigitRun(s, p), IsDigit);
  }

  /** Every RangeMatch is found by RangeAt, with the values of both numbers. */
  lemma MatchRangeAt(s: string, p: nat, a: nat, b: nat, c: nat, f: nat, g: nat, w: nat, e: nat)
    requires RangeMatch(s, p, a, b, c, f, g, w, e)
    ensures RangeAt(s, p) == Some(Match(e, Span(Decimal(s, p, a - p), Decimal(s, f, g - f))))
  {
    DigitRunIs(s, p, a);
    MatchRangeRest(s, a, b, c, f, g, w, e);
    RangeAtFrom(s, p, a - p, a, Match(e, Decimal(s, f, g - f)));
  }

  /** RangeAt from the end of its first number and the match of the rest. */
  lemma RangeAtFrom(s: string, p: nat, n: nat, a: nat, m: Match<nat>)
    requires 0 < n && a == p + n <= |s| && DigitRun(s, p) == n && RangeRest(s, a) == Some(m)
    ensures RangeAt(s, p) == Some(Match(m.end, Span(Decimal(s, p, n), m.groups)))
  {
  }

  /** A greedy run of letters from `p` ending at `q` is the LetterRun there. */
  lemma LetterRunIs(s: string, p: nat, q: nat)
    requires MaximalRun(s, p, q, IsLetter)
    ensures LetterRun(s, p) == q - p
  {
    LetterRunMaximal(s, p);
    MaximalRunUnique(s, p, q, p + LetterRun(s, p), IsLetter);
  }

  /** A greedy run of non-newlines from `p` ending at `q` is the LineRun there. */
  lemma LineRunIs(s: string, p: nat, q: nat)
    requires MaximalRun(s, p, q, IsNotNewline)
    ensures LineRun(s, p) == q - p
  {
    LineRunMaximal(s, p);
    MaximalRunUnique(s, p, q, p + LineRun(s, p), IsNotNewline);
  }

  /**
   * `IPC\s*(\d+[A-Z]*)` at `p`: the letters "ipc" in any case, spaces to `q`,
   * digits to `d`, letters to `e`; the group is `s[q..e]`.
   */
  ghost predicate IpcMatch(s: string, p: nat, q: nat, d: nat, e: nat) {
    && MatchesCi(s, p, "ipc") && MaximalRun(s, p + 3, q, IsSpace)
    && q < d && MaximalRun(s, q, d, IsDigit) && MaximalRun(s, d, e, IsLetter)
  }

  /** An IpcAt match is an IpcMatch, capturing the section number with its letters. */
  lemma IpcAtMatches(s: string, p: nat) returns (q: nat, d: nat)
    requires IpcAt(s, p).Some?
    ensures IpcMatch(s, p, q, d, IpcAt(s, p).value.end)
    ensures IpcAt(s, p).value.groups == s[q..IpcAt(s, p).value.end]
  {
    q := SkipSpace(s, p + 3);
    d := q + DigitRun(s, q);
    IpcRuns(s, p, q, d, IpcAt(s, p).value.end);
  }

  /** The steps IpcAt takes are maximal runs of spaces, digits and letters. */
  lemma IpcRuns(s: string, p: nat, q: nat, d: nat, e: nat)
    requires MatchesCi(s, p, "ipc") && q == SkipSpace(s, p + 3) && d == q + DigitRun(s, q) && q < d
    requires e == d + LetterRun(s, d)
    ensures IpcMatch(s, p, q, d, e)
  {
    SpaceRunMaximal(s, p + 3);
    DigitRunMaximal(s, q);
    LetterRunMaximal(s, d);
  }

  /** Every IpcMatch is found by IpcAt, with the group `s[q..e]`. */
  lemma MatchIpcAt(s: string, p: nat, q: nat, d: nat, e: nat)
    requires IpcMatch(s, p, q, d, e)
    ensures IpcAt(s, p) == Some(Match(e, s[q..e]))
  {
    SkipSpaceIs(s, p + 3, q);
    DigitRunIs(s, q, d);
    LetterRunIs(s, d, e);
    IpcAtFrom(s, p, q, d - q, d, e);
  }

  /** IpcAt from the positions of its steps. */
  lemma IpcAtFrom(s: string, p: nat, q: nat, n: nat, d: nat, e: nat)
    requires MatchesCi(s, p, "ipc") && q == SkipSpace(s, p + 3) && n == DigitRun(s, q) && n > 0
    requires d == q + n && e == d + LetterRun(s, d)
    ensures IpcAt(s, p) == Some(Match(e, s[q..e]))
  {
  }

  /**
   * `greater than (\d+)\s*(?:years|year)?` at `p`: the phrase in any case,
   * digits to `d`, spaces to `w`, and then the year word to `e`, or, when no
   * year word follows, the match ends at `w`.
   */
  ghost predicate GreaterMatch(s: string, p: nat, d: nat, w: nat, e: nat) {
    && MatchesCi(s, p, "greater than ") && p + 13 < d && MaximalRun(s, p + 13, d, IsDigit)
    && MaximalRun(s, d, w, IsSpace) && (YearWordMatch(s, w, e) || (!MatchesCi(s, w, "year") && e == w))
  }

  /** A GreaterAt match is a GreaterMatch, and its number is the value of the digits. */
  lemma GreaterAtMatches(s: string, p: nat) returns (d: nat, w: nat)
    requires GreaterAt(s, p).Some?
    ensures GreaterMatch(s, p, d, w, GreaterAt(s, p).value.end)
    ensures GreaterAt(s, p).value.groups == Decimal(s, p + 13, d - p - 13)
  {
    var n := DigitRun(s, p + 13);
    d := p + 13 + n;
    w := SkipSpace(s, d);
    assert d - p - 13 == n;
    GreaterRuns(s, p, d, w, GreaterAt(s, p).value.end);
  }

  /** The steps GreaterAt takes are maximal runs of digits and spaces and an optional year word. */
  lemma GreaterRuns(s: string, p: nat, d: nat, w: nat, e: nat)
    requires MatchesCi(s, p, "greater than ") && d == p + 13 + DigitRun(s, p + 13) && p + 13 < d
    requires w == SkipSpace(s, d) && e == (if YearWord(s, w).Some? then YearWord(s, w).value else w)
    ensures GreaterMatch(s, p, d, w, e)
  {
    DigitRunMaximal(s, p + 13);
    SpaceRunMaximal(s, d);
    if YearWord(s, w).Some? {
      YearWordMatches(s, w);
    }
  }

  /** Every GreaterMatch is found by GreaterAt, with the value of its digits. */
  lemma MatchGreaterAt(s: string, p: nat, d: nat, w: nat, e: nat)
    requires GreaterMatch(s, p, d, w, e)
    ensures GreaterAt(s, p) == Some(Match(e, Decimal(s, p + 13, d - p - 13)))
  {
    DigitRunIs(s, p + 13, d);
    SkipSpaceIs(s, d, w);
    if YearWordMatch(s, w, e) {
      YearWordIs(s, w, e);
    }
    GreaterAtFrom(s, p, d - p - 13, d, w, e);
  }

  /** GreaterAt from the positions of its steps. */
  lemma GreaterAtFrom(s: string, p: nat, n: nat, d: nat, w: nat, e: nat)
    requires MatchesCi(s, p, "greater than ") && n == DigitRun(s, p + 13) && n > 0 && d == p + 13 + n
    requires w == SkipSpace(s, d) && e == (if YearWord(s, w).Some? then YearWord(s, w).value else w)
    ensures GreaterAt(s, p) == Some(Match(e, Decimal(s, p + 13, n)))
  {
  }

  /**
   * `Punishment:\s*(.*)` at `p`: the marker in any case, spaces (line feeds
   * included) to `j`, then everything up to the next line feed or the end, `k`.
   */
  ghost predicate MarkerMatch(s: string, p: nat, j: nat, k: nat) {
    MatchesCi(s, p, "punishment:") && MaximalRun(s, p + 11, j, IsSpace) && MaximalRun(s, j, k, IsNotNewline)
  }

  /** A MarkerAt match is a MarkerMatch, capturing `s[j..k]`. */
  lemma MarkerAtMatches(s: string, p: nat) returns (j: nat)
    requires MarkerAt(s, p).Some?
    ensures MarkerMatch(s, p, j, MarkerAt(s, p).value.end)
    ensures MarkerAt(s, p).value.groups == s[j..MarkerAt(s, p).value.end]
  {
    j := SkipSpace(s, p + 11);
    SpaceRunMaximal(s, p + 11);
    LineRunMaximal(s, j);
  }

  /** Every MarkerMatch is found by MarkerAt, with the group `s[j..k]`. */
  lemma MatchMarkerAt(s: string, p: nat, j: nat, k: nat)
    requires MarkerMatch(s, p, j, k)
    ensures MarkerAt(s, p) == Some(Match(k, s[j..k]))
  {
    SkipSpaceIs(s, p + 11, j);
    LineRunIs(s, j, k);
  }
}
