/**
 * The corpus parser: reading the punishment clause of an IPC section
 * (`parse_punishment_years`) and turning each corpus line into a structured
 * record (`load_data_structured`).
 */
module DataProcessing {
  import opened Options
  import opened Text
  import opened Scan
  import opened Patterns

  /** The sentinel year counts for the two punishments that are not a term of years. */
  const LifeYears: nat := 999
  const DeathYears: nat := 1000

  /** What `parse_punishment_years` returns: the year count, if any, and the punishment clause it read. */
  datatype Punishment = Punishment(years: Option<nat>, text: string)

  /**
   * The punishment clause: the rest of the line after the leftmost
   * `Punishment:` marker (any case), stripped, or "" without a marker.
   */
  function PunishmentText(desc: string): (t: string)
    ensures Search(MarkerAt, desc).None? ==> t == ""
    ensures '\n' !in t
    ensures t != [] ==> !IsSpace(t[0]) && !IsSpace(t[|t| - 1])
  {
    match Search(MarkerAt, desc)
    case None => ""
    case Some(h) =>
      assert MarkerAt(desc, h.start).value.groups == h.groups;
      StripInLine(h.groups);
      Strip(h.groups)
  }

  /**
   * Where the punishment clause sits: the leftmost marker (any case) is at
   * `m`, the `\s*` after it stops at `a`, the line runs on to `k`, and the
   * clause is `desc[a..b]`, that rest of the line without its trailing
   * whitespace.
   */
  lemma PunishmentSpan(desc: string) returns (m: nat, a: nat, b: nat, k: nat)
    requires exists p: nat :: MatchesCi(desc, p, "punishment:")
    ensures MarkerMatch(desc, m, a, k)
    ensures forall q: nat :: q < m ==> !MatchesCi(desc, q, "punishment:")
    ensures a <= b <= k
    ensures PunishmentText(desc) == desc[a..b]
    ensures forall i :: b <= i < k ==> IsSpace(desc[i])
  {
    var g;
    m, a, k, g := MarkerFirst(desc);
    var a';
    a', b := StripSpan(desc, g, a);
  }

  /** The leftmost marker match, and the line piece it captures. */
  lemma MarkerFirst(desc: string) returns (m: nat, a: nat, k: nat, g: string)
    requires exists p: nat :: MatchesCi(desc, p, "punishment:")
    ensures MarkerMatch(desc, m, a, k)
    ensures forall q: nat :: q < m ==> !MatchesCi(desc, q, "punishment:")
    ensures a <= k <= |desc| && OccursAt(desc, g, a) && |g| == k - a
    ensures g == [] || !IsSpace(g[0])
    ensures PunishmentText(desc) == Strip(g)
  {
    var p: nat :| MatchesCi(desc, p, "punishment:");
    assert MarkerAt(desc, p).Some?;
    var h := Search(MarkerAt, desc);
    assert h.Some?;
    m, k := h.value.start, h.value.end;
    a := MarkerAtMatches(desc, m);
    forall q: nat | q < m ensures !MatchesCi(desc, q, "punishment:") {
      if q <= |desc| {
        assert MarkerAt(desc, q).None?;
      }
    }
    g := h.value.groups;
    assert g == desc[a..k];
    assert OccursAt(desc, g, a);
    assert g != [] ==> g[0] == desc[a];
  }

  /** Stripping a piece of one line leaves it on one line. */
  lemma StripInLine(g: string)
    requires '\n' !in g
    ensures '\n' !in Strip(g)
  {
    CharAbsentInPiece(g, Strip(g), '\n');
  }

  /** Both numbers of every range, in order. */
  function RangeNumbers(hits: seq<Hit<Span>>): (ns: seq<nat>)
    ensures forall i :: 0 <= i < |hits| ==> hits[i].groups.first in ns && hits[i].groups.second in ns
    ensures forall n :: n in ns ==> exists i :: 0 <= i < |hits| && (n == hits[i].groups.first || n == hits[i].groups.second)
  {
    if hits == [] then []
    else
      var rest := RangeNumbers(hits[1..]);
      assert forall i :: 1 <= i < |hits| ==> hits[i] == hits[1..][i - 1];
      [hits[0].groups.first, hits[0].groups.second] + rest
  }

  /** Python's `max` over a non-empty list. */
  function MaxOf(xs: seq<nat>): (m: nat)
    requires xs != []
    ensures m in xs
    ensures forall x :: x in xs ==> x <= m
  {
    if |xs| == 1 then xs[0]
    else
      var r := MaxOf(xs[1..]);
      assert forall x :: x in xs ==> x == xs[0] || x in xs[1..];
      if xs[0] >= r then xs[0] else r
  }

  /**
   * The year count of a punishment clause: the largest number of all
   * "a to b years" / "a-b years" ranges; without a range the number of the
   * first "N years"; without a number 999 for "life", else 1000 for "death".
   */
  function ParseYears(t: string): (y: Option<nat>)
    ensures Search(YearAt, t).Some? ==> y.Some?
    ensures Contains(Lower(t), "life") || Contains(Lower(t), "death") ==> y.Some?
  {
    RangeAdvancing(t);
    var ranges := FindAll(RangeAt, t);
    if ranges != [] then Some(MaxOf(RangeNumbers(ranges)))
    else match Search(YearAt, t)
      case Some(h) => Some(h.groups)
      case None =>
        if Contains(Lower(t), "life") then Some(LifeYears)
        else if Contains(Lower(t), "death") then Some(DeathYears)
        else None
  }

  /** An empty clause has no year count. */
  lemma ParseYearsEmpty()
    ensures ParseYears("") == None
  {
    RangeAdvancing("");
    assert RangeAt("", 0).None?;
    FindAllEmpty(RangeAt, "");
    assert YearAt("", 0).None?;
    assert Search(YearAt, "").None?;
  }

  /** `parse_punishment_years(desc)` */
  function ParsePunishmentYears(desc: string): (r: Punishment)
    ensures Search(MarkerAt, desc).None? ==> r == Punishment(None, "")
    ensures r.text == PunishmentText(desc) && r.years == ParseYears(r.text)
  {
    var t := PunishmentText(desc);
    if t == [] then ParseYearsEmpty(); Punishment(None, t)
    else Punishment(ParseYears(t), t)
  }

  /** With a range present, the count is the largest range number. */
  lemma RangesGiveMaximum(t: string)
    requires (RangeAdvancing(t); FindAll(RangeAt, t) != [])
    ensures ParseYears(t) == Some(MaxOf(RangeNumbers(FindAll(RangeAt, t))))
  {
  }

  /** Every number in every range match, wherever it starts, is at most the year count. */
  lemma {:induction false} RangeMaximum(t: string, p: nat)
    requires RangeAt(t, p).Some?
    ensures ParseYears(t).Some?
    ensures RangeAt(t, p).value.groups.first <= ParseYears(t).value
    ensures RangeAt(t, p).value.groups.second <= ParseYears(t).value
  {
    RangeAdvancing(t);
    var i := HitCovering(RangeAt, t, p);
    var hits := FindAll(RangeAt, t);
    var h := hits[i];
    var ns := RangeNumbers(hits);
    assert h.groups.first in ns && h.groups.second in ns;
    RangesGiveMaximum(t);
    var m := MaxOf(ns);
    assert h.groups.first <= m && h.groups.second <= m;
    assert RangeAt(t, h.start) == Some(Match(h.end, h.groups));
    if h.start < p {
      RangeInside(t, h.start, p);
      assert RangeAt(t, p).value.groups.first <= h.groups.first;
      assert RangeAt(t, p).value.groups.second == h.groups.second;
    } else {
      assert h.start == p;
      assert RangeAt(t, p).value.groups == h.groups;
    }
    assert RangeAt(t, p).value.groups.first <= m && RangeAt(t, p).value.groups.second <= m;
    assert ParseYears(t) == Some(m);
  }

  /** The year count from ranges is itself one of the numbers of some range match. */
  lemma {:induction false} RangeMaximumAttained(t: string)
    requires exists p: nat :: RangeAt(t, p).Some?
    ensures ParseYears(t).Some?
    ensures exists p: nat ::
      && RangeAt(t, p).Some?
      && (ParseYears(t).value == RangeAt(t, p).value.groups.first || ParseYears(t).value == RangeAt(t, p).value.groups.second)
  {
    RangeAdvancing(t);
    var p: nat :| RangeAt(t, p).Some?;
    var _ := HitCovering(RangeAt, t, p);
    RangesGiveMaximum(t);
    var hits := FindAll(RangeAt, t);
    var m := MaxOf(RangeNumbers(hits));
    var i :| 0 <= i < |hits| && (m == hits[i].groups.first || m == hits[i].groups.second);
    HitMatches(RangeAt, t, i);
    var h := hits[i];
    assert RangeAt(t, h.start) == Some(Match(h.end, h.groups));
  }

  /** Without any range, the first "N years" gives the count and later ones are ignored. */
  lemma {:induction false} FirstYearWins(t: string, p: nat)
    requires forall q: nat :: RangeAt(t, q).None?
    requires YearAt(t, p).Some?
    requires forall q: nat :: q < p ==> YearAt(t, q).None?
    ensures ParseYears(t) == Some(YearAt(t, p).value.groups)
  {
    RangeAdvancing(t);
    FindAllEmpty(RangeAt, t);
    assert p <= |t|;
    var h := Search(YearAt, t);
    assert h.Some? && h.value.start == p;
  }

  /** A clause without any "N years" falls back to the keywords: "life" first, then "death". */
  lemma {:induction false} KeywordFallback(t: string)
    requires forall q: nat :: YearAt(t, q).None?
    ensures ParseYears(t) ==
      if Contains(Lower(t), "life") then Some(LifeYears)
      else if Contains(Lower(t), "death") then Some(DeathYears)
      else None
  {
    RangeAdvancing(t);
    forall q: nat | q <= |t| ensures RangeAt(t, q).None? {
      if RangeAt(t, q).Some? {
        var y := RangeHasYear(t, q);
        assert false;
      }
    }
    FindAllEmpty(RangeAt, t);
  }

  /** A number in the clause always beats the keywords: the count is then a number the clause spells out. */
  lemma {:induction false} NumberBeatsKeywords(t: string, p: nat)
    requires YearAt(t, p).Some?
    ensures ParseYears(t).Some?
    ensures exists q: nat ::
      || (YearAt(t, q).Some? && ParseYears(t).value == YearAt(t, q).value.groups)
      || (RangeAt(t, q).Some? && ParseYears(t).value in {RangeAt(t, q).value.groups.first, RangeAt(t, q).value.groups.second})
  {
    RangeAdvancing(t);
    if FindAll(RangeAt, t) != [] {
      FindAllEmpty(RangeAt, t);
      var r: nat :| r <= |t| && RangeAt(t, r).Some?;
      RangeMaximumAttained(t);
    } else {
      assert p <= |t|;
      var h := Search(YearAt, t);
      assert YearAt(t, h.value.start).Some?;
    }
  }

  /** The count is missing exactly when the clause has no "N years", no "life" and no "death". */
  lemma {:induction false} YearsMissing(t: string)
    ensures ParseYears(t).None? <==>
      (forall q: nat :: YearAt(t, q).None?) && !Contains(Lower(t), "life") && !Contains(Lower(t), "death")
  {
    if forall q: nat :: YearAt(t, q).None? {
      KeywordFallback(t);
    } else {
      var p: nat :| YearAt(t, p).Some?;
      NumberBeatsKeywords(t, p);
    }
  }

  /** One structured corpus entry. */
  datatype Record = Record(sectionId: string, summary: string, years: Option<nat>, originalText: string)

  /** A corpus line as `json.loads` leaves it: unusable, or an object whose `text` is a string ("" when absent). */
  datatype Line = Undecodable | Decoded(text: string)

  /** The skip rule: the lower-cased text contains "nan" anywhere, even inside a word, or it is shorter than 20. */
  predicate Rejected(t: string) {
    Contains(Lower(t), "nan") || |t| < 20
  }

  /** The skip rule read without `lower()`: a short text, or "nan" in any mix of cases somewhere in it. */
  lemma RejectedCi(t: string)
    ensures Rejected(t) <==> |t| < 20 || exists p: nat :: MatchesCi(t, p, "nan")
  {
    forall p: nat ensures OccursAt(Lower(t), "nan", p) <==> MatchesCi(t, p, "nan") {
      LowerOccursCi(t, "nan", p);
    }
    if exists p: nat :: MatchesCi(t, p, "nan") {
      var p: nat :| MatchesCi(t, p, "nan");
      assert OccursAt(Lower(t), "nan", p);
    }
  }

  /** The section id: the leftmost `IPC\s*\d+[A-Z]*` match (any case), upper-cased, or "UNKNOWN". */
  function SectionId(t: string): (id: string)
    ensures id == "UNKNOWN" <==> forall p: nat :: IpcAt(t, p).None?
    ensures id != "UNKNOWN" ==> |id| > 3 && id[..3] == "IPC"
  {
    match Search(IpcAt, t)
    case None => "UNKNOWN"
    case Some(h) =>
      var id := Upper(t[h.start..h.end]);
      UpperIpcPrefix(t, h.start, h.end);
      assert id[..3] != "UNK";
      id
  }

  /** Upper-casing a piece that starts with "ipc" in any case gives one that starts with "IPC". */
  lemma UpperIpcPrefix(t: string, p: nat, e: nat)
    requires p + 3 < e <= |t| && MatchesCi(t, p, "ipc")
    ensures |Upper(t[p..e])| > 3 && Upper(t[p..e])[..3] == "IPC"
  {
    var id := Upper(t[p..e]);
    forall k | 0 <= k < 3 ensures id[k] == "IPC"[k] {
      assert LowerChar(t[p + k]) == LowerChar("ipc"[k]);
    }
  }

  /** The upper-cased slice, character by character. */
  lemma UpperSlice(t: string, p: nat, e: nat)
    requires p <= e <= |t|
    ensures |Upper(t[p..e])| == e - p
    ensures forall k :: 0 <= k < e - p ==> Upper(t[p..e])[k] == UpperChar(t[p + k])
  {
  }

  /** The id is the upper-cased text of the leftmost IPC match, character by character. */
  lemma {:induction false} SectionIdLeftmost(t: string, p: nat)
    requires IpcAt(t, p).Some?
    requires forall q: nat :: q < p ==> IpcAt(t, q).None?
    ensures |SectionId(t)| == IpcAt(t, p).value.end - p
    ensures forall k :: 0 <= k < |SectionId(t)| ==> SectionId(t)[k] == UpperChar(t[p + k])
  {
    var e := IpcAt(t, p).value.end;
    assert p <= |t|;
    var h := Search(IpcAt, t);
    assert h.Some? && h.value.start == p && h.value.end == e;
    assert SectionId(t) == Upper(t[p..e]);
    UpperSlice(t, p, e);
  }

  /**
   * The description summary: with a case-sensitive `Punishment:` in the text,
   * the stripped part after the first ':' up to the next `Punishment:`;
   * otherwise the whole text. The ':' always exists, as the marker has one.
   */
  function Summary(t: string): (r: string)
    ensures !Contains(t, "Punishment:") ==> r == t
    ensures Contains(t, "Punishment:") ==> Contains(t, r) && !Contains(r, "Punishment:")
    ensures Contains(t, "Punishment:") && r != [] ==> !IsSpace(r[0]) && !IsSpace(r[|r| - 1])
  {
    if !Contains(t, "Punishment:") then t
    else
      assert ':' in t by {
        var i :| 0 <= i <= |t| - 11 && OccursAt(t, "Punishment:", i);
        assert t[i + 10] == "Punishment:"[10];
      }
      var rest := After(t, ':');
      var head := Before(rest, "Punishment:");
      var r := Strip(head);
      AbsentInPiece(head, r, "Punishment:");
      assert OccursAt(rest, head, 0);
      assert OccursAt(t, rest, |t| - |rest|);
      PieceOfPiece(rest, head, r);
      PieceOfPiece(t, rest, r);
      r
  }

  /**
   * Where the summary sits when the text has the marker: `i` is the first
   * ':', `j` the first `Punishment:` starting after it (or the end of the
   * text), and the summary is `t[a..b]`, with only whitespace between `i + 1`
   * and `a` and between `b` and `j`.
   */
  lemma SummarySpan(t: string) returns (i: nat, j: nat, a: nat, b: nat)
    requires Contains(t, "Punishment:")
    ensures i < |t| && t[i] == ':' && ':' !in t[..i]
    ensures i + 1 <= a <= b <= j <= |t|
    ensures j == |t| || OccursAt(t, "Punishment:", j)
    ensures forall q :: i + 1 <= q < j ==> !OccursAt(t, "Punishment:", q)
    ensures Summary(t) == t[a..b]
    ensures forall k :: i + 1 <= k < a ==> IsSpace(t[k])
    ensures forall k :: b <= k < j ==> IsSpace(t[k])
  {
    i := FirstColon(t);
    j, a, b := HeadSpan(t, i + 1, "Punishment:");
  }

  /** The summary is cut from the text after its first ':', which the marker guarantees. */
  lemma FirstColon(t: string) returns (i: nat)
    requires Contains(t, "Punishment:")
    ensures i < |t| && t[i] == ':' && ':' !in t[..i]
    ensures Summary(t) == Strip(Before(t[i + 1..], "Punishment:"))
  {
    assert ':' in t by {
      var o :| 0 <= o <= |t| - 11 && OccursAt(t, "Punishment:", o);
      assert t[o + 10] == "Punishment:"[10];
    }
    var rest := After(t, ':');
    i := |t| - |rest| - 1;
    assert rest == t[i + 1..];
    assert ':' !in t[..i] by {
      forall k | 0 <= k < i ensures t[..i][k] != ':' {
        assert t[k] != ':';
      }
    }
  }

  /** The record built from an accepted text; the original text is kept verbatim. */
  function MakeRecord(t: string): (r: Record)
    ensures r.originalText == t
  {
    Record(SectionId(t), Summary(t), ParsePunishmentYears(t).years, t)
  }

  /** The texts that pass the skip rule, in line order; undecodable lines are passed over. */
  function AcceptedTexts(lines: seq<Line>): (ts: seq<string>)
    ensures forall i :: 0 <= i < |ts| ==> !Rejected(ts[i])
  {
    if lines == [] then []
    else
      var rest := AcceptedTexts(lines[1..]);
      match lines[0]
      case Decoded(t) => if Rejected(t) then rest else [t] + rest
      case Undecodable => rest
  }

  /** The number of decoded lines the skip rule rejects. */
  function SkippedCount(lines: seq<Line>): nat {
    if lines == [] then 0
    else (if lines[0].Decoded? && Rejected(lines[0].text) then 1 else 0) + SkippedCount(lines[1..])
  }

  /** The number of lines that could not be decoded; they are dropped without being counted. */
  function Undecodables(lines: seq<Line>): nat {
    if lines == [] then 0
    else (if lines[0].Undecodable? then 1 else 0) + Undecodables(lines[1..])
  }

  /** Every line is accepted, skipped or undecodable, and exactly one of them. */
  lemma {:induction false} LinesPartitioned(lines: seq<Line>)
    ensures |AcceptedTexts(lines)| + SkippedCount(lines) + Undecodables(lines) == |lines|
  {
    if lines != [] {
      LinesPartitioned(lines[1..]);
    }
  }

  /** What `load_data_structured` produces, with the skip count it logs. */
  datatype Loaded = Loaded(records: seq<Record>, skipped: nat)

  /** `load_data_structured` over the lines of the corpus file: one record per accepted text, in order. */
  function LoadStructured(lines: seq<Line>): (r: Loaded)
    ensures |r.records| + r.skipped + Undecodables(lines) == |lines|
    ensures |r.records| == |AcceptedTexts(lines)|
    ensures forall i :: 0 <= i < |r.records| ==> r.records[i] == MakeRecord(AcceptedTexts(lines)[i])
  {
    LinesPartitioned(lines);
    var ts := AcceptedTexts(lines);
    Loaded(seq(|ts|, i requires 0 <= i < |ts| => MakeRecord(ts[i])), SkippedCount(lines))
  }

  /** Loading two runs of lines one after the other concatenates their texts and adds their skip counts. */
  lemma {:induction false} LoadAppend(a: seq<Line>, b: seq<Line>)
    ensures AcceptedTexts(a + b) == AcceptedTexts(a) + AcceptedTexts(b)
    ensures SkippedCount(a + b) == SkippedCount(a) + SkippedCount(b)
  {
    if a != [] {
      assert (a + b)[1..] == a[1..] + b;
      LoadAppend(a[1..], b);
    } else {
      assert a + b == b;
    }
  }

  /** Lines with the same accepted texts load to the same records. */
  lemma SameTextsSameRecords(a: seq<Line>, b: seq<Line>)
    requires AcceptedTexts(a) == AcceptedTexts(b)
    ensures LoadStructured(a).records == LoadStructured(b).records
  {
  }

  /** A bad line changes nothing: the records are those of the other lines. */
  lemma BadLineIgnored(a: seq<Line>, b: seq<Line>)
    ensures LoadStructured(a + [Undecodable] + b).records == LoadStructured(a + b).records
  {
    LoadAppend(a + [Undecodable], b);
    LoadAppend(a, [Undecodable]);
    LoadAppend(a, b);
    assert AcceptedTexts([Undecodable]) == [];
    SameTextsSameRecords(a + [Undecodable] + b, a + b);
  }

  /** A text is accepted exactly when some line decodes to it and it passes the skip rule. */
  lemma {:induction false} AcceptedTextsMembers(lines: seq<Line>, t: string)
    ensures t in AcceptedTexts(lines) <==> Decoded(t) in lines && !Rejected(t)
  {
    if lines != [] {
      AcceptedTextsMembers(lines[1..], t);
      assert lines == [lines[0]] + lines[1..];
    }
  }

  /** The skip rule is a plain substring test: "pregnant" is rejected because it contains "nan". */
  lemma NanInsideWordRejected()
    ensures Rejected("Whoever causes a pregnant woman to miscarry")
  {
    var t := "Whoever causes a pregnant woman to miscarry";
    assert t[21] == 'n' && t[22] == 'a' && t[23] == 'n';
    assert Lower(t)[21] == 'n' && Lower(t)[22] == 'a' && Lower(t)[23] == 'n';
    assert OccursAt(Lower(t), "nan", 21);
  }
}
