/**
 * The two ways the code applies a regular expression: `re.search` (the
 * leftmost match) and `re.findall` (successive non-overlapping matches, left
 * to right). A pattern is modelled as an anchored matcher: given the text and
 * a start position it returns where the match tried there ends and what its
 * groups hold, or `None`.
 */
module Scan {
  import opened Options

  /** A match of a pattern tried at one position: where it ends and what it captured. */
  datatype Match<+T> = Match(end: nat, groups: T)

  /** A match located in the text. */
  datatype Hit<+T> = Hit(start: nat, end: nat, groups: T)

  type Pattern<!T> = (string, nat) -> Option<Match<T>>

  /** Every match of `pat` in `s` is non-empty and stays inside `s`. */
  ghost predicate Advancing<T>(pat: Pattern<T>, s: string) {
    forall p: nat :: pat(s, p).Some? ==> p < pat(s, p).value.end <= |s|
  }

  /** `re.search(pat, s[from..])`: the match at the leftmost position where one exists. */
  function Search<T>(pat: Pattern<T>, s: string, from: nat := 0): (r: Option<Hit<T>>)
    ensures r.Some? ==> from <= r.value.start <= |s|
    ensures r.Some? ==> pat(s, r.value.start) == Some(Match(r.value.end, r.value.groups))
    ensures forall q: nat :: from <= q <= |s| && (r.None? || q < r.value.start) ==> pat(s, q).None?
    decreases |s| + 1 - from
  {
    if from > |s| then None
    else match pat(s, from)
      case Some(m) => Some(Hit(from, m.end, m.groups))
      case None => Search(pat, s, from + 1)
  }

  /**
   * `re.findall(pat, s[from..])`: after a match the scan resumes where it ended,
   * otherwise one position further on. The hits are real matches, in order and
   * disjoint, and every position where the pattern matches is the start of a
   * hit or lies inside one.
   */
  function FindAll<T>(pat: Pattern<T>, s: string, from: nat := 0): (r: seq<Hit<T>>)
    requires Advancing(pat, s)
    ensures Genuine(pat, s, from, r)
    ensures Ordered(r)
    ensures Covers(pat, s, from, r)
    decreases |s| + 1 - from
  {
    if from > |s| then []
    else match pat(s, from)
      case Some(m) =>
        var h := Hit(from, m.end, m.groups);
        var rest := FindAll(pat, s, m.end);
        CoverHead(pat, s, from, h, rest);
        GenuineHead(pat, s, from, h, rest);
        OrderedHead(h, rest);
        [h] + rest
      case None => FindAll(pat, s, from + 1)
  }

  /** Each hit is a real match of `pat`, inside `s`, at or after `from`. */
  ghost predicate Genuine<T>(pat: Pattern<T>, s: string, from: nat, hits: seq<Hit<T>>) {
    forall i :: 0 <= i < |hits| ==>
      from <= hits[i].start < hits[i].end <= |s| && pat(s, hits[i].start) == Some(Match(hits[i].end, hits[i].groups))
  }

  lemma GenuineHead<T>(pat: Pattern<T>, s: string, from: nat, h: Hit<T>, rest: seq<Hit<T>>)
    requires h.start == from < h.end <= |s| && pat(s, from) == Some(Match(h.end, h.groups))
    requires Genuine(pat, s, h.end, rest)
    ensures Genuine(pat, s, from, [h] + rest)
    ensures forall j :: 0 <= j < |rest| ==> h.end <= rest[j].start
  {
    var hits := [h] + rest;
    forall i | 0 <= i < |hits|
      ensures from <= hits[i].start < hits[i].end <= |s| && pat(s, hits[i].start) == Some(Match(hits[i].end, hits[i].groups))
    {
      if i > 0 {
        assert hits[i] == rest[i - 1];
      }
    }
  }

  /** The hits are disjoint and sorted by position. */
  ghost predicate Ordered<T>(hits: seq<Hit<T>>) {
    forall i, j :: 0 <= i < j < |hits| ==> hits[i].end <= hits[j].start
  }

  lemma OrderedHead<T>(h: Hit<T>, rest: seq<Hit<T>>)
    requires Ordered(rest)
    requires forall j :: 0 <= j < |rest| ==> h.end <= rest[j].start
    ensures Ordered([h] + rest)
  {
    var hits := [h] + rest;
    forall i, j | 0 <= i < j < |hits| ensures hits[i].end <= hits[j].start {
      assert hits[j] == rest[j - 1];
      if i > 0 {
        assert hits[i] == rest[i - 1];
      }
    }
  }

  /** Positions `from..|s|` where `pat` matches are each the start of, or inside, a hit of `hits`. */
  ghost predicate Covers<T>(pat: Pattern<T>, s: string, from: nat, hits: seq<Hit<T>>) {
    forall q: nat :: from <= q <= |s| && pat(s, q).Some? ==>
      exists i :: 0 <= i < |hits| && hits[i].start <= q < hits[i].end
  }

  lemma CoverHead<T>(pat: Pattern<T>, s: string, from: nat, h: Hit<T>, rest: seq<Hit<T>>)
    requires h.start == from < h.end
    requires forall q: nat :: h.end <= q <= |s| && pat(s, q).Some? ==>
      exists i :: 0 <= i < |rest| && rest[i].start <= q < rest[i].end
    ensures Covers(pat, s, from, [h] + rest)
  {
    var hits := [h] + rest;
    forall q: nat | from <= q <= |s| && pat(s, q).Some?
      ensures exists i :: 0 <= i < |hits| && hits[i].start <= q < hits[i].end
    {
      if q < h.end {
        assert hits[0] == h;
      } else {
        var i :| 0 <= i < |rest| && rest[i].start <= q < rest[i].end;
        assert hits[i + 1] == rest[i];
      }
    }
  }

  /** `findall` finds something exactly when some position matches. */
  lemma FindAllEmpty<T>(pat: Pattern<T>, s: string)
    requires Advancing(pat, s)
    ensures FindAll(pat, s) == [] <==> forall q: nat :: q <= |s| ==> pat(s, q).None?
  {
    if FindAll(pat, s) != [] {
      var h := FindAll(pat, s)[0];
      assert pat(s, h.start).Some?;
    }
  }

  /** The hit of `findall` that a matching position starts or lies inside. */
  lemma HitCovering<T>(pat: Pattern<T>, s: string, q: nat) returns (i: nat)
    requires Advancing(pat, s) && q <= |s| && pat(s, q).Some?
    ensures i < |FindAll(pat, s)|
    ensures FindAll(pat, s)[i].start <= q < FindAll(pat, s)[i].end
    ensures pat(s, FindAll(pat, s)[i].start) == Some(Match(FindAll(pat, s)[i].end, FindAll(pat, s)[i].groups))
  {
    var hits := FindAll(pat, s);
    i :| 0 <= i < |hits| && hits[i].start <= q < hits[i].end;
  }

  /** Each hit of `findall` is a match of the pattern where it starts. */
  lemma HitMatches<T>(pat: Pattern<T>, s: string, i: nat)
    requires Advancing(pat, s) && i < |FindAll(pat, s)|
    ensures FindAll(pat, s)[i].start < FindAll(pat, s)[i].end <= |s|
    ensures pat(s, FindAll(pat, s)[i].start) == Some(Match(FindAll(pat, s)[i].end, FindAll(pat, s)[i].groups))
  {
  }
}
