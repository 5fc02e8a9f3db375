/**
 * The list operations of the retriever: Python's stable
 * `sorted(..., key=score, reverse=True)`, the slice `xs[:k]`, and the
 * order-preserving de-duplication done with a `seen` set.
 */
module Ranking {

  /** Highest score first. */
  ghost predicate SortedDesc(xs: seq<string>, score: string -> int) {
    forall i, j :: 0 <= i < j < |xs| ==> score(xs[i]) >= score(xs[j])
  }

  /** The elements of `xs` whose score is `v`, in their order in `xs`. */
  function WithScore(xs: seq<string>, score: string -> int, v: int): seq<string> {
    if xs == [] then []
    else (if score(xs[0]) == v then [xs[0]] else []) + WithScore(xs[1..], score, v)
  }

  /**
   * Puts `x` in front of the first element that does not score more than it,
   * so among equal scores `x` comes first (it came first in the input).
   */
  function Insert(x: string, xs: seq<string>, score: string -> int): seq<string> {
    if xs == [] || score(xs[0]) <= score(x) then [x] + xs
    else [xs[0]] + Insert(x, xs[1..], score)
  }

  /** Inserting adds `x` and loses nothing. */
  lemma {:induction false} InsertPermutes(x: string, xs: seq<string>, score: string -> int)
    ensures multiset(Insert(x, xs, score)) == multiset(xs) + multiset{x}
  {
    if xs != [] && score(xs[0]) > score(x) {
      InsertPermutes(x, xs[1..], score);
      assert xs == [xs[0]] + xs[1..];
    }
  }

  /** A head that outscores an ordered tail gives an ordered sequence. */
  lemma SortedCons(h: string, t: seq<string>, score: string -> int)
    requires SortedDesc(t, score)
    requires forall k :: 0 <= k < |t| ==> score(t[k]) <= score(h)
    ensures SortedDesc([h] + t, score)
  {
    forall i, j | 0 <= i < j < |[h] + t| ensures score(([h] + t)[i]) >= score(([h] + t)[j]) {
      assert ([h] + t)[j] == t[j - 1];
      if i > 0 {
        assert ([h] + t)[i] == t[i - 1];
      }
    }
  }

  /** Inserting an element no higher than a bound into elements no higher than it stays under the bound. */
  lemma {:induction false} InsertBelow(b: int, x: string, t: seq<string>, score: string -> int)
    requires score(x) <= b
    requires forall k :: 0 <= k < |t| ==> score(t[k]) <= b
    ensures forall k :: 0 <= k < |Insert(x, t, score)| ==> score(Insert(x, t, score)[k]) <= b
  {
    var r := Insert(x, t, score);
    if t == [] || score(t[0]) <= score(x) {
      assert r == [x] + t;
      forall k | 0 < k < |r| ensures score(r[k]) <= b {
        assert r[k] == t[k - 1];
      }
    } else {
      var rest := Insert(x, t[1..], score);
      InsertBelow(b, x, t[1..], score);
      assert r == [t[0]] + rest;
      forall k | 0 < k < |r| ensures score(r[k]) <= b {
        assert r[k] == rest[k - 1];
      }
    }
  }

  /** Inserting into an ordered sequence keeps it ordered. */
  lemma {:induction false} InsertSorted(x: string, xs: seq<string>, score: string -> int)
    requires SortedDesc(xs, score)
    ensures SortedDesc(Insert(x, xs, score), score)
  {
    if xs == [] || score(xs[0]) <= score(x) {
      SortedCons(x, xs, score);
    } else {
      var h, t := xs[0], xs[1..];
      assert SortedDesc(t, score) by {
        forall i, j | 0 <= i < j < |t| ensures score(t[i]) >= score(t[j]) {
          assert t[i] == xs[i + 1] && t[j] == xs[j + 1];
        }
      }
      assert forall k :: 0 <= k < |t| ==> score(t[k]) <= score(h) by {
        forall k | 0 <= k < |t| ensures score(t[k]) <= score(h) {
          assert t[k] == xs[k + 1];
        }
      }
      InsertSorted(x, t, score);
      InsertBelow(score(h), x, t, score);
      SortedCons(h, Insert(x, t, score), score);
      assert Insert(x, xs, score) == [h] + Insert(x, t, score);
    }
  }

  /** Python's `sorted(xs, key=score, reverse=True)`: stable, highest score first. */
  function SortDesc(xs: seq<string>, score: string -> int): (r: seq<string>)
    ensures multiset(r) == multiset(xs)
    ensures SortedDesc(r, score)
  {
    if xs == [] then []
    else
      assert xs == [xs[0]] + xs[1..];
      InsertSorted(xs[0], SortDesc(xs[1..], score), score);
      InsertPermutes(xs[0], SortDesc(xs[1..], score), score);
      Insert(xs[0], SortDesc(xs[1..], score), score)
  }

  /** The score filter of a sequence with a known head. */
  lemma WithScoreCons(h: string, t: seq<string>, score: string -> int, v: int)
    ensures WithScore([h] + t, score, v) == (if score(h) == v then [h] else []) + WithScore(t, score, v)
  {
    assert ([h] + t)[1..] == t;
  }

  /** Inserting `x` adds it in front of the other elements of its score. */
  lemma {:induction false} InsertWithScore(x: string, xs: seq<string>, score: string -> int, v: int)
    ensures WithScore(Insert(x, xs, score), score, v) ==
      (if score(x) == v then [x] else []) + WithScore(xs, score, v)
  {
    if xs == [] || score(xs[0]) <= score(x) {
      WithScoreCons(x, xs, score, v);
    } else {
      var h, t := xs[0], xs[1..];
      var rest := Insert(x, t, score);
      var mine: seq<string> := if score(x) == v then [x] else [];
      var hers: seq<string> := if score(h) == v then [h] else [];
      InsertWithScore(x, t, score, v);
      assert Insert(x, xs, score) == [h] + rest;
      WithScoreCons(h, rest, score, v);
      assert xs == [h] + t;
      WithScoreCons(h, t, score, v);
      // h outscores x, so at most one of them has score v
      assert mine == [] || hers == [];
      assert hers + (mine + WithScore(t, score, v)) == mine + (hers + WithScore(t, score, v));
    }
  }

  /** Stability: the elements of any one score keep their input order. */
  lemma {:induction false} SortDescStable(xs: seq<string>, score: string -> int, v: int)
    ensures WithScore(SortDesc(xs, score), score, v) == WithScore(xs, score, v)
  {
    if xs != [] {
      SortDescStable(xs[1..], score, v);
      InsertWithScore(xs[0], SortDesc(xs[1..], score), score, v);
    }
  }

  /** Python's `xs[:k]`: a negative `k` counts back from the end. */
  function Take(xs: seq<string>, k: int): (r: seq<string>)
    ensures |r| <= |xs| && r == xs[..|r|]
    ensures k >= 0 ==> |r| == if k < |xs| then k else |xs|
    ensures k < 0 ==> |r| == if |xs| + k > 0 then |xs| + k else 0
  {
    var n := if k >= 0 then (if k < |xs| then k else |xs|) else (if |xs| + k > 0 then |xs| + k else 0);
    xs[..n]
  }

  /** The best-scoring `k` documents: sorted by score, cut to `xs[:k]`. */
  function TopK(xs: seq<string>, score: string -> int, k: int): (r: seq<string>)
    ensures forall t :: t in r ==> t in xs
  {
    var s := SortDesc(xs, score);
    var r := Take(s, k);
    assert forall t :: t in r ==> t in multiset(s);
    r
  }

  /** In an ordered sequence, what follows a prefix scores no higher than what is in it. */
  lemma TailBelowHead(s: seq<string>, score: string -> int, n: nat, x: string, y: string)
    requires SortedDesc(s, score) && n <= |s|
    requires x in s[..n] && y in s[n..]
    ensures score(y) <= score(x)
  {
    var i :| 0 <= i < n && s[..n][i] == x;
    var j :| 0 <= j < |s| - n && s[n..][j] == y;
    assert s[i] == x && s[n + j] == y;
  }

  /** In an ordered sequence, nothing after a prefix outscores anything in it. */
  lemma SortedPrefixBest(s: seq<string>, score: string -> int, n: nat)
    requires SortedDesc(s, score) && n <= |s|
    ensures multiset(s[..n]) <= multiset(s)
    ensures forall x, y :: x in s[..n] && y in multiset(s) - multiset(s[..n]) ==> score(y) <= score(x)
  {
    var head, tail := s[..n], s[n..];
    assert s == head + tail;
    assert multiset(s) == multiset(head) + multiset(tail);
    forall x, y | x in head && y in multiset(s) - multiset(head) ensures score(y) <= score(x) {
      assert y in multiset(tail);
      TailBelowHead(s, score, n, x, y);
    }
  }

  /**
   * The cut keeps the best: the result is ordered, comes from `xs`, and
   * nothing left out scores higher than anything kept.
   */
  lemma TopKBest(xs: seq<string>, score: string -> int, k: int)
    ensures SortedDesc(TopK(xs, score, k), score)
    ensures multiset(TopK(xs, score, k)) <= multiset(xs)
    ensures forall x, y :: x in TopK(xs, score, k) && y in multiset(xs) - multiset(TopK(xs, score, k)) ==> score(y) <= score(x)
  {
    var s := SortDesc(xs, score);
    var r := Take(s, k);
    assert r == s[..|r|];
    SortedPrefixBest(s, score, |r|);
    assert SortedDesc(r, score) by {
      forall i, j | 0 <= i < j < |r| ensures score(r[i]) >= score(r[j]) {
        assert r[i] == s[i] && r[j] == s[j];
      }
    }
  }

  /** No element occurs twice. */
  predicate Distinct(xs: seq<string>) {
    forall i, j :: 0 <= i < j < |xs| ==> xs[i] != xs[j]
  }

  /**
   * The loop over `xs` with a `seen` set: an element is kept the first time
   * it appears and is not already in `seen`.
   */
  function DedupFrom(xs: seq<string>, seen: set<string>): (r: seq<string>)
    ensures Distinct(r)
    ensures forall x :: x in r <==> x in xs && x !in seen
  {
    if xs == [] then []
    else if xs[0] in seen then DedupFrom(xs[1..], seen)
    else
      var rest := DedupFrom(xs[1..], seen + {xs[0]});
      assert forall x :: x in xs <==> x == xs[0] || x in xs[1..];
      [xs[0]] + rest
  }

  /** Order-preserving de-duplication, starting from an empty `seen`. */
  function Dedup(xs: seq<string>): (r: seq<string>)
    ensures Distinct(r)
    ensures forall x :: x in r <==> x in xs
  {
    DedupFrom(xs, {})
  }

  /** Index of the first occurrence of `x` in `xs`. */
  function FirstIndex(xs: seq<string>, x: string): (i: nat)
    requires x in xs
    ensures i < |xs| && xs[i] == x
    ensures forall k :: 0 <= k < i ==> xs[k] != x
  {
    if xs[0] == x then 0 else 1 + FirstIndex(xs[1..], x)
  }

  /** Past a different head, the first occurrence is one further on than in the tail. */
  lemma FirstIndexTail(xs: seq<string>, y: string)
    requires xs != [] && y in xs[1..] && y != xs[0]
    ensures FirstIndex(xs, y) == 1 + FirstIndex(xs[1..], y)
  {
  }

  /** The kept elements appear in the order of their first occurrences in the input. */
  lemma {:induction false} DedupFromOrder(xs: seq<string>, seen: set<string>)
    ensures forall i, j :: 0 <= i < j < |DedupFrom(xs, seen)| ==>
      FirstIndex(xs, DedupFrom(xs, seen)[i]) < FirstIndex(xs, DedupFrom(xs, seen)[j])
  {
    if xs != [] {
      var r := DedupFrom(xs, seen);
      if xs[0] in seen {
        DedupFromOrder(xs[1..], seen);
        forall i | 0 <= i < |r| ensures FirstIndex(xs, r[i]) == 1 + FirstIndex(xs[1..], r[i]) {
          assert r[i] in r;
          FirstIndexTail(xs, r[i]);
        }
      } else {
        var rest := DedupFrom(xs[1..], seen + {xs[0]});
        assert r == [xs[0]] + rest;
        DedupFromOrder(xs[1..], seen + {xs[0]});
        forall i | 0 <= i < |rest| ensures FirstIndex(xs, rest[i]) == 1 + FirstIndex(xs[1..], rest[i]) {
          assert rest[i] in rest;
          FirstIndexTail(xs, rest[i]);
        }
        forall i, j | 0 <= i < j < |r| ensures FirstIndex(xs, r[i]) < FirstIndex(xs, r[j]) {
          assert r[j] == rest[j - 1];
          if i > 0 {
            assert r[i] == rest[i - 1];
          }
        }
      }
    }
  }

  /** Dedup keeps the first-occurrence order of its input. */
  lemma DedupOrder(xs: seq<string>)
    ensures forall i, j :: 0 <= i < j < |Dedup(xs)| ==> FirstIndex(xs, Dedup(xs)[i]) < FirstIndex(xs, Dedup(xs)[j])
  {
    DedupFromOrder(xs, {});
  }

  /** A sequence is free of repeats exactly when no element is counted twice. */
  lemma {:induction false} DistinctCounts(xs: seq<string>)
    ensures Distinct(xs) <==> forall x :: multiset(xs)[x] <= 1
  {
    if xs != [] {
      var h, t := xs[0], xs[1..];
      DistinctCounts(t);
      assert xs == [h] + t;
      assert forall x :: multiset(xs)[x] == (if x == h then 1 else 0) + multiset(t)[x];
      if Distinct(xs) {
        forall k | 0 <= k < |t| ensures t[k] != h {
          assert t[k] == xs[k + 1];
        }
        assert Distinct(t) by {
          forall i, j | 0 <= i < j < |t| ensures t[i] != t[j] {
            assert t[i] == xs[i + 1] && t[j] == xs[j + 1];
          }
        }
      } else {
        var i, j :| 0 <= i < j < |xs| && xs[i] == xs[j];
        if i == 0 {
          assert xs[j] == t[j - 1];
          assert multiset(t)[h] >= 1;
        } else {
          assert t[i - 1] == t[j - 1];
          assert !Distinct(t);
        }
      }
    }
  }

  /** Cutting the ranking of repeat-free candidates leaves no repeats. */
  lemma TopKDistinct(xs: seq<string>, score: string -> int, k: int)
    requires Distinct(xs)
    ensures Distinct(TopK(xs, score, k))
  {
    var r := TopK(xs, score, k);
    TopKBest(xs, score, k);
    DistinctCounts(xs);
    DistinctCounts(r);
    assert forall x :: multiset(r)[x] <= multiset(xs)[x];
  }
}
