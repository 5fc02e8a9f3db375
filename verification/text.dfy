/**
 * Character classes and string helpers with the meaning Python gives them:
 * `str.isspace`, `str.lower`/`str.upper` (on ASCII letters), the `in`
 * substring test, `startswith`, `strip`, `split(sep, 1)` and `"\n".join`.
 */
module Text {

  /** `\d` restricted to the ASCII digits. */
  predicate IsDigit(c: char) {
    '0' <= c <= '9'
  }

  /** `[A-Z]` under IGNORECASE: the ASCII letters of either case. */
  predicate IsLetter(c: char) {
    'a' <= c <= 'z' || 'A' <= c <= 'Z'
  }

  /** Python's whitespace (`\s` and `str.strip`): every character `str.isspace` accepts. */
  predicate IsSpace(c: char) {
    || '\t' <= c <= '\r'
    || '\U{1C}' <= c <= '\U{1F}'
    || c == ' '
    || c == '\U{85}'
    || c == '\U{A0}'
    || c == '\U{1680}'
    || '\U{2000}' <= c <= '\U{200A}'
    || c == '\U{2028}'
    || c == '\U{2029}'
    || c == '\U{202F}'
    || c == '\U{205F}'
    || c == '\U{3000}'
  }

  /** What the regex `.` accepts: anything but a line feed. */
  predicate IsNotNewline(c: char) {
    c != '\n'
  }

  function LowerChar(c: char): char {
    if 'A' <= c <= 'Z' then (c as int + 32) as char else c
  }

  function UpperChar(c: char): char {
    if 'a' <= c <= 'z' then (c as int - 32) as char else c
  }

  /** `s.lower()` */
  function Lower(s: string): (r: string)
    ensures |r| == |s|
    ensures forall i {:trigger r[i]} :: 0 <= i < |s| ==> r[i] == LowerChar(s[i])
  {
    seq(|s|, i requires 0 <= i < |s| => LowerChar(s[i]))
  }

  /** `s.upper()` */
  function Upper(s: string): (r: string)
    ensures |r| == |s|
    ensures forall i {:trigger r[i]} :: 0 <= i < |s| ==> r[i] == UpperChar(s[i])
  {
    seq(|s|, i requires 0 <= i < |s| => UpperChar(s[i]))
  }

  /** `w` occurs in `s` starting at index `i`. */
  predicate OccursAt(s: string, w: string, i: int) {
    0 <= i && i + |w| <= |s| && forall k :: 0 <= k < |w| ==> s[i + k] == w[k]
  }

  /** Python's `w in s`. */
  predicate Contains(s: string, w: string) {
    exists i | 0 <= i <= |s| - |w| :: OccursAt(s, w, i)
  }

  /** `s.startswith(w)` */
  predicate StartsWith(s: string, w: string) {
    OccursAt(s, w, 0)
  }

  /** The literal `w` matches at `p` when letters are compared case-insensitively (regex IGNORECASE). */
  predicate MatchesCi(s: string, p: nat, w: string) {
    p + |w| <= |s| && forall k {:trigger w[k]} :: 0 <= k < |w| ==> LowerChar(s[p + k]) == LowerChar(w[k])
  }

  /** For a lower-case word, finding it in the lower-cased text is matching it case-insensitively. */
  lemma LowerOccursCi(s: string, w: string, p: nat)
    requires forall k :: 0 <= k < |w| ==> LowerChar(w[k]) == w[k]
    ensures OccursAt(Lower(s), w, p) <==> MatchesCi(s, p, w)
  {
    if MatchesCi(s, p, w) {
      forall k | 0 <= k < |w| ensures Lower(s)[p + k] == w[k] {
        assert LowerChar(s[p + k]) == LowerChar(w[k]);
      }
    }
  }

  /** Length of the longest run of characters satisfying IsDigit from `p`: how far `\d+`, or `\d*` reaches. */
  function DigitRun(s: string, p: nat): (n: nat)
    requires p <= |s|
    ensures p + n <= |s|
    ensures p + n == |s| || !IsDigit(s[p + n])
    decreases |s| - p
  {
    if p < |s| && IsDigit(s[p]) then 1 + DigitRun(s, p + 1) else 0
  }

  lemma {:induction false} InDigitRun(s: string, p: nat, k: nat)
    requires p <= |s| && p <= k < p + DigitRun(s, p)
    ensures IsDigit(s[k])
    decreases k - p
  {
    if k > p {
      InDigitRun(s, p + 1, k);
    }
  }

  /** Length of the longest run of characters satisfying IsSpace from `p`: how far `\s*` reaches. */
  function SpaceRun(s: string, p: nat): (n: nat)
    requires p <= |s|
    ensures p + n <= |s|
    ensures p + n == |s| || !IsSpace(s[p + n])
    decreases |s| - p
  {
    if p < |s| && IsSpace(s[p]) then 1 + SpaceRun(s, p + 1) else 0
  }

  lemma {:induction false} InSpaceRun(s: string, p: nat, k: nat)
    requires p <= |s| && p <= k < p + SpaceRun(s, p)
    ensures IsSpace(s[k])
    decreases k - p
  {
    if k > p {
      InSpaceRun(s, p + 1, k);
    }
  }

  /** Length of the longest run of characters satisfying IsLetter from `p`: how far `[A-Z]*` under IGNORECASE reaches. */
  function LetterRun(s: string, p: nat): (n: nat)
    requires p <= |s|
    ensures p + n <= |s|
    ensures p + n == |s| || !IsLetter(s[p + n])
    decreases |s| - p
  {
    if p < |s| && IsLetter(s[p]) then 1 + LetterRun(s, p + 1) else 0
  }

  lemma {:induction false} InLetterRun(s: string, p: nat, k: nat)
    requires p <= |s| && p <= k < p + LetterRun(s, p)
    ensures IsLetter(s[k])
    decreases k - p
  {
    if k > p {
      InLetterRun(s, p + 1, k);
    }
  }

  /** Length of the longest run of characters satisfying IsNotNewline from `p`: how far `.*` reaches. */
  function LineRun(s: string, p: nat): (n: nat)
    requires p <= |s|
    ensures p + n <= |s|
    ensures p + n == |s| || !IsNotNewline(s[p + n])
    decreases |s| - p
  {
    if p < |s| && IsNotNewline(s[p]) then 1 + LineRun(s, p + 1) else 0
  }

  lemma {:induction false} InLineRun(s: string, p: nat, k: nat)
    requires p <= |s| && p <= k < p + LineRun(s, p)
    ensures IsNotNewline(s[k])
    decreases k - p
  {
    if k > p {
      InLineRun(s, p + 1, k);
    }
  }

  /** Every position inside a maximal run of digits ends that run at the same place. */
  lemma {:induction false} DigitRunSharesEnd(s: string, p: nat, q: nat)
    requires p <= |s| && p <= q <= p + DigitRun(s, p)
    ensures q + DigitRun(s, q) == p + DigitRun(s, p)
    decreases q - p
  {
    if q > p {
      DigitRunSharesEnd(s, p + 1, q);
    }
  }

  /** The value of a digit character; other characters count as zero and do not occur where it is used. */
  function DigitValue(c: char): (v: nat)
    ensures v <= 9
    ensures IsDigit(c) ==> v == c as int - '0' as int
  {
    if IsDigit(c) then c as int - '0' as int else 0
  }

  /** Python's `int(s[p..p + n])` for a run of ASCII digits (leading zeros allowed). */
  function Decimal(s: string, p: nat, n: nat): nat
    requires p + n <= |s|
  {
    if n == 0 then 0 else 10 * Decimal(s, p, n - 1) + DigitValue(s[p + n - 1])
  }

  /** Dropping leading digits never makes a number larger. */
  lemma {:induction false} DecimalSuffix(s: string, p: nat, n: nat, q: nat, m: nat)
    requires p + n <= |s|
    requires p <= q && q + m == p + n
    ensures Decimal(s, q, m) <= Decimal(s, p, n)
  {
    if m > 0 {
      DecimalSuffix(s, p, n - 1, q, m - 1);
    }
  }

  /** Length of the run of whitespace that ends just before `j` and starts no earlier than `lo`. */
  function SpaceRunBack(s: string, lo: nat, j: nat): (n: nat)
    requires lo <= j <= |s|
    ensures n <= j - lo
    ensures j - n == lo || !IsSpace(s[j - n - 1])
    decreases j
  {
    if j > lo && IsSpace(s[j - 1]) then 1 + SpaceRunBack(s, lo, j - 1) else 0
  }

  lemma {:induction false} InSpaceRunBack(s: string, lo: nat, j: nat, k: nat)
    requires lo <= j <= |s| && j - SpaceRunBack(s, lo, j) <= k < j
    ensures IsSpace(s[k])
    decreases j
  {
    if k < j - 1 {
      InSpaceRunBack(s, lo, j - 1, k);
    }
  }

  /** A whitespace run from `p` that stops at `q` is the one SpaceRun measures. */
  lemma {:induction false} SpaceRunTo(s: string, p: nat, q: nat)
    requires p <= q <= |s|
    requires forall k :: p <= k < q ==> IsSpace(s[k])
    requires q == |s| || !IsSpace(s[q])
    ensures SpaceRun(s, p) == q - p
    decreases q - p
  {
    if p < q {
      SpaceRunTo(s, p + 1, q);
    }
  }

  /** A whitespace run ending at `j` that starts at `q`, just after a non-space or at `lo`, is the one SpaceRunBack measures. */
  lemma {:induction false} SpaceRunBackFrom(s: string, lo: nat, j: nat, q: nat)
    requires lo <= q <= j <= |s|
    requires forall k :: q <= k < j ==> IsSpace(s[k])
    requires q == lo || !IsSpace(s[q - 1])
    ensures SpaceRunBack(s, lo, j) == j - q
    decreases j - q
  {
    if q < j {
      SpaceRunBackFrom(s, lo, j - 1, q);
    }
  }

  /** `s.strip()`: `s` without its leading and trailing whitespace. */
  function Strip(s: string): (r: string)
    ensures Contains(s, r)
    ensures r != [] ==> !IsSpace(r[0]) && !IsSpace(r[|r| - 1])
  {
    var a := SpaceRun(s, 0);
    var b := |s| - SpaceRunBack(s, a, |s|);
    assert OccursAt(s, s[a..b], a);
    s[a..b]
  }

  /** `strip` drops whitespace only: the result is `s[a..b]`, with nothing but whitespace before `a` and from `b` on. */
  lemma StripDropsSpace(s: string) returns (a: nat, b: nat)
    ensures a <= b <= |s| && Strip(s) == s[a..b]
    ensures forall k :: 0 <= k < a ==> IsSpace(s[k])
    ensures forall k :: b <= k < |s| ==> IsSpace(s[k])
  {
    a := SpaceRun(s, 0);
    b := |s| - SpaceRunBack(s, a, |s|);
    forall k | 0 <= k < a ensures IsSpace(s[k]) {
      InSpaceRun(s, 0, k);
    }
    forall k | b <= k < |s| ensures IsSpace(s[k]) {
      InSpaceRunBack(s, a, |s|, k);
    }
  }

  /**
   * Any cut of `s` that leaves only whitespace outside and starts and ends
   * with a non-space is the stripped text: `strip` is determined by that.
   */
  lemma StripUnique(s: string, a: nat, b: nat)
    requires a <= b <= |s|
    requires forall k :: 0 <= k < a ==> IsSpace(s[k])
    requires forall k :: b <= k < |s| ==> IsSpace(s[k])
    requires a < b ==> !IsSpace(s[a]) && !IsSpace(s[b - 1])
    ensures Strip(s) == s[a..b]
  {
    if a < b {
      SpaceRunTo(s, 0, a);
      SpaceRunBackFrom(s, a, |s|, b);
    } else {
      SpaceRunTo(s, 0, |s|);
    }
  }

  /**
   * Stripping a piece `g` that sits in `s` at `lo` keeps `s[a..b]`: only
   * whitespace lies between `lo` and `a` and between `b` and the end of the
   * piece, and nothing is cut at the front when the piece starts with a
   * non-space.
   */
  lemma StripSpan(s: string, g: string, lo: nat) returns (a: nat, b: nat)
    requires OccursAt(s, g, lo)
    ensures lo <= a <= b <= lo + |g|
    ensures Strip(g) == s[a..b]
    ensures forall k :: lo <= k < a ==> IsSpace(s[k])
    ensures forall k :: b <= k < lo + |g| ==> IsSpace(s[k])
    ensures (g == [] || !IsSpace(g[0])) ==> a == lo
  {
    var a0, b0 := StripDropsSpace(g);
    a := lo + a0;
    b := lo + b0;
    assert OccursAt(g, g[a0..b0], a0);
    PieceSlice(s, g, g[a0..b0], lo, a0, a, b);
    SpaceInPiece(s, g, lo, 0, a0, lo, a);
    SpaceInPiece(s, g, lo, b0, |g|, b, lo + |g|);
  }

  /** Whitespace at positions `from..to` of a piece `g` at `lo` is whitespace at `x..y` of `s`. */
  lemma SpaceInPiece(s: string, g: string, lo: nat, from: nat, to: nat, x: nat, y: nat)
    requires OccursAt(s, g, lo) && to <= |g| && x == lo + from && y == lo + to
    requires forall k :: from <= k < to ==> IsSpace(g[k])
    ensures forall k :: x <= k < y ==> IsSpace(s[k])
  {
    forall k | x <= k < y ensures IsSpace(s[k]) {
      OccursIndex(s, g, lo, k);
    }
  }

  /** Index of the first occurrence of `w` in `s`, as `s.find(w)` when it is not -1. */
  function Find(s: string, w: string, from: nat := 0): (r: int)
    requires from <= |s|
    ensures r == -1 || (from <= r && OccursAt(s, w, r))
    ensures forall i :: from <= i && (r == -1 || i < r) ==> !OccursAt(s, w, i)
    decreases |s| - from
  {
    if OccursAt(s, w, from) then from
    else if from + |w| >= |s| then -1
    else Find(s, w, from + 1)
  }

  /** An occurrence in a suffix of `s` is an occurrence in `s`, shifted by where the suffix starts. */
  lemma OccursInSuffix(s: string, off: nat, w: string, p: nat, at: nat)
    requires off <= |s| && at == off + p
    ensures OccursAt(s[off..], w, p) <==> OccursAt(s, w, at)
  {
    if OccursAt(s, w, at) {
      forall k | 0 <= k < |w| ensures s[off..][p + k] == w[k] {
        assert s[at + k] == w[k];
      }
    }
  }

  /** An occurrence inside an occurrence is an occurrence, at the summed offset. */
  lemma OccursCompose(s: string, m: string, r: string, i: nat, off: nat)
    requires OccursAt(s, m, i) && OccursAt(m, r, off)
    ensures OccursAt(s, r, i + off)
  {
    forall k | 0 <= k < |r| ensures s[i + off + k] == r[k] {
      assert m[off + k] == r[k];
    }
  }

  /** A piece `r` of a piece `g` of `s` is the slice of `s` at the summed offset. */
  lemma PieceSlice(s: string, g: string, r: string, lo: nat, off: nat, at: nat, to: nat)
    requires OccursAt(s, g, lo) && OccursAt(g, r, off) && at == lo + off && to == at + |r|
    ensures to <= |s| && r == s[at..to]
  {
    OccursCompose(s, g, r, lo, off);
  }

  /** Inside an occurrence of `g` at `lo`, position `k` of `s` holds character `k - lo` of `g`. */
  lemma OccursIndex(s: string, g: string, lo: nat, k: nat)
    requires OccursAt(s, g, lo) && lo <= k < lo + |g|
    ensures s[k] == g[k - lo]
  {
    assert s[lo + (k - lo)] == g[k - lo];
  }

  /** A word missing from a text is missing from every piece of it. */
  lemma {:induction false} AbsentInPiece(s: string, r: string, w: string)
    requires Contains(s, r) && !Contains(s, w)
    ensures !Contains(r, w)
  {
    var i :| 0 <= i <= |s| - |r| && OccursAt(s, r, i);
    forall j | 0 <= j <= |r| - |w| ensures !OccursAt(r, w, j) {
      assert !OccursAt(s, w, i + j);
    }
  }

  /** A character missing from a text is missing from every piece of it. */
  lemma {:induction false} CharAbsentInPiece(s: string, r: string, c: char)
    requires Contains(s, r) && c !in s
    ensures c !in r
  {
    var i :| 0 <= i <= |s| - |r| && OccursAt(s, r, i);
    forall k | 0 <= k < |r| ensures r[k] != c {
      assert s[i + k] == r[k];
    }
  }

  /** A piece of a piece of `s` is a piece of `s`. */
  lemma {:induction false} PieceOfPiece(s: string, m: string, r: string)
    requires Contains(s, m) && Contains(m, r)
    ensures Contains(s, r)
  {
    var i :| 0 <= i <= |s| - |m| && OccursAt(s, m, i);
    var j :| 0 <= j <= |m| - |r| && OccursAt(m, r, j);
    assert OccursAt(s, r, i + j);
  }

  /** `s.split(w, 1)[0]`: the text before the first occurrence of `w`, or all of `s`. */
  function Before(s: string, w: string): (r: string)
    requires w != []
    ensures |r| <= |s| && r == s[..|r|]
    ensures !Contains(r, w)
    ensures forall i :: 0 <= i < |r| ==> !OccursAt(s, w, i)
    ensures |r| < |s| ==> OccursAt(s, w, |r|)
  {
    var j := Find(s, w);
    var r := if j < 0 then s else s[..j];
    assert !Contains(r, w) by {
      forall i | 0 <= i <= |r| - |w| ensures !OccursAt(r, w, i) {
        assert !OccursAt(s, w, i);
      }
    }
    r
  }

  /**
   * `s[off..].split(w, 1)[0]` read in `s` itself: it sits at `off` and runs
   * to the first occurrence of `w` starting at or after `off`, or to the end.
   */
  lemma BeforeInSuffix(s: string, off: nat, w: string, j: nat)
    requires off <= |s| && w != [] && j == off + |Before(s[off..], w)|
    ensures OccursAt(s, Before(s[off..], w), off)
    ensures j == |s| || OccursAt(s, w, j)
    ensures forall q :: off <= q < j ==> !OccursAt(s, w, q)
  {
    var rest := s[off..];
    var head := Before(rest, w);
    assert OccursAt(rest, head, 0);
    assert OccursAt(s, rest, off);
    OccursCompose(s, rest, head, off, 0);
    if j < |s| {
      OccursInSuffix(s, off, w, |head|, j);
    }
    forall q | off <= q < j ensures !OccursAt(s, w, q) {
      OccursInSuffix(s, off, w, q - off, q);
    }
  }

  /** The stripped text before the first `w` at or after `off`, located in `s`. */
  lemma HeadSpan(s: string, off: nat, w: string) returns (j: nat, a: nat, b: nat)
    requires off <= |s| && w != []
    ensures off <= a <= b <= j <= |s|
    ensures j == |s| || OccursAt(s, w, j)
    ensures forall q :: off <= q < j ==> !OccursAt(s, w, q)
    ensures Strip(Before(s[off..], w)) == s[a..b]
    ensures forall k :: off <= k < a ==> IsSpace(s[k])
    ensures forall k :: b <= k < j ==> IsSpace(s[k])
  {
    var head := Before(s[off..], w);
    j := off + |head|;
    BeforeInSuffix(s, off, w, j);
    a, b := StripSpan(s, head, off);
  }

  /** Index of the first `c` in `s`, or -1 when there is none (`s.find(c)`). */
  function IndexOf(s: string, c: char): (i: int)
    ensures i == -1 <==> c !in s
    ensures i >= 0 ==> i < |s| && s[i] == c
    ensures forall k :: 0 <= k < |s| && (i == -1 || k < i) ==> s[k] != c
  {
    if s == [] then -1
    else if s[0] == c then 0
    else
      var j := IndexOf(s[1..], c);
      assert forall k :: 1 <= k < |s| ==> s[k] == s[1..][k - 1];
      if j < 0 then -1 else j + 1
  }

  /** `s.split(c, 1)[1]`: the text after the first `c`, which must occur. */
  function After(s: string, c: char): (r: string)
    requires c in s
    ensures |r| < |s| && r == s[|s| - |r|..]
    ensures s[|s| - |r| - 1] == c
    ensures forall k :: 0 <= k < |s| - |r| - 1 ==> s[k] != c
  {
    s[IndexOf(s, c) + 1..]
  }

  /** `"\n".join(xs)` and in general `sep.join(xs)` for a one-character separator. */
  function Join(xs: seq<string>, sep: char): string {
    if |xs| == 0 then ""
    else if |xs| == 1 then xs[0]
    else xs[0] + [sep] + Join(xs[1..], sep)
  }

  /** `s.split(sep)` for a one-character separator: the pieces between separators, always at least one. */
  function Split(s: string, sep: char): (r: seq<string>)
    ensures |r| >= 1
    ensures forall k :: 0 <= k < |r| ==> sep !in r[k]
    decreases |s|
  {
    var i := IndexOf(s, sep);
    if i < 0 then [s]
    else
      assert sep !in s[..i];
      [s[..i]] + Split(s[i + 1..], sep)
  }

  /** Joining a head onto at least one more piece puts a separator between them. */
  lemma JoinCons(h: string, rest: seq<string>, sep: char)
    requires rest != []
    ensures Join([h] + rest, sep) == h + [sep] + Join(rest, sep)
  {
    assert ([h] + rest)[1..] == rest;
  }

  /** Splitting at the first separator: the piece before it, then the split of the rest. */
  lemma SplitAtFirst(s: string, sep: char)
    requires IndexOf(s, sep) >= 0
    ensures Split(s, sep) == [s[..IndexOf(s, sep)]] + Split(s[IndexOf(s, sep) + 1..], sep)
  {
  }

  /** A text is the part before position `i`, the character there, and the part after. */
  lemma CutAt(s: string, i: nat)
    requires i < |s|
    ensures s == s[..i] + [s[i]] + s[i + 1..]
  {
  }

  /** Joining the pieces of a split gives back the text. */
  lemma {:induction false} JoinSplit(s: string, sep: char)
    ensures Join(Split(s, sep), sep) == s
    decreases |s|
  {
    var i := IndexOf(s, sep);
    if i >= 0 {
      var head, tail := s[..i], s[i + 1..];
      var rest := Split(tail, sep);
      JoinSplit(tail, sep);
      SplitAtFirst(s, sep);
      JoinCons(head, rest, sep);
      CutAt(s, i);
    }
  }

  /** Pieces free of the separator are recovered by splitting their join. */
  lemma {:induction false} SplitJoin(xs: seq<string>, sep: char)
    requires |xs| >= 1 && forall k :: 0 <= k < |xs| ==> sep !in xs[k]
    ensures Split(Join(xs, sep), sep) == xs
  {
    if |xs| > 1 {
      var j := Join(xs[1..], sep);
      var s := xs[0] + [sep] + j;
      SplitJoin(xs[1..], sep);
      assert s[|xs[0]|] == sep;
      assert IndexOf(s, sep) == |xs[0]| by {
        forall k | 0 <= k < |xs[0]| ensures s[k] != sep {
          assert s[k] == xs[0][k];
        }
      }
      assert s[..|xs[0]|] == xs[0];
      assert s[|xs[0]| + 1..] == j;
      assert xs == [xs[0]] + xs[1..];
    }
  }
}
