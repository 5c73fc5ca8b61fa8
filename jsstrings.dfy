/**
 * The JavaScript string primitives that the path and template helpers of index.js are built
 * from: indexOf, lastIndexOf, slice, substr, split, join and the `slash` package.
 * Strings are sequences of characters.
 */
module JsStrings {
  import opened Options

  /** `pat` occurs in `s` starting at index `i`. */
  predicate OccursAt(s: string, pat: string, i: int)
  {
    0 <= i && i + |pat| <= |s| && s[i..i + |pat|] == pat
  }

  /** `pat` occurs somewhere in `s` (equivalently: `pat` is a substring of `s`). */
  ghost predicate Contains(s: string, pat: string)
  {
    exists i :: OccursAt(s, pat, i)
  }

  /**
   * `s.indexOf(pat, from)`, for a non-empty `pat` or `from <= |s|`: the first occurrence at or
   * after `from`; None stands for -1.
   */
  function IndexOfFrom(s: string, pat: string, from: nat): (r: Option<nat>)
    ensures r.Some? ==> from <= r.value && OccursAt(s, pat, r.value)
    ensures r.Some? ==> forall j :: from <= j < r.value ==> !OccursAt(s, pat, j)
    ensures r.None? ==> forall j :: from <= j ==> !OccursAt(s, pat, j)
    decreases |s| - from
  {
    if from + |pat| > |s| then None
    else if OccursAt(s, pat, from) then Some(from)
    else IndexOfFrom(s, pat, from + 1)
  }

  /** `s.indexOf(pat)`. */
  function IndexOf(s: string, pat: string): (r: Option<nat>)
    ensures r.None? <==> !Contains(s, pat)
    ensures r.Some? ==> OccursAt(s, pat, r.value)
    ensures r.Some? ==> forall j :: 0 <= j < r.value ==> !OccursAt(s, pat, j)
  {
    IndexOfFrom(s, pat, 0)
  }

  /** `s.lastIndexOf(c)` for a one-character argument, -1 when `c` does not occur. */
  function LastIndexOf(s: string, c: char): (r: int)
    ensures -1 <= r < |s|
    ensures r >= 0 ==> s[r] == c && forall j :: r < j < |s| ==> s[j] != c
    ensures r == -1 ==> c !in s
  {
    if |s| == 0 then -1
    else if s[|s| - 1] == c then |s| - 1
    else LastIndexOf(s[..|s| - 1], c)
  }

  /** How `slice` and `substr` read an index: a negative one counts from the end; both are clamped. */
  function ClampIndex(i: int, len: nat): (k: nat)
    ensures k <= len
    ensures 0 <= i <= len ==> k == i
  {
    if i < 0 then (if len + i < 0 then 0 else len + i)
    else if i > len then len
    else i
  }

  /** `s.slice(start, end)`. */
  function Slice(s: string, start: int, end: int): (r: string)
    ensures |r| <= |s|
  {
    var a, b := ClampIndex(start, |s|), ClampIndex(end, |s|);
    if b <= a then [] else s[a..b]
  }

  /** `s.substr(start)`, with no length argument. */
  function Substr(s: string, start: int): (r: string)
  {
    Slice(s, start, |s|)
  }

  /** `parts.join(sep)`. */
  function Join(parts: seq<string>, sep: string): string
  {
    if |parts| == 0 then []
    else if |parts| == 1 then parts[0]
    else parts[0] + sep + Join(parts[1..], sep)
  }

  /** `s.split(sep)` for a non-empty separator: the pieces between non-overlapping occurrences, left to right. */
  function Split(s: string, sep: string): (parts: seq<string>)
    requires |sep| > 0
    ensures |parts| >= 1
    decreases |s|
  {
    match IndexOf(s, sep)
    case None => [s]
    case Some(i) => [s[..i]] + Split(s[i + |sep|..], sep)
  }

  /** `s.split(pat).join(rep)`: replaces every non-overlapping occurrence of `pat`, left to right. */
  function ReplaceAll(s: string, pat: string, rep: string): string
    requires |pat| > 0
  {
    Join(Split(s, pat), rep)
  }

  /** The `slash` package: every backslash becomes a forward slash. */
  function Slash(s: string): (r: string)
    ensures |r| == |s| && '\\' !in r
    ensures forall i :: 0 <= i < |s| && s[i] != '\\' ==> r[i] == s[i]
    ensures forall i :: 0 <= i < |s| && s[i] == '\\' ==> r[i] == '/'
  {
    seq(|s|, i requires 0 <= i < |s| => if s[i] == '\\' then '/' else s[i])
  }

  // ---------------------------------------------------------------------------------------
  // Facts about occurrences

  /** Where the pieces of `x + y + z + w` start and end. */
  lemma {:induction false} ConcatPieces(x: string, y: string, z: string, w: string)
    ensures x + y + z + w == x + (y + z + w)
    ensures (x + y + z + w)[..|x|] == x
    ensures (x + y + z + w)[|x| + |y| + |z|..] == w
  {
    var s := x + y + z + w;
    assert s[..|x|] == x;
    assert s[|x| + |y| + |z|..] == w;
  }

  lemma {:induction false} OccursAtShift(s: string, pat: string, d: nat, j: int)
    requires d <= |s|
    ensures OccursAt(s[d..], pat, j) <==> (j >= 0 && OccursAt(s, pat, j + d))
  {
    if j >= 0 && j + |pat| <= |s| - d {
      assert s[d..][j..j + |pat|] == s[j + d..j + d + |pat|];
    }
  }

  lemma {:induction false} OccursAtPrefix(s: string, pat: string, n: nat, j: int)
    requires n <= |s|
    ensures OccursAt(s[..n], pat, j) <==> (OccursAt(s, pat, j) && j + |pat| <= n)
  {
    if 0 <= j && j + |pat| <= n {
      assert s[..n][j..j + |pat|] == s[j..j + |pat|];
    }
  }

  /** A one-character pattern occurs exactly where that character stands. */
  lemma {:induction false} OccursAtChar(s: string, c: char, j: int)
    ensures OccursAt(s, [c], j) <==> (0 <= j < |s| && s[j] == c)
  {
    if 0 <= j < |s| {
      assert s[j..j + 1] == [s[j]];
    }
  }

  /** An occurrence begins with the pattern's first character. */
  lemma {:induction false} OccursAtFirstChar(s: string, pat: string, j: int)
    requires |pat| > 0 && OccursAt(s, pat, j)
    ensures s[j] == pat[0]
  {
    assert s[j..j + |pat|][0] == s[j];
  }

  /** `pat` cannot occur in `s` when one of its characters does not. */
  lemma {:induction false} NotContainsByChar(s: string, pat: string, k: nat)
    requires k < |pat| && pat[k] !in s
    ensures !Contains(s, pat)
  {
    forall j ensures !OccursAt(s, pat, j) {
      if 0 <= j && j + |pat| <= |s| {
        assert s[j + k] != pat[k];
        assert s[j..j + |pat|][k] == s[j + k];
      }
    }
  }

  /** A pattern longer than the text does not occur in it. */
  lemma {:induction false} NotContainsShorter(s: string, pat: string)
    requires |s| < |pat|
    ensures !Contains(s, pat)
  {
  }

  /** Being a substring is transitive. */
  lemma {:induction false} ContainsTransitive(s: string, a: string, q: string)
    requires Contains(s, a) && Contains(a, q)
    ensures Contains(s, q)
  {
    var i :| OccursAt(s, a, i);
    var j :| OccursAt(a, q, j);
    assert a == s[i..i + |a|];
    forall t | 0 <= t < |q| ensures s[i + j + t] == q[t] {
      assert a[j..j + |q|][t] == a[j + t] == s[i..i + |a|][j + t];
    }
    assert s[i + j..i + j + |q|] == q;
    assert OccursAt(s, q, i + j);
  }

  lemma {:induction false} ContainsSlice(s: string, lo: nat, hi: nat)
    requires lo <= hi <= |s|
    ensures Contains(s, s[lo..hi])
  {
    assert OccursAt(s, s[lo..hi], lo);
  }

  /** The first occurrence at or after `from` is the one the search returns. */
  lemma {:induction false} IndexOfFromIs(s: string, pat: string, from: nat, e: nat)
    requires from <= e && OccursAt(s, pat, e)
    requires forall j :: from <= j < e ==> !OccursAt(s, pat, j)
    ensures IndexOfFrom(s, pat, from) == Some(e)
  {
  }

  /** No occurrence of `pat` starts inside `a`: it is found right after `a`. */
  lemma {:induction false} IndexOfAfter(a: string, pat: string, b: string)
    requires |pat| > 0 && !Contains(a + pat[..|pat| - 1], pat)
    ensures IndexOf(a + pat + b, pat) == Some(|a|)
  {
    IndexOfFromAfter([], a, pat, b, 0);
    assert [] + a + pat + b == a + pat + b;
  }

  /** Searching from the end of `x`, with no occurrence of `pat` starting inside `m`, it is found right after `m`. */
  lemma {:induction false} IndexOfFromAfter(x: string, m: string, pat: string, b: string, from: nat)
    requires |pat| > 0 && !Contains(m + pat[..|pat| - 1], pat) && from == |x|
    ensures IndexOfFrom(x + m + pat + b, pat, from) == Some(from + |m|)
  {
    var s := x + m + pat + b;
    var e := |x| + |m|;
    var w := m + pat[..|pat| - 1];
    assert s[e..e + |pat|] == pat;
    assert s[|x|..e + |pat| - 1] == w;
    forall j | |x| <= j < e ensures !OccursAt(s, pat, j) {
      var d := j - |x|;
      assert w[d..d + |pat|] == s[j..j + |pat|];
      assert !OccursAt(w, pat, d);
    }
    IndexOfFromIs(s, pat, |x|, e);
  }

  /** When `m` lacks the first character of `pat`, no occurrence of `pat` starts inside `m`. */
  lemma {:induction false} NoEarlyMatchByChar(m: string, pat: string)
    requires |pat| > 0 && pat[0] !in m
    ensures !Contains(m + pat[..|pat| - 1], pat)
  {
    var w := m + pat[..|pat| - 1];
    forall j | 0 <= j && j + |pat| <= |w| ensures !OccursAt(w, pat, j) {
      assert w[j..j + |pat|][0] == w[j] == m[j];
    }
  }

  /**
   * When `pat` does not occur in `x` and its first character does not come back later in it,
   * no occurrence of `pat` starts inside `x`, even one running past the end of `x`.
   */
  lemma {:induction false} NoEarlyMatchUnbordered(x: string, pat: string)
    requires |pat| > 0 && pat[0] !in pat[1..] && !Contains(x, pat)
    ensures !Contains(x + pat[..|pat| - 1], pat)
  {
    var w := x + pat[..|pat| - 1];
    forall j | 0 <= j && j + |pat| <= |w| ensures !OccursAt(w, pat, j) {
      if j + |pat| <= |x| {
        assert x[j..j + |pat|] == w[j..j + |pat|];
        assert !OccursAt(x, pat, j);
      } else {
        var d := |x| - j;
        assert w[|x|] == pat[0];
        assert w[j..j + |pat|][d] == w[|x|];
        assert pat[1..][d - 1] == pat[d];
      }
    }
  }

  // ---------------------------------------------------------------------------------------
  // Split and Join

  /** Without an occurrence of the separator there is a single piece. */
  lemma {:induction false} SplitWithout(s: string, sep: string)
    requires |sep| > 0 && !Contains(s, sep)
    ensures Split(s, sep) == [s]
  {
  }

  /** With a first occurrence at `i`, the first piece is what precedes it. */
  lemma {:induction false} SplitAt(s: string, sep: string, i: nat)
    requires |sep| > 0 && IndexOf(s, sep) == Some(i)
    ensures Split(s, sep) == [s[..i]] + Split(s[i + |sep|..], sep)
  {
  }

  /** Every piece of a split is a substring of the input. */
  lemma {:induction false} SplitPiecesInside(s: string, sep: string)
    requires |sep| > 0
    ensures forall k :: 0 <= k < |Split(s, sep)| ==> Contains(s, Split(s, sep)[k])
    decreases |s|
  {
    if IndexOf(s, sep).None? {
      assert Split(s, sep) == [s];
      assert OccursAt(s, s, 0);
    } else {
      var i := IndexOf(s, sep).value;
      var rest := s[i + |sep|..];
      SplitAt(s, sep, i);
      SplitPiecesInside(rest, sep);
      ContainsSlice(s, 0, i);
      ContainsSlice(s, i + |sep|, |s|);
      assert s[i + |sep|..|s|] == rest;
      PiecesInsideCons(s, s[..i], rest, Split(rest, sep));
    }
  }

  lemma {:induction false} PiecesInsideCons(s: string, first: string, rest: string, restParts: seq<string>)
    requires Contains(s, first) && Contains(s, rest)
    requires forall k :: 0 <= k < |restParts| ==> Contains(rest, restParts[k])
    ensures forall k :: 0 <= k < |[first] + restParts| ==> Contains(s, ([first] + restParts)[k])
  {
    var parts := [first] + restParts;
    forall k | 0 <= k < |parts| ensures Contains(s, parts[k]) {
      if k > 0 {
        assert parts[k] == restParts[k - 1];
        ContainsTransitive(s, rest, parts[k]);
      }
    }
  }

  /** No piece of a split contains the separator. */
  lemma {:induction false} SplitPiecesClean(s: string, sep: string)
    requires |sep| > 0
    ensures forall k :: 0 <= k < |Split(s, sep)| ==> !Contains(Split(s, sep)[k], sep)
    decreases |s|
  {
    if IndexOf(s, sep).None? {
      assert Split(s, sep) == [s];
    } else {
      var i := IndexOf(s, sep).value;
      var rest := s[i + |sep|..];
      SplitAt(s, sep, i);
      SplitPiecesClean(rest, sep);
      forall j ensures !OccursAt(s[..i], sep, j) {
        OccursAtPrefix(s, sep, i, j);
      }
      PiecesCleanCons(s[..i], Split(rest, sep), sep);
    }
  }

  lemma {:induction false} PiecesCleanCons(first: string, restParts: seq<string>, sep: string)
    requires !Contains(first, sep)
    requires forall k :: 0 <= k < |restParts| ==> !Contains(restParts[k], sep)
    ensures forall k :: 0 <= k < |[first] + restParts| ==> !Contains(([first] + restParts)[k], sep)
  {
    var parts := [first] + restParts;
    forall k | 0 < k < |parts| ensures !Contains(parts[k], sep) {
      assert parts[k] == restParts[k - 1];
    }
  }

  /** Joining the pieces of a split with the same separator gives back the text. */
  lemma {:induction false} JoinSplit(s: string, sep: string)
    requires |sep| > 0
    ensures Join(Split(s, sep), sep) == s
    decreases |s|
  {
    match IndexOf(s, sep)
    case None =>
    case Some(i) =>
      var rest := s[i + |sep|..];
      JoinSplit(rest, sep);
      SplitAt(s, sep, i);
      JoinCons(s[..i], Split(rest, sep), sep);
      assert s == s[..i] + sep + rest;
  }

  /** Joining with at least one more piece puts the separator after the first. */
  lemma {:induction false} JoinCons(x: string, rest: seq<string>, sep: string)
    requires |rest| >= 1
    ensures Join([x] + rest, sep) == x + sep + Join(rest, sep)
  {
    assert ([x] + rest)[1..] == rest;
  }

  /** Replacing a pattern that does not occur changes nothing. */
  lemma {:induction false} ReplaceAllWithout(s: string, pat: string, rep: string)
    requires |pat| > 0 && !Contains(s, pat)
    ensures ReplaceAll(s, pat, rep) == s
  {
    SplitWithout(s, pat);
  }

  /** `a + pat + b` with no `pat` starting inside `a` and none in `b` becomes `a + rep + b`. */
  lemma {:induction false} ReplaceAllOnce(a: string, pat: string, b: string, rep: string)
    requires |pat| > 0 && !Contains(a + pat[..|pat| - 1], pat) && !Contains(b, pat)
    ensures ReplaceAll(a + pat + b, pat, rep) == a + rep + b
  {
    var s := a + pat + b;
    IndexOfAfter(a, pat, b);
    SplitAt(s, pat, |a|);
    assert s[..|a|] == a && s[|a| + |pat|..] == b;
    SplitWithout(b, pat);
    JoinCons(a, [b], rep);
  }

  /**
   * No occurrence of `q` can overlap an inserted copy of `r`: `q` has a character `q[k]` that
   * `r` lacks, the last character of `r` is not among those before `q[k]`, and the first
   * character of `r` is not among those after it.
   */
  predicate SeparatorAvoids(r: string, q: string, k: nat)
  {
    k < |q| && |r| > 0 && q[k] !in r && r[|r| - 1] !in q[..k] && r[0] !in q[k + 1..]
  }

  /** No occurrence of `q` straddles one inserted copy of a separator that avoids it. */
  lemma {:induction false} NoStraddle(x: string, r: string, y: string, q: string, k: nat)
    requires SeparatorAvoids(r, q, k)
    requires !Contains(x, q) && !Contains(y, q)
    ensures !Contains(x + r + y, q)
  {
    var s := x + r + y;
    forall j | 0 <= j && j + |q| <= |s| ensures !OccursAt(s, q, j) {
      // a position t inside the window where s and q disagree, or the window lies inside x or y
      if j + k < |x| {
        if j + |q| <= |x| {
          assert x[j..j + |q|] == s[j..j + |q|];
          assert !OccursAt(x, q, j);
        } else {
          var t := |x| - j;
          assert q[k + 1..][t - k - 1] == q[t];
          assert s[j + t] == r[0] != q[t];
          assert s[j..j + |q|][t] != q[t];
        }
      } else if j + k < |x| + |r| {
        assert s[j + k] == r[j + k - |x|] != q[k];
        assert s[j..j + |q|][k] != q[k];
      } else if j >= |x| + |r| {
        var d := j - |x| - |r|;
        assert s[|x| + |r|..] == y;
        assert y[d..d + |q|] == s[j..j + |q|];
        assert !OccursAt(y, q, d);
      } else {
        var t := |x| + |r| - 1 - j;
        assert q[..k][t] == q[t];
        assert s[j + t] == r[|r| - 1] != q[t];
        assert s[j..j + |q|][t] != q[t];
      }
    }
  }

  /** Joining pieces free of `q` with a separator that avoids `q` yields no `q`. */
  lemma {:induction false} JoinAddsNoOccurrence(parts: seq<string>, r: string, q: string, k: nat)
    requires SeparatorAvoids(r, q, k)
    requires forall i :: 0 <= i < |parts| ==> !Contains(parts[i], q)
    ensures !Contains(Join(parts, r), q)
  {
    if |parts| == 0 {
      assert forall j :: !OccursAt([], q, j);
    } else if |parts| > 1 {
      JoinAddsNoOccurrence(parts[1..], r, q, k);
      NoStraddle(parts[0], r, Join(parts[1..], r), q, k);
    }
  }

  /**
   * Replacing every `pat` by `rep` leaves no `q` when `q` was absent before or is `pat` itself,
   * and no `q` can straddle an inserted `rep`.
   */
  lemma {:induction false} ReplaceAllAvoids(s: string, pat: string, rep: string, q: string, k: nat)
    requires |pat| > 0 && SeparatorAvoids(rep, q, k)
    requires q == pat || !Contains(s, q)
    ensures !Contains(ReplaceAll(s, pat, rep), q)
  {
    var parts := Split(s, pat);
    SplitPiecesInside(s, pat);
    SplitPiecesClean(s, pat);
    forall i | 0 <= i < |parts| ensures !Contains(parts[i], q) {
      if q != pat && Contains(parts[i], q) {
        ContainsTransitive(s, parts[i], q);
      }
    }
    JoinAddsNoOccurrence(parts, rep, q, k);
  }

  // ---------------------------------------------------------------------------------------
  // Slash

  lemma {:induction false} SlashWithout(s: string)
    requires '\\' !in s
    ensures Slash(s) == s
  {
  }

  lemma {:induction false} SlashConcat(a: string, b: string)
    ensures Slash(a + b) == Slash(a) + Slash(b)
  {
  }
}
