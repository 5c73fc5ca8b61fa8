/**
 * `normalizeRazorSyntax` (index.js:183-200): makes a Razor-style template readable by vash.
 * It deletes every ignore span (start marker to nearest end marker), then every `@*`...`*@`
 * comment, then renames `Html.Raw`, `.Length` and `.Count`. The ignore markers, process-wide
 * variables in the source (index.js:20-21), are parameters here.
 */
module RazorSyntax {
  import opened Options
  import opened JsStrings

  const DefaultStartIgnore := "@*VASH_IGNORE_START*@"
  const DefaultEndIgnore := "@*VASH_IGNORE_END*@"
  const CommentOpen := "@*"
  const CommentClose := "*@"

  /**
   * `text.replace(/open[\s\S]*?close/g, "")` for markers that the regular expression reads
   * literally: cut from the first `open` to the nearest `close` that starts after it, then go on
   * after that `close`. A first `open` with no later `close` ends the work, since no later `open`
   * can have one either. With two empty markers every match is empty and nothing is cut.
   */
  function StripSpans(s: string, open: string, close: string): string
    decreases |s|
  {
    if |open| + |close| == 0 then s
    else
      match NextSpan(s, open, close)
      case None => s
      case Some((i, k)) => s[..i] + StripSpans(s[k..], open, close)
  }

  /**
   * The next span to cut: it starts at the first `open` and ends after the nearest `close`
   * that starts after that `open`; there is none exactly when no `close` starts after any `open`.
   */
  function NextSpan(s: string, open: string, close: string): (r: Option<(nat, nat)>)
    ensures r.Some? ==> r.value.0 + |open| + |close| <= r.value.1 <= |s|
    ensures r.Some? ==> OccursAt(s, open, r.value.0) && forall j :: 0 <= j < r.value.0 ==> !OccursAt(s, open, j)
    ensures r.Some? ==> OccursAt(s, close, r.value.1 - |close|) &&
                        forall j :: r.value.0 + |open| <= j < r.value.1 - |close| ==> !OccursAt(s, close, j)
    ensures r.None? <==> forall i, e :: OccursAt(s, open, i) && i + |open| <= e ==> !OccursAt(s, close, e)
  {
    match IndexOf(s, open)
    case None => None
    case Some(i) =>
      match IndexOfFrom(s, close, i + |open|)
      case None => None
      case Some(e) => Some((i, e + |close|))
  }

  /** The C# member names that vash does not know, renamed in this order. */
  function RenameCSharp(s: string): string
  {
    var t1 := ReplaceAll(s, "Html.Raw", "Html.raw");
    var t2 := ReplaceAll(t1, ".Length", ".length");
    ReplaceAll(t2, ".Count", ".length")
  }

  function NormalizeRazorSyntax(tmpl: string, startIgnore: string, endIgnore: string): string
  {
    var noIgnored := StripSpans(tmpl, startIgnore, endIgnore);
    var noComments := StripSpans(noIgnored, CommentOpen, CommentClose);
    RenameCSharp(noComments)
  }

  // ---------------------------------------------------------------------------------------
  // Reference semantics of a global, lazy regular-expression replacement by ""

  /** Length of the match of `open[\s\S]*?close` at the start of `s`, if there is one. */
  function MatchAtStart(s: string, open: string, close: string): Option<nat>
  {
    if !OccursAt(s, open, 0) then None
    else
      match IndexOfFrom(s, close, |open|)
      case None => None
      case Some(e) => Some(e + |close|)
  }

  /**
   * The scan of String.prototype.replace with a global expression: at each position a
   * non-empty match is dropped and the scan resumes after it; where there is no match, or only
   * an empty one, the character is kept and the scan moves one position on.
   */
  function GlobalRemove(s: string, open: string, close: string): string
    decreases |s|
  {
    if s == [] then []
    else
      match MatchAtStart(s, open, close)
      case Some(n) =>
        if 0 < n <= |s| then GlobalRemove(s[n..], open, close)
        else [s[0]] + GlobalRemove(s[1..], open, close)
      case None => [s[0]] + GlobalRemove(s[1..], open, close)
  }

  lemma {:induction false} GlobalRemoveEmptyMarkers(s: string)
    ensures GlobalRemove(s, [], []) == s
    decreases |s|
  {
    if s != [] {
      assert OccursAt(s, [], 0);
      IndexOfFromIs(s, [], 0, 0);
      GlobalRemoveEmptyMarkers(s[1..]);
    }
  }

  /** Where no `close` follows any `open`, nothing matches and the text is kept. */
  lemma {:induction false} GlobalRemoveNoMatch(t: string, open: string, close: string)
    requires forall j, k :: OccursAt(t, open, j) && j + |open| <= k ==> !OccursAt(t, close, k)
    ensures GlobalRemove(t, open, close) == t
    decreases |t|
  {
    if t != [] {
      assert MatchAtStart(t, open, close).None?;
      forall j, k | OccursAt(t[1..], open, j) && j + |open| <= k
        ensures !OccursAt(t[1..], close, k)
      {
        OccursAtShift(t, open, 1, j);
        OccursAtShift(t, close, 1, k);
      }
      GlobalRemoveNoMatch(t[1..], open, close);
    }
  }

  /** Positions before the first `open` are copied unchanged. */
  lemma {:induction false} GlobalRemovePrefix(s: string, open: string, close: string, i: nat)
    requires i <= |s|
    requires forall j :: 0 <= j < i ==> !OccursAt(s, open, j)
    ensures GlobalRemove(s, open, close) == s[..i] + GlobalRemove(s[i..], open, close)
  {
    if i > 0 {
      GlobalRemoveKeepsFirst(s, open, close);
      forall j | 0 <= j < i - 1 ensures !OccursAt(s[1..], open, j) {
        OccursAtShift(s, open, 1, j);
      }
      GlobalRemovePrefix(s[1..], open, close, i - 1);
      PrefixAfterFirst(s, i);
    }
  }

  /** Without `open` at the start, the first character is kept. */
  lemma {:induction false} GlobalRemoveKeepsFirst(s: string, open: string, close: string)
    requires s != [] && !OccursAt(s, open, 0)
    ensures GlobalRemove(s, open, close) == [s[0]] + GlobalRemove(s[1..], open, close)
  {
    assert MatchAtStart(s, open, close).None?;
  }

  lemma {:induction false} PrefixAfterFirst(s: string, i: nat)
    requires 0 < i <= |s|
    ensures s[..i] == [s[0]] + s[1..][..i - 1] && s[1..][i - 1..] == s[i..]
  {
    assert s[1..][..i - 1] == s[1..i];
  }

  /** From a first `open` with no `close` after it, nothing more matches. */
  lemma {:induction false} GlobalRemoveUnclosed(s: string, open: string, close: string, i: nat)
    requires i <= |s| && OccursAt(s, open, i)
    requires IndexOfFrom(s, close, i + |open|).None?
    ensures GlobalRemove(s[i..], open, close) == s[i..]
  {
    var t := s[i..];
    forall j, k | OccursAt(t, open, j) && j + |open| <= k ensures !OccursAt(t, close, k) {
      OccursAtShift(s, close, i, k);
    }
    GlobalRemoveNoMatch(t, open, close);
  }

  /** From a first `open` whose nearest `close` starts at `e`, the match ends after that `close`. */
  lemma {:induction false} GlobalRemoveSpan(s: string, open: string, close: string, i: nat, e: nat)
    requires |open| + |close| > 0
    requires i <= |s| && OccursAt(s, open, i)
    requires IndexOfFrom(s, close, i + |open|) == Some(e)
    ensures GlobalRemove(s[i..], open, close) == GlobalRemove(s[e + |close|..], open, close)
  {
    var t := s[i..];
    var n := e - i + |close|;
    MatchAtSpan(s, open, close, i, e);
    GlobalRemoveSkip(t, open, close, n);
    assert t[n..] == s[e + |close|..];
  }

  /** The match at the start of `s[i..]` runs to the end of the nearest `close`. */
  lemma {:induction false} MatchAtSpan(s: string, open: string, close: string, i: nat, e: nat)
    requires |open| + |close| > 0
    requires i <= |s| && OccursAt(s, open, i)
    requires IndexOfFrom(s, close, i + |open|) == Some(e)
    ensures 0 < e - i + |close| <= |s| - i
    ensures MatchAtStart(s[i..], open, close) == Some(e - i + |close|)
  {
    var t := s[i..];
    OccursAtShift(s, open, i, 0);
    forall j | |open| <= j < e - i ensures !OccursAt(t, close, j) {
      OccursAtShift(s, close, i, j);
    }
    OccursAtShift(s, close, i, e - i);
    IndexOfFromIs(t, close, |open|, e - i);
  }

  /** A non-empty match at the start is dropped and the scan resumes after it. */
  lemma {:induction false} GlobalRemoveSkip(t: string, open: string, close: string, n: nat)
    requires 0 < n <= |t| && MatchAtStart(t, open, close) == Some(n)
    ensures GlobalRemove(t, open, close) == GlobalRemove(t[n..], open, close)
  {
  }

  /**
   * The span removal is exactly what the regular-expression replacement does: the first `open`
   * is where the leftmost match starts, if any match starts anywhere.
   */
  lemma {:induction false} StripSpansStep(s: string, open: string, close: string, i: nat, e: nat)
    requires |open| + |close| > 0
    requires IndexOf(s, open) == Some(i) && IndexOfFrom(s, close, i + |open|) == Some(e)
    ensures e + |close| <= |s|
    ensures StripSpans(s, open, close) == s[..i] + StripSpans(s[e + |close|..], open, close)
  {
    var k := e + |close|;
    assert NextSpan(s, open, close) == Some((i, k));
    var rest := s[k..];
    assert StripSpans(s, open, close) == s[..i] + StripSpans(rest, open, close);
    assert s[e + |close|..] == rest;
  }

  lemma {:induction false} StripSpansIsGlobalRemove(s: string, open: string, close: string)
    ensures StripSpans(s, open, close) == GlobalRemove(s, open, close)
    decreases |s|
  {
    if |open| + |close| == 0 {
      GlobalRemoveEmptyMarkers(s);
    } else if IndexOf(s, open).None? {
      GlobalRemoveNoMatch(s, open, close);
    } else {
      var i := IndexOf(s, open).value;
      GlobalRemovePrefix(s, open, close, i);
      var found := IndexOfFrom(s, close, i + |open|);
      if found.None? {
        GlobalRemoveUnclosed(s, open, close, i);
        assert StripSpans(s, open, close) == s;
      } else {
        var e := found.value;
        var rest := s[e + |close|..];
        StripSpansStep(s, open, close, i, e);
        GlobalRemoveSpan(s, open, close, i, e);
        StripSpansIsGlobalRemove(rest, open, close);
      }
    }
  }

  // ---------------------------------------------------------------------------------------
  // Properties of the span removal

  lemma {:induction false} StripSpansEmpty(open: string, close: string)
    ensures StripSpans([], open, close) == []
  {
    if |open| + |close| > 0 {
      assert NextSpan([], open, close).None?;
    }
  }

  /** Text with no `open` marker is unchanged. */
  lemma {:induction false} StripSpansWithout(s: string, open: string, close: string)
    requires !Contains(s, open)
    ensures StripSpans(s, open, close) == s
  {
  }

  /**
   * One span is cut, whatever it holds (line breaks, other markers): when no `open` starts
   * inside `a` and no `close` starts inside `m`, `a + open + m + close + b` becomes `a`
   * followed by the normalised `b`.
   */
  lemma {:induction false} StripSpansCutsSpan(a: string, open: string, m: string, close: string, b: string)
    requires |open| > 0 && |close| > 0
    requires !Contains(a + open[..|open| - 1], open) && !Contains(m + close[..|close| - 1], close)
    ensures StripSpans(a + open + m + close + b, open, close) == a + StripSpans(b, open, close)
  {
    var s := a + open + m + close + b;
    var e := |a| + |open| + |m|;
    ConcatPieces(a + open, m, close, b);
    assert s[..|a|] == a;
    assert s[e + |close|..] == b;
    IndexOfFromAfter(a + open, m, close, b, |a| + |open|);
    assert IndexOfFrom(s, close, |a| + |open|) == Some(e);
    IndexOfAfter(a, open, m + close + b);
    assert IndexOf(s, open) == Some(|a|);
    StripSpansAround(s, open, close, a, b, e);
  }

  /** `StripSpansStep` with the text before and after the span named. */
  lemma {:induction false} StripSpansAround(s: string, open: string, close: string, a: string, b: string, e: nat)
    requires |open| + |close| > 0
    requires IndexOf(s, open) == Some(|a|) && IndexOfFrom(s, close, |a| + |open|) == Some(e)
    requires e + |close| <= |s| && s[..|a|] == a && s[e + |close|..] == b
    ensures StripSpans(s, open, close) == a + StripSpans(b, open, close)
  {
    StripSpansStep(s, open, close, |a|, e);
  }

  /** Text in which no `close` begins after any `open` is unchanged. */
  lemma {:induction false} StripSpansKeepsUnclosed(s: string, open: string, close: string)
    requires |open| > 0
    requires forall j, k :: OccursAt(s, open, j) && j + |open| <= k ==> !OccursAt(s, close, k)
    ensures StripSpans(s, open, close) == s
  {
  }

  // ---------------------------------------------------------------------------------------
  // Properties of the normaliser

  /** The replacement texts cannot be part of any of the three C# names. */
  lemma {:induction false} ReplacementsAvoidNames()
    ensures SeparatorAvoids("Html.raw", "Html.Raw", 5)
    ensures SeparatorAvoids(".length", "Html.Raw", 5)
    ensures SeparatorAvoids(".length", ".Length", 1)
    ensures SeparatorAvoids(".length", ".Count", 1)
  {
    ReplacementAvoidsHtmlRaw("Html.raw");
    ReplacementAvoidsHtmlRaw(".length");
    var r := ".length";
    assert 'L' !in r && 'C' !in r && r[|r| - 1] != '.' && r[0] !in "ength" && r[0] !in "ount";
    DotNameAvoidedBy(r, ".Length", "ength", 'L');
    DotNameAvoidedBy(r, ".Count", "ount", 'C');
  }

  lemma {:induction false} ReplacementAvoidsHtmlRaw(r: string)
    requires r == "Html.raw" || r == ".length"
    ensures SeparatorAvoids(r, "Html.Raw", 5)
  {
    assert |r| > 0 && 'R' !in r && r[|r| - 1] !in "Html." && r[0] !in "aw";
    HtmlRawAvoidedBy(r);
  }

  /** A separator avoids `.` + `c` + `tail` when it lacks `c`, does not end in `.` and does not start inside `tail`. */
  lemma {:induction false} DotNameAvoidedBy(r: string, q: string, tail: string, c: char)
    requires q == ['.', c] + tail
    requires |r| > 0 && c !in r && r[|r| - 1] != '.' && r[0] !in tail
    ensures SeparatorAvoids(r, q, 1)
  {
    DotNameSlices(q, tail, c);
    AvoidsDotName(r, q, tail, c);
  }

  /** A separator avoids `Html.Raw` when it lacks `R`, and its ends fit neither side of the `R`. */
  lemma {:induction false} HtmlRawAvoidedBy(r: string)
    requires |r| > 0 && 'R' !in r && r[|r| - 1] !in "Html." && r[0] !in "aw"
    ensures SeparatorAvoids(r, "Html.Raw", 5)
  {
    HtmlRawSlices("Html.Raw");
    AvoidsHtmlRaw(r);
  }

  lemma {:induction false} AvoidsHtmlRaw(r: string)
    requires |r| > 0 && 'R' !in r && r[|r| - 1] !in "Html." && r[0] !in "aw"
    requires "Html.Raw"[..5] == "Html." && "Html.Raw"[5] == 'R' && "Html.Raw"[6..] == "aw"
    ensures SeparatorAvoids(r, "Html.Raw", 5)
  {
  }

  lemma {:induction false} AvoidsDotName(r: string, q: string, tail: string, c: char)
    requires |q| >= 2 && q[..1] == "." && q[1] == c && q[2..] == tail
    requires |r| > 0 && c !in r && r[|r| - 1] != '.' && r[0] !in tail
    ensures SeparatorAvoids(r, q, 1)
  {
  }

  lemma {:induction false} HtmlRawSlices(q: string)
    requires q == "Html.Raw"
    ensures q[..5] == "Html." && q[5] == 'R' && q[6..] == "aw"
  {
  }

  lemma {:induction false} DotNameSlices(q: string, tail: string, c: char)
    requires q == ['.', c] + tail
    ensures q[..1] == "." && q[1] == c && q[2..] == tail
  {
  }

  /** The renames leave no `Html.Raw`, `.Length` or `.Count` behind. */
  lemma {:induction false} RenameCSharpRemovesNames(s: string)
    ensures !Contains(RenameCSharp(s), "Html.Raw")
    ensures !Contains(RenameCSharp(s), ".Length")
    ensures !Contains(RenameCSharp(s), ".Count")
  {
    ReplacementsAvoidNames();
    var t1 := ReplaceAll(s, "Html.Raw", "Html.raw");
    var t2 := ReplaceAll(t1, ".Length", ".length");
    ReplaceAllAvoids(s, "Html.Raw", "Html.raw", "Html.Raw", 5);
    ReplaceAllAvoids(t1, ".Length", ".length", "Html.Raw", 5);
    ReplaceAllAvoids(t1, ".Length", ".length", ".Length", 1);
    ReplaceAllAvoids(t2, ".Count", ".length", "Html.Raw", 5);
    ReplaceAllAvoids(t2, ".Count", ".length", ".Length", 1);
    ReplaceAllAvoids(t2, ".Count", ".length", ".Count", 1);
  }

  /** The normalised template contains none of the C# names that vash would not understand. */
  lemma {:induction false} NormalizeRemovesCSharpNames(tmpl: string, startIgnore: string, endIgnore: string)
    ensures !Contains(NormalizeRazorSyntax(tmpl, startIgnore, endIgnore), "Html.Raw")
    ensures !Contains(NormalizeRazorSyntax(tmpl, startIgnore, endIgnore), ".Length")
    ensures !Contains(NormalizeRazorSyntax(tmpl, startIgnore, endIgnore), ".Count")
  {
    RenameCSharpRemovesNames(StripSpans(StripSpans(tmpl, startIgnore, endIgnore), CommentOpen, CommentClose));
  }

  /** A template with no ignore marker, no comment and none of the C# names is returned unchanged. */
  lemma {:induction false} NormalizeUnchanged(tmpl: string, startIgnore: string, endIgnore: string)
    requires !Contains(tmpl, startIgnore) && !Contains(tmpl, CommentOpen)
    requires !Contains(tmpl, "Html.Raw") && !Contains(tmpl, ".Length") && !Contains(tmpl, ".Count")
    ensures NormalizeRazorSyntax(tmpl, startIgnore, endIgnore) == tmpl
  {
    ReplaceAllWithout(tmpl, "Html.Raw", "Html.raw");
    ReplaceAllWithout(tmpl, ".Length", ".length");
    ReplaceAllWithout(tmpl, ".Count", ".length");
  }

  /** Normalising "1" changes nothing: it has no marker and no name to rename. */
  lemma {:induction false} NormalizeOne(startIgnore: string, endIgnore: string)
    requires |startIgnore| > 0 && startIgnore[0] != '1'
    ensures NormalizeRazorSyntax("1", startIgnore, endIgnore) == "1"
  {
    NotContainsByChar("1", startIgnore, 0);
    NotContainsByChar("1", CommentOpen, 0);
    NotContainsByChar("1", "Html.Raw", 0);
    NotContainsByChar("1", ".Length", 0);
    NotContainsByChar("1", ".Count", 0);
    NormalizeUnchanged("1", startIgnore, endIgnore);
  }

  /** After the text "1", an ignore span is removed whatever it holds, for any marker pair. */
  lemma {:induction false} NormalizeRemovesIgnoreSpan(startIgnore: string, endIgnore: string, m: string)
    requires |startIgnore| > 0 && |endIgnore| > 0
    requires startIgnore[0] != '1' && !Contains(m + endIgnore[..|endIgnore| - 1], endIgnore)
    ensures NormalizeRazorSyntax("1" + startIgnore + m + endIgnore, startIgnore, endIgnore) == "1"
  {
    assert startIgnore[0] !in "1";
    NoEarlyMatchByChar("1", startIgnore);
    StripSpansCutsSpan("1", startIgnore, m, endIgnore, []);
    assert "1" + startIgnore + m + endIgnore + [] == "1" + startIgnore + m + endIgnore;
    assert StripSpans([], startIgnore, endIgnore) == [];
    NormalizeOne(startIgnore, endIgnore);
  }

  /** The ignore-span cases of spec/unit.js:24-27 and 41-57, with the default and custom markers. */
  lemma {:induction false} NormalizeIgnoreExamples()
    ensures NormalizeRazorSyntax("1" + DefaultStartIgnore + "2" + DefaultEndIgnore,
                                 DefaultStartIgnore, DefaultEndIgnore) == "1"
    ensures NormalizeRazorSyntax("1" + DefaultStartIgnore + "2\n3\n4" + DefaultEndIgnore,
                                 DefaultStartIgnore, DefaultEndIgnore) == "1"
    ensures NormalizeRazorSyntax("1" + "@*CUSTOM_IGNORE_START*@" + "2\n3\n4" + "@*CUSTOM_IGNORE_END*@",
                                 "@*CUSTOM_IGNORE_START*@", "@*CUSTOM_IGNORE_END*@") == "1"
  {
    IgnoredBody("2", DefaultEndIgnore);
    IgnoredBody("2\n3\n4", DefaultEndIgnore);
    IgnoredBody("2\n3\n4", "@*CUSTOM_IGNORE_END*@");
    NormalizeRemovesIgnoreSpan(DefaultStartIgnore, DefaultEndIgnore, "2");
    NormalizeRemovesIgnoreSpan(DefaultStartIgnore, DefaultEndIgnore, "2\n3\n4");
    NormalizeRemovesIgnoreSpan("@*CUSTOM_IGNORE_START*@", "@*CUSTOM_IGNORE_END*@", "2\n3\n4");
  }

  /** The ignored bodies of the tests hold no `@`, so no end marker starts inside them. */
  lemma {:induction false} IgnoredBody(m: string, endIgnore: string)
    requires m == "2" || m == "2\n3\n4"
    requires endIgnore == DefaultEndIgnore || endIgnore == "@*CUSTOM_IGNORE_END*@"
    ensures |endIgnore| > 0 && !Contains(m + endIgnore[..|endIgnore| - 1], endIgnore)
  {
    assert endIgnore[0] == '@';
    assert '@' !in m;
    NoEarlyMatchByChar(m, endIgnore);
  }

  /** The block-comment case of spec/unit.js:29-32: a comment spanning lines is removed. */
  lemma {:induction false} NormalizeCommentExample()
    ensures NormalizeRazorSyntax("1@*2\n3\n4*@", DefaultStartIgnore, DefaultEndIgnore) == "1"
  {
    var s := "1@*2\n3\n4*@";
    NotContainsShorter(s, DefaultStartIgnore);
    assert s == "1" + CommentOpen + "2\n3\n4" + CommentClose + [];
    assert CommentOpen[0] !in "1" && CommentClose[0] !in "2\n3\n4";
    NoEarlyMatchByChar("1", CommentOpen);
    NoEarlyMatchByChar("2\n3\n4", CommentClose);
    StripSpansCutsSpan("1", CommentOpen, "2\n3\n4", CommentClose, []);
    NormalizeOne(DefaultStartIgnore, DefaultEndIgnore);
  }

  // ---------------------------------------------------------------------------------------
  // The renames, one name at a time

  /** Text with no comment opener `@*` and none of the three C# names. */
  ghost predicate PlainText(s: string)
  {
    !Contains(s, CommentOpen) && !Contains(s, "Html.Raw") && !Contains(s, ".Length") && !Contains(s, ".Count")
  }

  /** Text without `@`, `H` and `.` is plain. */
  lemma {:induction false} PlainWithout(s: string)
    requires '@' !in s && 'H' !in s && '.' !in s
    ensures PlainText(s)
  {
    assert CommentOpen[0] == '@' && "Html.Raw"[0] == 'H' && ".Length"[0] == '.' && ".Count"[0] == '.';
    NotContainsByChar(s, CommentOpen, 0);
    NotContainsByChar(s, "Html.Raw", 0);
    NotContainsByChar(s, ".Length", 0);
    NotContainsByChar(s, ".Count", 0);
  }

  /** Without `@*`, neither span pass with the default markers finds a start marker. */
  lemma {:induction false} NoCommentOpenerNoSpans(s: string)
    requires !Contains(s, CommentOpen)
    ensures StripSpans(StripSpans(s, DefaultStartIgnore, DefaultEndIgnore), CommentOpen, CommentClose) == s
  {
    StartIgnoreOpensComment();
    if Contains(s, DefaultStartIgnore) {
      ContainsTransitive(s, DefaultStartIgnore, CommentOpen);
    }
    StripSpansWithout(s, DefaultStartIgnore, DefaultEndIgnore);
    StripSpansWithout(s, CommentOpen, CommentClose);
  }

  lemma {:induction false} StartIgnoreOpensComment()
    ensures Contains(DefaultStartIgnore, CommentOpen)
  {
    ContainsSlice(DefaultStartIgnore, 0, 2);
    assert DefaultStartIgnore[0] == '@' && DefaultStartIgnore[1] == '*';
    assert DefaultStartIgnore[0..2] == CommentOpen;
  }

  /** A separator avoids `@*` when it has no `@` and does not start with `*`. */
  lemma {:induction false} AvoidsCommentOpen(r: string)
    requires |r| > 0 && '@' !in r && r[0] != '*'
    ensures SeparatorAvoids(r, CommentOpen, 0)
  {
    assert CommentOpen[..0] == [] && CommentOpen[1..] == "*";
  }

  /** The facts about the names that the `Html.Raw` rename needs. */
  lemma {:induction false} HtmlRawRenameFacts()
    ensures SeparatorAvoids("Html.Raw", CommentOpen, 0)
    ensures SeparatorAvoids("Html.raw", ".Length", 1) && SeparatorAvoids("Html.raw", ".Count", 1)
    ensures "Html.Raw"[0] !in "Html.Raw"[1..]
  {
    var r := "Html.raw";
    assert '@' !in "Html.Raw" && "Html.Raw"[0] != '*';
    AvoidsCommentOpen("Html.Raw");
    assert 'L' !in r && 'C' !in r && r[|r| - 1] != '.' && r[0] !in "ength" && r[0] !in "ount";
    DotNameAvoidedBy(r, ".Length", "ength", 'L');
    DotNameAvoidedBy(r, ".Count", "ount", 'C');
    assert "Html.Raw"[1..] == "tml.Raw";
  }

  /** The facts about the names that the `.Length` rename needs. */
  lemma {:induction false} LengthRenameFacts()
    ensures SeparatorAvoids(".Length", CommentOpen, 0)
    ensures SeparatorAvoids(".Length", "Html.Raw", 5) && SeparatorAvoids(".length", ".Count", 1)
    ensures ".Length"[0] !in ".Length"[1..]
  {
    var r := ".Length";
    assert '@' !in r && r[0] != '*';
    AvoidsCommentOpen(r);
    assert 'R' !in r && r[|r| - 1] !in "Html." && r[0] !in "aw";
    HtmlRawAvoidedBy(r);
    ReplacementsAvoidNames();
    assert r[1..] == "Length";
  }

  /** The facts about the names that the `.Count` rename needs. */
  lemma {:induction false} CountRenameFacts()
    ensures SeparatorAvoids(".Count", CommentOpen, 0)
    ensures SeparatorAvoids(".Count", ".Length", 1)
    ensures ".Count"[0] !in ".Count"[1..]
  {
    var r := ".Count";
    assert '@' !in r && r[0] != '*';
    AvoidsCommentOpen(r);
    assert 'L' !in r && r[|r| - 1] != '.' && r[0] !in "ength";
    DotNameAvoidedBy(r, ".Length", "ength", 'L');
    assert r[1..] == "Count";
  }

  /** `.Count` ends in the `t` of `Html`, so the check that it adds no `Html.Raw` is split at `nt`. */
  lemma {:induction false} CountAvoidsHtmlRaw(a: string, b: string)
    requires !Contains(a, "Html.Raw") && !Contains(b, "Html.Raw")
    ensures !Contains(a + ".Count" + b, "Html.Raw")
  {
    CountPiecesAvoidHtmlRaw();
    NotContainsShorter([], "Html.Raw");
    NoStraddle([], "nt", b, "Html.Raw", 0);
    assert [] + "nt" + b == "nt" + b;
    NoStraddle(a, ".Cou", "nt" + b, "Html.Raw", 5);
    assert a + ".Cou" + ("nt" + b) == a + (".Cou" + "nt") + b;
    assert ".Cou" + "nt" == ".Count";
  }

  lemma {:induction false} CountPiecesAvoidHtmlRaw()
    ensures SeparatorAvoids(".Cou", "Html.Raw", 5) && SeparatorAvoids("nt", "Html.Raw", 0)
  {
    assert 'R' !in ".Cou" && ".Cou"[3] !in "Html." && ".Cou"[0] !in "aw";
    HtmlRawAvoidedBy(".Cou");
    assert "Html.Raw"[0] == 'H' && "Html.Raw"[..0] == [] && "Html.Raw"[1..] == "tml.Raw";
  }

  /** `Html.Raw` between plain texts becomes `Html.raw`; everything else is kept. */
  lemma {:induction false} NormalizeRenamesHtmlRaw(a: string, b: string)
    requires PlainText(a) && PlainText(b)
    ensures NormalizeRazorSyntax(a + "Html.Raw" + b, DefaultStartIgnore, DefaultEndIgnore) == a + "Html.raw" + b
  {
    var s, t := a + "Html.Raw" + b, a + "Html.raw" + b;
    HtmlRawRenameFacts();
    NoStraddle(a, "Html.Raw", b, CommentOpen, 0);
    NoCommentOpenerNoSpans(s);
    NoEarlyMatchUnbordered(a, "Html.Raw");
    ReplaceAllOnce(a, "Html.Raw", b, "Html.raw");
    NoStraddle(a, "Html.raw", b, ".Length", 1);
    ReplaceAllWithout(t, ".Length", ".length");
    NoStraddle(a, "Html.raw", b, ".Count", 1);
    ReplaceAllWithout(t, ".Count", ".length");
  }

  /** `.Length` between plain texts becomes `.length`; everything else is kept. */
  lemma {:induction false} NormalizeRenamesLength(a: string, b: string)
    requires PlainText(a) && PlainText(b)
    ensures NormalizeRazorSyntax(a + ".Length" + b, DefaultStartIgnore, DefaultEndIgnore) == a + ".length" + b
  {
    var s, t := a + ".Length" + b, a + ".length" + b;
    LengthRenameFacts();
    NoStraddle(a, ".Length", b, CommentOpen, 0);
    NoCommentOpenerNoSpans(s);
    NoStraddle(a, ".Length", b, "Html.Raw", 5);
    ReplaceAllWithout(s, "Html.Raw", "Html.raw");
    NoEarlyMatchUnbordered(a, ".Length");
    ReplaceAllOnce(a, ".Length", b, ".length");
    NoStraddle(a, ".length", b, ".Count", 1);
    ReplaceAllWithout(t, ".Count", ".length");
  }

  /** `.Count` between plain texts becomes `.length`; everything else is kept. */
  lemma {:induction false} NormalizeRenamesCount(a: string, b: string)
    requires PlainText(a) && PlainText(b)
    ensures NormalizeRazorSyntax(a + ".Count" + b, DefaultStartIgnore, DefaultEndIgnore) == a + ".length" + b
  {
    var s := a + ".Count" + b;
    CountRenameFacts();
    NoStraddle(a, ".Count", b, CommentOpen, 0);
    NoCommentOpenerNoSpans(s);
    CountAvoidsHtmlRaw(a, b);
    ReplaceAllWithout(s, "Html.Raw", "Html.raw");
    NoStraddle(a, ".Count", b, ".Length", 1);
    ReplaceAllWithout(s, ".Length", ".length");
    NoEarlyMatchUnbordered(a, ".Count");
    ReplaceAllOnce(a, ".Count", b, ".length");
  }

  /** The renaming cases of spec/unit.js:34-37. */
  lemma {:induction false} NormalizeHtmlRawExample(t: string)
    requires t == "Html.Raw()"
    ensures NormalizeRazorSyntax(t, DefaultStartIgnore, DefaultEndIgnore) == "Html.raw()"
  {
    var b := "()";
    assert '@' !in b && 'H' !in b && '.' !in b;
    PlainWithout([]);
    PlainWithout(b);
    assert t == [] + "Html.Raw" + b && [] + "Html.raw" + b == "Html.raw()";
    NormalizeRenamesHtmlRaw([], b);
  }

  lemma {:induction false} NormalizeLengthExample(t: string)
    requires t == "a.Length"
    ensures NormalizeRazorSyntax(t, DefaultStartIgnore, DefaultEndIgnore) == "a.length"
  {
    var a := "a";
    assert '@' !in a && 'H' !in a && '.' !in a;
    PlainWithout(a);
    PlainWithout([]);
    assert t == a + ".Length" + [] && a + ".length" + [] == "a.length";
    NormalizeRenamesLength(a, []);
  }

  lemma {:induction false} NormalizeCountExample(t: string)
    requires t == "b.Count"
    ensures NormalizeRazorSyntax(t, DefaultStartIgnore, DefaultEndIgnore) == "b.length"
  {
    var a := "b";
    assert '@' !in a && 'H' !in a && '.' !in a;
    PlainWithout(a);
    PlainWithout([]);
    assert t == a + ".Count" + [] && a + ".length" + [] == "b.length";
    NormalizeRenamesCount(a, []);
  }

  // ---------------------------------------------------------------------------------------
  // The order of the span passes

  /**
   * The order is load-bearing: the default ignore markers are themselves comments, so
   * stripping comments first would keep what lies between them (normalising the same
   * template gives "1", by NormalizeIgnoreExamples).
   */
  lemma {:induction false} CommentsFirstKeepsIgnored(t: string)
    requires t == "1" + DefaultStartIgnore + "2" + DefaultEndIgnore
    ensures StripSpans(StripSpans(t, CommentOpen, CommentClose), DefaultStartIgnore, DefaultEndIgnore) == "12"
  {
    var x, y := "VASH_IGNORE_START", "VASH_IGNORE_END";
    DefaultMarkersAreComments(x, y);
    assert CommentClose[0] == '*' && "1" + "2" == "12";
    NotContainsShorter("1", CommentOpen);
    NotContainsShorter("2", CommentOpen);
    NotContainsByChar(x, CommentClose, 0);
    NotContainsByChar(y, CommentClose, 0);
    CommentsAroundText("1", x, "2", y);
    NotContainsByChar("12", DefaultStartIgnore, 0);
    StripSpansWithout("12", DefaultStartIgnore, DefaultEndIgnore);
  }

  /** Each default ignore marker is a comment around a name without `*`. */
  lemma {:induction false} DefaultMarkersAreComments(x: string, y: string)
    requires x == "VASH_IGNORE_START" && y == "VASH_IGNORE_END"
    ensures DefaultStartIgnore == CommentOpen + x + CommentClose && '*' !in x
    ensures DefaultEndIgnore == CommentOpen + y + CommentClose && '*' !in y
  {
    StartMarkerIsComment(x);
    EndMarkerIsComment(y);
  }

  lemma {:induction false} StartMarkerIsComment(x: string)
    requires x == "VASH_IGNORE_START"
    ensures DefaultStartIgnore == CommentOpen + x + CommentClose && '*' !in x
  {
  }

  lemma {:induction false} EndMarkerIsComment(y: string)
    requires y == "VASH_IGNORE_END"
    ensures DefaultEndIgnore == CommentOpen + y + CommentClose && '*' !in y
  {
  }

  /** Two comments, each after text without `@*` and each without `*@` inside, are both removed. */
  lemma {:induction false} CommentsAroundText(u: string, x: string, v: string, y: string)
    requires !Contains(u, CommentOpen) && !Contains(v, CommentOpen)
    requires !Contains(x, CommentClose) && !Contains(y, CommentClose)
    ensures StripSpans(u + (CommentOpen + x + CommentClose) + v + (CommentOpen + y + CommentClose),
                       CommentOpen, CommentClose) == u + v
  {
    var tail := v + CommentOpen + y + CommentClose;
    var s := u + (CommentOpen + x + CommentClose) + v + (CommentOpen + y + CommentClose);
    assert s == u + CommentOpen + x + CommentClose + tail;
    assert tail == v + CommentOpen + y + CommentClose + [];
    assert CommentOpen[0] !in CommentOpen[1..] && CommentClose[0] !in CommentClose[1..];
    NoEarlyMatchUnbordered(u, CommentOpen);
    NoEarlyMatchUnbordered(x, CommentClose);
    NoEarlyMatchUnbordered(v, CommentOpen);
    NoEarlyMatchUnbordered(y, CommentClose);
    StripSpansCutsSpan(u, CommentOpen, x, CommentClose, tail);
    StripSpansCutsSpan(v, CommentOpen, y, CommentClose, []);
    StripSpansEmpty(CommentOpen, CommentClose);
    assert v + [] == v;
  }
}
