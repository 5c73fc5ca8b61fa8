/** `regSlash` (index.js:27-32): escapes `?` and `*` so that a marker can be placed in a regular expression. */
module RegexEscape {
  import opened Options
  import opened JsStrings

  /** As written: each of the two replacements runs only when its character occurs. */
  function RegSlash(str: string): string
  {
    var s1 := if IndexOf(str, "?").Some? then ReplaceAll(str, "?", "\\?") else str;
    if IndexOf(s1, "*").Some? then ReplaceAll(s1, "*", "\\*") else s1
  }

  /** Reference definition: escape character by character. */
  function EscapeChar(c: char): string
  {
    if c == '?' || c == '*' then ['\\', c] else [c]
  }

  function Escaped(s: string): string
  {
    if s == [] then [] else EscapeChar(s[0]) + Escaped(s[1..])
  }

  /** Inverse of the escaping: drops a backslash standing right before `?` or `*`. */
  function Unescape(t: string): string
  {
    if |t| >= 2 && t[0] == '\\' && (t[1] == '?' || t[1] == '*') then [t[1]] + Unescape(t[2..])
    else if t == [] then []
    else [t[0]] + Unescape(t[1..])
  }

  /** Replacing one character everywhere by a string. */
  function MapChar(s: string, c: char, rep: string): string
  {
    if s == [] then [] else (if s[0] == c then rep else [s[0]]) + MapChar(s[1..], c, rep)
  }

  lemma {:induction false} MapCharConcat(a: string, b: string, c: char, rep: string)
    ensures MapChar(a + b, c, rep) == MapChar(a, c, rep) + MapChar(b, c, rep)
  {
    if a == [] {
      assert a + b == b;
    } else {
      assert (a + b)[0] == a[0] && (a + b)[1..] == a[1..] + b;
      MapCharConcat(a[1..], b, c, rep);
    }
  }

  lemma {:induction false} MapCharWithout(s: string, c: char, rep: string)
    requires c !in s
    ensures MapChar(s, c, rep) == s
  {
    if s != [] {
      MapCharWithout(s[1..], c, rep);
    }
  }

  /** `split(c).join(rep)` for a one-character separator is the character-wise replacement. */
  lemma {:induction false} ReplaceCharIsMapChar(s: string, c: char, rep: string)
    ensures ReplaceAll(s, [c], rep) == MapChar(s, c, rep)
    decreases |s|
  {
    match IndexOf(s, [c])
    case None =>
      SplitWithout(s, [c]);
      NoCharBefore(s, c, |s|);
      MapCharWithout(s, c, rep);
    case Some(i) =>
      var rest := s[i + 1..];
      calc {
        ReplaceAll(s, [c], rep);
        { SplitAt(s, [c], i); }
        Join([s[..i]] + Split(rest, [c]), rep);
        { JoinCons(s[..i], Split(rest, [c]), rep); }
        s[..i] + rep + ReplaceAll(rest, [c], rep);
        { ReplaceCharIsMapChar(rest, c, rep); }
        s[..i] + rep + MapChar(rest, c, rep);
      }
      MapCharSplit(s, c, rep, i);
  }

  /** No occurrence of the one-character pattern before `n` means the character is absent there. */
  lemma {:induction false} NoCharBefore(s: string, c: char, n: nat)
    requires n <= |s|
    requires forall j :: 0 <= j < n ==> !OccursAt(s, [c], j)
    ensures c !in s[..n]
  {
    forall j | 0 <= j < n ensures s[..n][j] != c {
      OccursAtChar(s, c, j);
    }
  }

  /** Around the first `c` at index `i`, MapChar keeps the prefix and replaces that `c`. */
  lemma {:induction false} MapCharSplit(s: string, c: char, rep: string, i: nat)
    requires IndexOf(s, [c]) == Some(i)
    ensures MapChar(s, c, rep) == s[..i] + rep + MapChar(s[i + 1..], c, rep)
  {
    NoCharBefore(s, c, i);
    MapCharWithout(s[..i], c, rep);
    OccursAtChar(s, c, i);
    assert s == s[..i] + [c] + s[i + 1..];
    MapCharConcat(s[..i] + [c], s[i + 1..], c, rep);
    MapCharConcat(s[..i], [c], c, rep);
    assert MapChar([c], c, rep) == rep + MapChar([], c, rep);
  }

  /** Every `?` becomes `\?`, every `*` becomes `\*`, and every other character is kept. */
  lemma {:induction false} RegSlashEscapesEach(s: string)
    ensures RegSlash(s) == Escaped(s)
  {
    var s1 := MapChar(s, '?', "\\?");
    assert RegSlash(s) == MapChar(s1, '*', "\\*") by {
      if IndexOf(s, "?").Some? {
        ReplaceCharIsMapChar(s, '?', "\\?");
      } else {
        forall j | 0 <= j < |s| ensures s[j] != '?' {
          OccursAtChar(s, '?', j);
        }
        MapCharWithout(s, '?', "\\?");
      }
      var t := if IndexOf(s, "?").Some? then ReplaceAll(s, "?", "\\?") else s;
      assert t == s1;
      if IndexOf(s1, "*").Some? {
        ReplaceCharIsMapChar(s1, '*', "\\*");
      } else {
        forall j | 0 <= j < |s1| ensures s1[j] != '*' {
          OccursAtChar(s1, '*', j);
        }
        MapCharWithout(s1, '*', "\\*");
      }
    }
    BothMapsAreEscaped(s);
  }

  lemma {:induction false} BothMapsAreEscaped(s: string)
    ensures MapChar(MapChar(s, '?', "\\?"), '*', "\\*") == Escaped(s)
  {
    if s != [] {
      var head := if s[0] == '?' then "\\?" else [s[0]];
      assert MapChar(s, '?', "\\?") == head + MapChar(s[1..], '?', "\\?");
      MapCharConcat(head, MapChar(s[1..], '?', "\\?"), '*', "\\*");
      BothMapsAreEscaped(s[1..]);
      if s[0] == '?' {
        assert MapChar(head, '*', "\\*") == "\\?" by {
          MapCharWithout(head, '*', "\\*");
        }
      } else {
        assert MapChar(head, '*', "\\*") == MapChar([s[0]][1..], '*', "\\*") + (if s[0] == '*' then "\\*" else [s[0]]);
      }
    }
  }

  /** A string with neither `?` nor `*` is returned unchanged. */
  lemma {:induction false} RegSlashUnchanged(s: string)
    requires '?' !in s && '*' !in s
    ensures RegSlash(s) == s
  {
    RegSlashEscapesEach(s);
    EscapedWithout(s);
  }

  lemma {:induction false} EscapedWithout(s: string)
    requires '?' !in s && '*' !in s
    ensures Escaped(s) == s
  {
    if s != [] {
      EscapedWithout(s[1..]);
    }
  }

  /** The escaping is undone by Unescape, so an escaped marker still spells the original marker. */
  lemma {:induction false} UnescapeRegSlash(s: string)
    ensures Unescape(RegSlash(s)) == s
  {
    RegSlashEscapesEach(s);
    UnescapeEscaped(s);
  }

  lemma {:induction false} UnescapeEscaped(s: string)
    ensures Unescape(Escaped(s)) == s
  {
    if s != [] {
      UnescapeEscaped(s[1..]);
      var e := Escaped(s[1..]);
      assert e == [] || (e[0] != '?' && e[0] != '*') by {
        if s[1..] != [] {
          assert e[0] == EscapeChar(s[1..][0])[0];
        }
      }
      if s[0] == '?' || s[0] == '*' {
        assert Escaped(s) == ['\\', s[0]] + e;
        assert (['\\', s[0]] + e)[2..] == e;
      } else {
        assert Escaped(s) == [s[0]] + e;
        assert ([s[0]] + e)[1..] == e;
      }
    }
  }

  /** The cases of spec/unit.js:114-117. */
  lemma {:induction false} RegSlashExamples()
    ensures RegSlash("?") == "\\?" && RegSlash("*") == "\\*"
  {
    RegSlashEscapesEach("?");
    RegSlashEscapesEach("*");
    assert Escaped("?") == EscapeChar('?') + Escaped([]);
    assert Escaped("*") == EscapeChar('*') + Escaped([]);
  }
}
