/**
 * The helper-list merge of `setCustomHelpers` (index.js:248-275). The list starts as the three
 * default helper templates below the package directory; each supplied helper path is then
 * compared by file name (without extension) with every entry of the list, and appended when
 * no entry matches.
 *
 * In the inner `forEach` callback the parameter `path` shadows the outer helper path, so the
 * assignment meant to override a matching entry stores that entry back into its own place:
 * a supplied helper whose name matches is dropped. `MergeAsWritten` and `MergeHelpers` model
 * the code; `MergeOverriding` and `MergeHelpersOverriding` the overriding the comment at
 * index.js:264 describes. Reading the files and compiling them (index.js:277-288) is not part
 * of this model; `__dirname` is the parameter `dirname`.
 */
module Helpers {
  import opened Options
  import opened JsStrings
  import opened Paths

  /** The three default helpers (index.js:251-255). */
  function Defaults(dirname: string): (r: seq<string>)
    ensures |r| == 3
  {
    [dirname + "/vash-helpers/RenderPartial.vash",
     dirname + "/vash-helpers/foreach.vash",
     dirname + "/vash-helpers/LayoutContent.vash"]
  }

  /** Helpers are identified by `getFileName(path)`, the file name without extension. */
  function HelperName(path: string): string
  {
    FileName(path, false)
  }

  /** The names of a helper list, position by position. */
  function Names(helpers: seq<string>): (r: seq<string>)
    ensures |r| == |helpers|
    ensures forall i :: 0 <= i < |helpers| ==> r[i] == HelperName(helpers[i])
  {
    seq(|helpers|, i requires 0 <= i < |helpers| => HelperName(helpers[i]))
  }

  /** Every entry named like `path` becomes `path`. */
  function Replace(helpers: seq<string>, path: string): (r: seq<string>)
    ensures |r| == |helpers|
    ensures forall i :: 0 <= i < |helpers| ==>
              r[i] == if HelperName(helpers[i]) == HelperName(path) then path else helpers[i]
  {
    seq(|helpers|, i requires 0 <= i < |helpers| =>
      if HelperName(helpers[i]) == HelperName(path) then path else helpers[i])
  }

  /** One supplied helper, as the code handles it: a match leaves the list as it was. */
  function AddAsWritten(helpers: seq<string>, path: string): seq<string>
  {
    if HelperName(path) in Names(helpers) then helpers else helpers + [path]
  }

  /** One supplied helper, as intended: a match is overridden. */
  function AddOverriding(helpers: seq<string>, path: string): seq<string>
  {
    if HelperName(path) in Names(helpers) then Replace(helpers, path) else helpers + [path]
  }

  /** All supplied helpers, in order, as the code handles them. */
  function MergeAsWritten(helpers: seq<string>, news: seq<string>): seq<string>
    decreases |news|
  {
    if |news| == 0 then helpers
    else AddAsWritten(MergeAsWritten(helpers, news[..|news| - 1]), news[|news| - 1])
  }

  /** All supplied helpers, in order, as intended. */
  function MergeOverriding(helpers: seq<string>, news: seq<string>): seq<string>
    decreases |news|
  {
    if |news| == 0 then helpers
    else AddOverriding(MergeOverriding(helpers, news[..|news| - 1]), news[|news| - 1])
  }

  /** The helper list the code ends with; `None` stands for helpers not supplied. */
  function HelperList(dirname: string, newHelpers: Option<seq<string>>): seq<string>
  {
    match newHelpers
    case None => Defaults(dirname)
    case Some(news) => MergeAsWritten(Defaults(dirname), news)
  }

  /** The helper list with overriding. */
  function HelperListOverriding(dirname: string, newHelpers: Option<seq<string>>): seq<string>
  {
    match newHelpers
    case None => Defaults(dirname)
    case Some(news) => MergeOverriding(Defaults(dirname), news)
  }

  // ---------------------------------------------------------------------------------------
  // The loops

  /**
   * The inner loop of index.js:262-270 as written: each entry is read into `entry`, the
   * callback's own `path`, and on a match `entry` is stored back and `found` is set; the
   * search does not stop at a match.
   */
  method StoreMatchesBack(helpers: seq<string>, name1: string) returns (result: seq<string>, found: bool)
    ensures result == helpers
    ensures found <==> name1 in Names(helpers)
  {
    result := helpers;
    found := false;
    var i := 0;
    while i < |result|
      invariant 0 <= i <= |result|
      invariant result == helpers
      invariant found <==> exists j :: 0 <= j < i && HelperName(helpers[j]) == name1
    {
      var entry := result[i];
      if name1 == FileName(entry, false) {
        result := result[i := entry];
        found := true;
      }
      i := i + 1;
    }
  }

  /** The inner loop as intended: a match is replaced by the supplied helper `path`. */
  method OverrideMatches(helpers: seq<string>, name1: string, path: string) returns (result: seq<string>, found: bool)
    ensures |result| == |helpers|
    ensures forall j :: 0 <= j < |helpers| ==> result[j] == if HelperName(helpers[j]) == name1 then path else helpers[j]
    ensures found <==> name1 in Names(helpers)
  {
    result := helpers;
    found := false;
    var i := 0;
    while i < |result|
      invariant 0 <= i <= |result| == |helpers|
      invariant forall j :: 0 <= j < i ==> result[j] == if HelperName(helpers[j]) == name1 then path else helpers[j]
      invariant forall j :: i <= j < |result| ==> result[j] == helpers[j]
      invariant found <==> exists j :: 0 <= j < i && HelperName(helpers[j]) == name1
    {
      if name1 == FileName(result[i], false) {
        result := result[i := path];
        found := true;
      }
      i := i + 1;
    }
  }

  /**
   * `setCustomHelpers`' merge (index.js:251-275): the defaults, then each supplied helper in
   * order, appended when no entry has its name.
   */
  method MergeHelpers(dirname: string, newHelpers: Option<seq<string>>) returns (helpers: seq<string>)
    ensures helpers == HelperList(dirname, newHelpers)
  {
    helpers := Defaults(dirname);
    if newHelpers.Some? {
      var news := newHelpers.value;
      var n := 0;
      while n < |news|
        invariant 0 <= n <= |news|
        invariant helpers == MergeAsWritten(Defaults(dirname), news[..n])
      {
        var path := news[n];
        var name1 := FileName(path, false);
        var found;
        helpers, found := StoreMatchesBack(helpers, name1);
        if !found {
          helpers := helpers + [path];
        }
        assert news[..n + 1][..n] == news[..n];
        n := n + 1;
      }
      assert news[..|news|] == news;
    }
  }

  /** The same merge with the override stored. */
  method MergeHelpersOverriding(dirname: string, newHelpers: Option<seq<string>>) returns (helpers: seq<string>)
    ensures helpers == HelperListOverriding(dirname, newHelpers)
  {
    helpers := Defaults(dirname);
    if newHelpers.Some? {
      var news := newHelpers.value;
      var n := 0;
      while n < |news|
        invariant 0 <= n <= |news|
        invariant helpers == MergeOverriding(Defaults(dirname), news[..n])
      {
        var path := news[n];
        var name1 := FileName(path, false);
        ghost var before := helpers;
        var found;
        helpers, found := OverrideMatches(helpers, name1, path);
        if found {
          assert helpers == Replace(before, path);
        } else {
          assert helpers == before;
          helpers := helpers + [path];
        }
        assert news[..n + 1][..n] == news[..n];
        n := n + 1;
      }
      assert news[..|news|] == news;
    }
  }

  // ---------------------------------------------------------------------------------------
  // What the merges produce

  /** No name occurs twice. */
  predicate Distinct(s: seq<string>)
  {
    forall i, j :: 0 <= i < j < |s| ==> s[i] != s[j]
  }

  /** The set of elements of a sequence. */
  function Elements(s: seq<string>): set<string>
  {
    set x | x in s
  }

  /** The set of names of a helper list. */
  function NameSet(helpers: seq<string>): set<string>
  {
    Elements(Names(helpers))
  }

  /** No helper after position `i` is named `name`. */
  ghost predicate NoneNamedAfter(news: seq<string>, i: nat, name: string)
  {
    forall k :: i < k < |news| ==> HelperName(news[k]) != name
  }

  /** The last supplied helper named `name`, if any. */
  function Latest(news: seq<string>, name: string): (r: Option<string>)
    ensures r.Some? ==> r.value in news && HelperName(r.value) == name
    ensures r.None? <==> forall k :: 0 <= k < |news| ==> HelperName(news[k]) != name
    ensures r.Some? ==> exists i :: 0 <= i < |news| && r.value == news[i] && NoneNamedAfter(news, i, name)
    decreases |news|
  {
    if |news| == 0 then None
    else if HelperName(news[|news| - 1]) == name then
      assert NoneNamedAfter(news, |news| - 1, name);
      Some(news[|news| - 1])
    else
      var p := news[..|news| - 1];
      var r := Latest(p, name);
      assert forall k :: 0 <= k < |p| ==> p[k] == news[k];
      assert forall i :: 0 <= i < |p| && NoneNamedAfter(p, i, name) ==> NoneNamedAfter(news, i, name);
      r
  }

  lemma {:induction false} NamesAppend(helpers: seq<string>, path: string)
    ensures Names(helpers + [path]) == Names(helpers) + [HelperName(path)]
  {
  }

  lemma {:induction false} NamesReplace(helpers: seq<string>, path: string)
    ensures Names(Replace(helpers, path)) == Names(helpers)
  {
  }

  /** Both ways of adding a helper give the same names, which depend only on the old names. */
  lemma {:induction false} AddNames(x: seq<string>, y: seq<string>, path: string)
    requires Names(x) == Names(y)
    ensures Names(AddOverriding(x, path)) == Names(AddAsWritten(y, path))
  {
    NamesAppend(x, path);
    NamesAppend(y, path);
    NamesReplace(x, path);
  }

  /** The intended merge has the names, position by position, of the code's merge. */
  lemma {:induction false} MergesHaveSameNames(helpers: seq<string>, news: seq<string>)
    ensures Names(MergeOverriding(helpers, news)) == Names(MergeAsWritten(helpers, news))
    ensures |MergeOverriding(helpers, news)| == |MergeAsWritten(helpers, news)|
    decreases |news|
  {
    if |news| > 0 {
      var init := news[..|news| - 1];
      MergesHaveSameNames(helpers, init);
      AddNames(MergeOverriding(helpers, init), MergeAsWritten(helpers, init), news[|news| - 1]);
    }
  }

  /**
   * The code's merge keeps the starting list unchanged in front and only appends supplied
   * helpers after it.
   */
  lemma {:induction false} MergeAsWrittenKeepsDefaults(helpers: seq<string>, news: seq<string>)
    ensures var r := MergeAsWritten(helpers, news);
            |helpers| <= |r| && r[..|helpers|] == helpers &&
            forall j :: |helpers| <= j < |r| ==> r[j] in news
    decreases |news|
  {
    if |news| > 0 {
      var init := news[..|news| - 1];
      var prev := MergeAsWritten(helpers, init);
      MergeAsWrittenKeepsDefaults(helpers, init);
      var r := MergeAsWritten(helpers, news);
      assert r == prev || r == prev + [news[|news| - 1]];
      forall j | |helpers| <= j < |r| ensures r[j] in news {
        if j < |prev| {
          assert r[j] == prev[j];
          assert prev[j] in init;
        }
      }
    }
  }

  /** Exactly the names of the starting list and of the supplied helpers end up in the list. */
  lemma {:induction false} MergeNameSet(helpers: seq<string>, news: seq<string>)
    ensures NameSet(MergeAsWritten(helpers, news)) == NameSet(helpers) + NameSet(news)
    decreases |news|
  {
    if |news| > 0 {
      var init := news[..|news| - 1];
      var path := news[|news| - 1];
      var prev := MergeAsWritten(helpers, init);
      assert init + [path] == news;
      assert MergeAsWritten(helpers, news) == AddAsWritten(prev, path);
      MergeNameSet(helpers, init);
      NameSetAppend(init, path);
      NameSetAdd(prev, path);
      var a, b, c := NameSet(helpers), NameSet(init), {HelperName(path)};
      assert (a + b) + c == a + (b + c);
    }
  }

  lemma {:induction false} ElementsAppend(s: seq<string>, x: string)
    ensures Elements(s + [x]) == Elements(s) + {x}
  {
  }

  lemma {:induction false} NameSetAppend(helpers: seq<string>, path: string)
    ensures NameSet(helpers + [path]) == NameSet(helpers) + {HelperName(path)}
  {
    NamesAppend(helpers, path);
    ElementsAppend(Names(helpers), HelperName(path));
  }

  /** Adding one helper as the code does adds its name to the name set. */
  lemma {:induction false} NameSetAdd(helpers: seq<string>, path: string)
    ensures NameSet(AddAsWritten(helpers, path)) == NameSet(helpers) + {HelperName(path)}
  {
    if HelperName(path) !in Names(helpers) {
      NameSetAppend(helpers, path);
    }
  }

  /** A supplied helper is appended only when its name is new, so distinct names stay distinct. */
  lemma {:induction false} MergeKeepsNamesDistinct(helpers: seq<string>, news: seq<string>)
    requires Distinct(Names(helpers))
    ensures Distinct(Names(MergeAsWritten(helpers, news)))
    decreases |news|
  {
    if |news| > 0 {
      var init := news[..|news| - 1];
      var path := news[|news| - 1];
      var prev := MergeAsWritten(helpers, init);
      MergeKeepsNamesDistinct(helpers, init);
      if HelperName(path) !in Names(prev) {
        NamesAppend(prev, path);
      }
    }
  }

  /** A sequence without repetitions has as many elements as its set. */
  lemma {:induction false} DistinctCard(s: seq<string>)
    requires Distinct(s)
    ensures |Elements(s)| == |s|
    decreases |s|
  {
    if |s| > 0 {
      var init, last := s[..|s| - 1], s[|s| - 1];
      assert s == init + [last];
      DistinctCard(init);
      ElementsAppend(init, last);
      assert last !in init by {
        forall i | 0 <= i < |init| ensures init[i] != last {
          assert init[i] == s[i];
        }
      }
    }
  }

  /**
   * Starting from a list with distinct names, the final length is the starting length plus
   * the number of supplied names not already in it.
   */
  lemma {:induction false} MergeLength(helpers: seq<string>, news: seq<string>)
    requires Distinct(Names(helpers))
    ensures |MergeAsWritten(helpers, news)| == |helpers| + |NameSet(news) - NameSet(helpers)|
  {
    var r := MergeAsWritten(helpers, news);
    MergeKeepsNamesDistinct(helpers, news);
    MergeNameSet(helpers, news);
    DistinctCard(Names(r));
    DistinctCard(Names(helpers));
    var a, b := NameSet(helpers), NameSet(news);
    assert a + b == a + (b - a);
    assert a !! (b - a);
  }

  /**
   * The intended merge: an entry whose name some supplied helper has is the last such
   * helper, and an entry of the starting list that no supplied helper names is untouched.
   */
  lemma {:induction false} OverridingLastWins(helpers: seq<string>, news: seq<string>)
    ensures var r := MergeOverriding(helpers, news);
            forall j :: 0 <= j < |r| && Latest(news, HelperName(r[j])).Some? ==>
              r[j] == Latest(news, HelperName(r[j])).value
    ensures var r := MergeOverriding(helpers, news);
            |helpers| <= |r| &&
            forall j :: 0 <= j < |helpers| ==>
              HelperName(r[j]) == HelperName(helpers[j]) &&
              (Latest(news, HelperName(helpers[j])).None? ==> r[j] == helpers[j])
    decreases |news|
  {
    if |news| > 0 {
      var init := news[..|news| - 1];
      var path := news[|news| - 1];
      var prev := MergeOverriding(helpers, init);
      OverridingLastWins(helpers, init);
      var r := MergeOverriding(helpers, news);
      assert r == AddOverriding(prev, path);
      forall j | 0 <= j < |r| && Latest(news, HelperName(r[j])).Some?
        ensures r[j] == Latest(news, HelperName(r[j])).value
      {
        if HelperName(r[j]) != HelperName(path) {
          assert j < |prev| && r[j] == prev[j];
        }
      }
      forall j | 0 <= j < |helpers|
        ensures HelperName(r[j]) == HelperName(helpers[j])
        ensures Latest(news, HelperName(helpers[j])).None? ==> r[j] == helpers[j]
      {
        assert j < |prev|;
        if HelperName(prev[j]) != HelperName(path) {
          assert r[j] == prev[j];
        }
      }
    }
  }

  /**
   * `setCustomHelpers`' list: the three defaults in their places, followed by one entry for
   * each supplied name that is not a default's name.
   */
  lemma {:induction false} HelperListShape(dirname: string, newHelpers: Option<seq<string>>)
    ensures var r := HelperList(dirname, newHelpers);
            |r| >= 3 && r[..3] == Defaults(dirname) &&
            |r| == 3 + match newHelpers
                       case None => 0
                       case Some(news) => |NameSet(news) - NameSet(Defaults(dirname))|
  {
    DefaultNames(dirname);
    if newHelpers.Some? {
      MergeAsWrittenKeepsDefaults(Defaults(dirname), newHelpers.value);
      MergeLength(Defaults(dirname), newHelpers.value);
    }
  }

  // ---------------------------------------------------------------------------------------
  // The shadowed override

  /**
   * A supplied helper whose name is already in the list: the code returns the list
   * unchanged, the intended merge puts the helper in.
   */
  lemma {:induction false} NamedHelperDropped(helpers: seq<string>, path: string)
    requires HelperName(path) in Names(helpers)
    ensures MergeAsWritten(helpers, [path]) == helpers
    ensures path in MergeOverriding(helpers, [path])
  {
    assert [path][..0] == [];
    var i :| 0 <= i < |helpers| && Names(helpers)[i] == HelperName(path);
    assert Replace(helpers, path)[i] == path;
  }

  lemma {:induction false} RenderPartialPath(dirname: string)
    ensures dirname + "/vash-helpers/RenderPartial.vash" == (dirname + "/vash-helpers") + ['/'] + ("RenderPartial" + "." + "vash")
  {
  }

  lemma {:induction false} ForeachPath(dirname: string)
    ensures dirname + "/vash-helpers/foreach.vash" == (dirname + "/vash-helpers") + ['/'] + ("foreach" + "." + "vash")
  {
  }

  lemma {:induction false} LayoutContentPath(dirname: string)
    ensures dirname + "/vash-helpers/LayoutContent.vash" == (dirname + "/vash-helpers") + ['/'] + ("LayoutContent" + "." + "vash")
  {
  }

  lemma {:induction false} DefaultBasesPortable()
    ensures '\\' !in "RenderPartial" && '/' !in "RenderPartial"
    ensures '\\' !in "foreach" && '/' !in "foreach"
    ensures '\\' !in "LayoutContent" && '/' !in "LayoutContent"
    ensures '\\' !in "vash" && '/' !in "vash" && '.' !in "vash"
  {
  }

  /** Whatever the package directory, the defaults are named as their files. */
  lemma {:induction false} DefaultNames(dirname: string)
    ensures var d := Defaults(dirname);
            HelperName(d[0]) == "RenderPartial" && HelperName(d[1]) == "foreach" && HelperName(d[2]) == "LayoutContent"
    ensures Distinct(Names(Defaults(dirname)))
  {
    var dir := dirname + "/vash-helpers";
    RenderPartialPath(dirname);
    ForeachPath(dirname);
    LayoutContentPath(dirname);
    DefaultBasesPortable();
    FileNameOfJoinWithoutExtension(dir, '/', "RenderPartial", "vash");
    FileNameOfJoinWithoutExtension(dir, '/', "foreach", "vash");
    FileNameOfJoinWithoutExtension(dir, '/', "LayoutContent", "vash");
    DefaultNamesDiffer();
    var names := Names(Defaults(dirname));
    assert names[0] == "RenderPartial" && names[1] == "foreach" && names[2] == "LayoutContent";
    DistinctThree(names);
  }

  lemma {:induction false} DistinctThree(s: seq<string>)
    requires |s| == 3 && s[0] != s[1] && s[1] != s[2] && s[0] != s[2]
    ensures Distinct(s)
  {
  }

  lemma {:induction false} DefaultNamesDiffer()
    ensures "RenderPartial" != "foreach" && "foreach" != "LayoutContent" && "RenderPartial" != "LayoutContent"
  {
    assert |"RenderPartial"| != |"foreach"|;
    assert "foreach"[0] != "LayoutContent"[0];
    assert "RenderPartial"[0] != "LayoutContent"[0];
  }

  lemma {:induction false} ForeachOverridePath(path: string)
    requires path == "my/foreach.vash"
    ensures path == "my" + ['/'] + ("foreach" + "." + "vash") && |path| == 15
  {
  }

  /**
   * A user `foreach` helper: the code keeps the default `foreach.vash` and drops the user's,
   * where the intended merge puts the user's in place of the default.
   */
  lemma {:induction false} ForeachOverrideExample(dirname: string, path: string)
    requires path == "my/foreach.vash"
    ensures HelperList(dirname, Some([path])) == Defaults(dirname)
    ensures var d, r := Defaults(dirname), HelperListOverriding(dirname, Some([path]));
            |r| == 3 && r[0] == d[0] && r[1] == path && r[2] == d[2]
    ensures HelperList(dirname, Some([path])) != HelperListOverriding(dirname, Some([path]))
  {
    var d := Defaults(dirname);
    ForeachOverridePath(path);
    DefaultBasesPortable();
    FileNameOfJoinWithoutExtension("my", '/', "foreach", "vash");
    DefaultNames(dirname);
    assert HelperName(path) == "foreach" == Names(d)[1];
    NamedHelperDropped(d, path);
    assert [path][..0] == [];
    assert |d[1]| > |path|;
    var r := Replace(d, path);
    assert r[0] == d[0] && r[1] == path && r[2] == d[2];
  }
}
