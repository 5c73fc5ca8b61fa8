/**
 * `getDirTypeFromPath` (index.js:324-337): which of the configured directory types a template
 * path belongs to. The page type, a process-wide setting in index.js (index.js:18,
 * index.js:485-490), is a parameter here.
 *
 * The loop body's `return false` only leaves the `forEach` callback, so every entry is
 * examined and the last matching one is kept; the doc comment (index.js:319) promises the
 * first. `DirTypeFromPath` models the code as written, `FirstDirTypeFromPath` the promise.
 */
module DirTypes {
  import opened JsStrings

  /** `"/" + t + "/"` occurs in the (slashed) path. */
  predicate Marks(p: string, t: string)
  {
    IndexOf(p, "/" + t + "/").Some?
  }

  lemma {:induction false} MarksIsContains(p: string, t: string)
    ensures Marks(p, t) <==> Contains(p, "/" + t + "/")
  {
  }

  /** The last entry of `types` that marks `p`, or `pageType` when none does. */
  function LastMatch(p: string, types: seq<string>, pageType: string): string
    decreases |types|
  {
    if |types| == 0 then pageType
    else if Marks(p, types[|types| - 1]) then types[|types| - 1]
    else LastMatch(p, types[..|types| - 1], pageType)
  }

  /** The first entry of `types` that marks `p`, or `pageType` when none does. */
  function FirstMatch(p: string, types: seq<string>, pageType: string): string
    decreases |types|
  {
    if |types| == 0 then pageType
    else if Marks(p, types[0]) then types[0]
    else FirstMatch(p, types[1..], pageType)
  }

  /**
   * The code as written: every entry is tried in order and a match overwrites the current
   * type, starting from the page type.
   */
  method DirTypeFromPath(filePath: string, dirTypes: seq<string>, pageType: string) returns (dirType: string)
    ensures dirType == LastMatch(Slash(filePath), dirTypes, pageType)
  {
    var p := Slash(filePath);
    dirType := pageType;
    var i := 0;
    while i < |dirTypes|
      invariant 0 <= i <= |dirTypes|
      invariant dirType == LastMatch(p, dirTypes[..i], pageType)
    {
      if IndexOf(p, "/" + dirTypes[i] + "/").Some? {
        dirType := dirTypes[i];
      }
      assert dirTypes[..i + 1][..i] == dirTypes[..i];
      i := i + 1;
    }
    assert dirTypes[..|dirTypes|] == dirTypes;
  }

  /** The documented behaviour: the search stops at the first matching entry. */
  method FirstDirTypeFromPath(filePath: string, dirTypes: seq<string>, pageType: string) returns (dirType: string)
    ensures dirType == FirstMatch(Slash(filePath), dirTypes, pageType)
  {
    var p := Slash(filePath);
    dirType := pageType;
    var i := 0;
    while i < |dirTypes|
      invariant 0 <= i <= |dirTypes|
      invariant FirstMatch(p, dirTypes, pageType) == FirstMatch(p, dirTypes[i..], pageType)
    {
      if IndexOf(p, "/" + dirTypes[i] + "/").Some? {
        dirType := dirTypes[i];
        return;
      }
      assert dirTypes[i..][1..] == dirTypes[i + 1..];
      i := i + 1;
    }
  }

  // ---------------------------------------------------------------------------------------
  // What the two searches return

  /** No entry marks the path: both searches give the page type. */
  lemma {:induction false} NoMatchGivesPageType(p: string, types: seq<string>, pageType: string)
    requires forall k :: 0 <= k < |types| ==> !Contains(p, "/" + types[k] + "/")
    ensures LastMatch(p, types, pageType) == pageType
    ensures FirstMatch(p, types, pageType) == pageType
    decreases |types|
  {
    if |types| > 0 {
      NoMatchGivesPageType(p, types[..|types| - 1], pageType);
      NoMatchGivesPageType(p, types[1..], pageType);
    }
  }

  /** The entry at `k` marks the path and no later one does: the code returns it. */
  lemma {:induction false} LastMatchIs(p: string, types: seq<string>, pageType: string, k: nat)
    requires k < |types| && Contains(p, "/" + types[k] + "/")
    requires forall j :: k < j < |types| ==> !Contains(p, "/" + types[j] + "/")
    ensures LastMatch(p, types, pageType) == types[k]
    decreases |types|
  {
    if k < |types| - 1 {
      var init := types[..|types| - 1];
      assert init[k] == types[k];
      forall j | k < j < |init| ensures !Contains(p, "/" + init[j] + "/") {
        assert init[j] == types[j];
      }
      LastMatchIs(p, init, pageType, k);
    }
  }

  /** The entry at `k` marks the path and no earlier one does: the documented search returns it. */
  lemma {:induction false} FirstMatchIs(p: string, types: seq<string>, pageType: string, k: nat)
    requires k < |types| && Contains(p, "/" + types[k] + "/")
    requires forall j :: 0 <= j < k ==> !Contains(p, "/" + types[j] + "/")
    ensures FirstMatch(p, types, pageType) == types[k]
    decreases |types|
  {
    if k > 0 {
      var tail := types[1..];
      assert tail[k - 1] == types[k];
      forall j | 0 <= j < k - 1 ensures !Contains(p, "/" + tail[j] + "/") {
        assert tail[j] == types[j + 1];
      }
      FirstMatchIs(p, tail, pageType, k - 1);
    }
  }

  /**
   * The code's result is the page type or a listed entry that marks the path, and it is the
   * page type whenever no entry marks it.
   */
  lemma {:induction false} LastMatchCases(p: string, types: seq<string>, pageType: string)
    ensures var r := LastMatch(p, types, pageType);
            r == pageType || exists k :: 0 <= k < |types| && types[k] == r && Contains(p, "/" + r + "/")
    ensures (exists k :: 0 <= k < |types| && Contains(p, "/" + types[k] + "/")) ==>
            exists k :: 0 <= k < |types| && types[k] == LastMatch(p, types, pageType) &&
                        Contains(p, "/" + types[k] + "/") &&
                        forall j :: k < j < |types| ==> !Contains(p, "/" + types[j] + "/")
    decreases |types|
  {
    if |types| > 0 {
      var n := |types| - 1;
      var init := types[..n];
      LastMatchCases(p, init, pageType);
      if Marks(p, types[n]) {
        assert types[n] == LastMatch(p, types, pageType);
      } else {
        var r := LastMatch(p, init, pageType);
        if r != pageType {
          var k :| 0 <= k < |init| && init[k] == r && Contains(p, "/" + r + "/");
          assert types[k] == r;
        }
        if exists k :: 0 <= k < |types| && Contains(p, "/" + types[k] + "/") {
          var k :| 0 <= k < |types| && Contains(p, "/" + types[k] + "/");
          assert k < n;
          assert init[k] == types[k];
          var m :| 0 <= m < |init| && init[m] == LastMatch(p, init, pageType) &&
                   Contains(p, "/" + init[m] + "/") &&
                   forall j :: m < j < |init| ==> !Contains(p, "/" + init[j] + "/");
          assert types[m] == init[m];
          forall j | m < j < |types| ensures !Contains(p, "/" + types[j] + "/") {
            if j < n {
              assert types[j] == init[j];
            }
          }
        }
      }
    }
  }

  /** When at most one entry marks the path, the code agrees with its documentation. */
  lemma {:induction false} SearchesAgreeOnSingleMatch(p: string, types: seq<string>, pageType: string)
    requires forall j, k :: 0 <= j < k < |types| && Contains(p, "/" + types[j] + "/") ==> !Contains(p, "/" + types[k] + "/")
    ensures LastMatch(p, types, pageType) == FirstMatch(p, types, pageType)
  {
    if exists k :: 0 <= k < |types| && Contains(p, "/" + types[k] + "/") {
      var k :| 0 <= k < |types| && Contains(p, "/" + types[k] + "/");
      forall j | k < j < |types| ensures !Contains(p, "/" + types[j] + "/") {
      }
      forall j | 0 <= j < k ensures !Contains(p, "/" + types[j] + "/") {
      }
      LastMatchIs(p, types, pageType, k);
      FirstMatchIs(p, types, pageType, k);
    } else {
      NoMatchGivesPageType(p, types, pageType);
    }
  }

  /** Two different matching entries: the code returns the later, the documentation the earlier. */
  lemma {:induction false} SearchesDisagreeOnTwoMatches(p: string, a: string, b: string, pageType: string)
    requires Contains(p, "/" + a + "/") && Contains(p, "/" + b + "/") && a != b
    ensures LastMatch(p, [a, b], pageType) == b
    ensures FirstMatch(p, [a, b], pageType) == a
    ensures LastMatch(p, [a, b], pageType) != FirstMatch(p, [a, b], pageType)
  {
    LastMatchIs(p, [a, b], pageType, 1);
    FirstMatchIs(p, [a, b], pageType, 0);
  }

  // ---------------------------------------------------------------------------------------
  // Concrete paths

  /** Slashing commutes with taking a slice. */
  lemma {:induction false} SlashSlice(s: string, i: nat, j: nat)
    requires i <= j <= |s|
    ensures Slash(s)[i..j] == Slash(s[i..j])
  {
  }

  lemma {:induction false} WidgetPathFacts(filePath: string)
    requires filePath == "dev/app/wg/header/tmpl/Index.vash"
    ensures '\\' !in filePath && 'b' !in filePath && filePath[7..11] == "/wg/"
  {
    WidgetPathSlice(filePath);
  }

  lemma {:induction false} WidgetPathSlice(filePath: string)
    requires filePath == "dev/app/wg/header/tmpl/Index.vash"
    ensures filePath[7..11] == "/wg/"
  {
    assert filePath[7] == '/' && filePath[8] == 'w' && filePath[9] == 'g' && filePath[10] == '/';
  }

  /** The case of spec/unit.js:188-190: a widget path. */
  lemma {:induction false} WidgetPathExample(filePath: string, types: seq<string>)
    requires filePath == "dev/app/wg/header/tmpl/Index.vash" && types == ["pg", "wg", "glb"]
    ensures LastMatch(Slash(filePath), types, "pg") == "wg"
  {
    WidgetPathFacts(filePath);
    assert "/" + types[1] + "/" == "/wg/";
    assert ("/" + types[2] + "/")[3] == 'b';
    SlashWithout(filePath);
    ContainsSlice(filePath, 7, 11);
    NotContainsByChar(filePath, "/" + types[2] + "/", 3);
    LastMatchIs(filePath, types, "pg", 1);
  }

  lemma {:induction false} GlobalPathFacts(filePath: string)
    requires filePath == "dev\\app\\glb\\_Layout.vash"
    ensures 12 <= |filePath| && filePath[7..12] == "\\glb\\"
  {
  }

  /** The case of spec/unit.js:192-194: a global template given with backslashes. */
  lemma {:induction false} GlobalPathExample(filePath: string, types: seq<string>)
    requires filePath == "dev\\app\\glb\\_Layout.vash" && types == ["pg", "wg", "glb"]
    ensures LastMatch(Slash(filePath), types, "pg") == "glb"
  {
    GlobalPathFacts(filePath);
    assert "/" + types[2] + "/" == "/glb/";
    var p := Slash(filePath);
    SlashSlice(filePath, 7, 12);
    assert Slash("\\glb\\") == "/glb/";
    ContainsSlice(p, 7, 12);
    LastMatchIs(p, types, "pg", 2);
  }

  lemma {:induction false} UnknownPathFacts(filePath: string)
    requires filePath == "dev/app/xxxx/header/tmpl/Index.vash"
    ensures '\\' !in filePath && 'g' !in filePath
  {
  }

  /** The case of spec/unit.js:196-198: no listed type in the path gives the page type. */
  lemma {:induction false} UnknownPathExample(filePath: string, types: seq<string>)
    requires filePath == "dev/app/xxxx/header/tmpl/Index.vash" && types == ["pg", "wg", "glb"]
    ensures LastMatch(Slash(filePath), types, "pg") == "pg"
  {
    UnknownPathFacts(filePath);
    SlashWithout(filePath);
    assert ("/" + types[0] + "/")[2] == 'g' && ("/" + types[1] + "/")[2] == 'g' && ("/" + types[2] + "/")[1] == 'g';
    NotContainsByChar(filePath, "/" + types[0] + "/", 2);
    NotContainsByChar(filePath, "/" + types[1] + "/", 2);
    NotContainsByChar(filePath, "/" + types[2] + "/", 1);
    NoMatchGivesPageType(filePath, types, "pg");
  }

  lemma {:induction false} NestedTypesFacts(filePath: string)
    requires filePath == "app/pg/wg/x.vash"
    ensures '\\' !in filePath && filePath[3..7] == "/pg/" && filePath[6..10] == "/wg/"
  {
  }

  /** A page path below a `wg` directory: the code answers `wg` where the documentation says `pg`. */
  lemma {:induction false} NestedTypesExample(filePath: string, types: seq<string>)
    requires filePath == "app/pg/wg/x.vash" && types == ["pg", "wg"]
    ensures LastMatch(Slash(filePath), types, "pg") == "wg"
    ensures FirstMatch(Slash(filePath), types, "pg") == "pg"
  {
    NestedTypesFacts(filePath);
    assert "/" + "pg" + "/" == "/pg/" && "/" + "wg" + "/" == "/wg/";
    SlashWithout(filePath);
    ContainsSlice(filePath, 3, 7);
    ContainsSlice(filePath, 6, 10);
    SearchesDisagreeOnTwoMatches(filePath, "pg", "wg", "pg");
  }
}
