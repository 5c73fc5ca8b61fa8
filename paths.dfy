/**
 * The path helpers of index.js: `getFileName` (index.js:209-218), `getModuleName`
 * (index.js:228-245) and `ensureTrainlingSlash` (index.js:346-349). Paths are taken as already
 * normalised; `path.normalize` is not part of this model.
 */
module Paths {
  import opened Options
  import opened JsStrings

  /**
   * `getFileName(filePath, inclExt)`: after turning backslashes into slashes, the text after the
   * last `/`; without `inclExt` it is cut at the last `.` of the whole path, with the index
   * rules of `slice` (a missing `.` reads as index -1).
   */
  function FileName(filePath: string, inclExt: bool): string
  {
    var p := Slash(filePath);
    var lastSlash := LastIndexOf(p, '/');
    if inclExt then Slice(p, lastSlash + 1, |p|)
    else Slice(p, lastSlash + 1, LastIndexOf(p, '.'))
  }

  /** The text after the last `/` of an already slashed path. */
  lemma {:induction false} FileNameIsLastSegment(filePath: string)
    ensures var p, ls := Slash(filePath), LastIndexOf(Slash(filePath), '/');
            FileName(filePath, true) == p[ls + 1..]
  {
  }

  /**
   * With the extension, the file name is the part of the slashed path after its last `/`:
   * a suffix without any slash, preceded by a `/` unless it is the whole path.
   */
  lemma {:induction false} FileNameWithExtension(filePath: string)
    ensures var p, r := Slash(filePath), FileName(filePath, true);
            '/' !in r && '\\' !in r && |r| <= |p| && p[|p| - |r|..] == r &&
            (|r| == |p| || p[|p| - |r| - 1] == '/')
  {
    var p := Slash(filePath);
    var ls := LastIndexOf(p, '/');
    FileNameIsLastSegment(filePath);
    SuffixWithout(p, '/', ls + 1);
    SuffixWithout(p, '\\', ls + 1);
  }

  /** A suffix free of `c` at every index has no `c`. */
  lemma {:induction false} SuffixWithout(p: string, c: char, k: nat)
    requires k <= |p| && forall j :: k <= j < |p| ==> p[j] != c
    ensures c !in p[k..]
  {
    forall j | 0 <= j < |p| - k ensures p[k..][j] != c {
      assert p[k..][j] == p[k + j];
    }
  }

  /**
   * Without the extension, three cases follow from the `slice` rules: a `.` in the file name
   * cuts it at its last `.`; a path without any `.` loses its last character (the end index
   * is -1); a `.` only in a directory name gives the empty string.
   */
  lemma {:induction false} FileNameWithoutExtension(filePath: string)
    ensures var name, r := FileName(filePath, true), FileName(filePath, false);
            ('.' in name ==> |r| < |name| && name[..|r|] == r && name[|r|] == '.' && '.' !in name[|r| + 1..])
    ensures var name, r := FileName(filePath, true), FileName(filePath, false);
            ('.' !in Slash(filePath) ==> r == (if |name| == 0 then [] else name[..|name| - 1]))
    ensures var name, r := FileName(filePath, true), FileName(filePath, false);
            ('.' in Slash(filePath) && '.' !in name ==> r == [])
  {
    var p := Slash(filePath);
    var ls := LastIndexOf(p, '/');
    var ld := LastIndexOf(p, '.');
    FileNameIsLastSegment(filePath);
    assert FileName(filePath, false) == Slice(p, ls + 1, ld);
    if ld > ls {
      CutAtLastDot(p, ls, ld);
    } else {
      NoDotInSegment(p, ls, ld);
    }
  }

  /** The last `.` lies after the last `/`: the slice stops just before it. */
  lemma {:induction false} CutAtLastDot(p: string, ls: int, ld: int)
    requires ls == LastIndexOf(p, '/') && ld == LastIndexOf(p, '.') && ld > ls
    ensures var name, r := p[ls + 1..], Slice(p, ls + 1, ld);
            |r| < |name| && name[..|r|] == r && name[|r|] == '.' && '.' !in name[|r| + 1..]
  {
    var name := p[ls + 1..];
    var d := ld - ls - 1;
    assert Slice(p, ls + 1, ld) == p[ls + 1..ld];
    assert name[d] == p[ld];
    assert forall t :: 0 <= t < d ==> name[..d][t] == p[ls + 1 + t];
    assert name[..d] == p[ls + 1..ld];
    assert name[d + 1..] == p[ld + 1..];
  }

  /** No `.` after the last `/`: the slice either drops the last character or is empty. */
  lemma {:induction false} NoDotInSegment(p: string, ls: int, ld: int)
    requires ls == LastIndexOf(p, '/') && ld == LastIndexOf(p, '.') && ld <= ls
    ensures '.' !in p[ls + 1..]
    ensures ld == -1 ==> Slice(p, ls + 1, ld) == (if |p[ls + 1..]| == 0 then [] else p[ls + 1..][..|p[ls + 1..]| - 1])
    ensures ld != -1 ==> Slice(p, ls + 1, ld) == []
  {
    forall j | ls + 1 <= j < |p| ensures p[j] != '.' {
      if ld == -1 {
        assert p[j] in p;
      }
    }
    SuffixWithout(p, '.', ls + 1);
    if ld == -1 {
      SliceToMinusOne(p, ls + 1);
    } else {
      assert p[ld] != p[ls];
    }
  }

  /** `slice(start, -1)` drops the last character of what follows `start`. */
  lemma {:induction false} SliceToMinusOne(p: string, start: nat)
    requires start <= |p|
    ensures Slice(p, start, -1) == (if |p[start..]| == 0 then [] else p[start..][..|p[start..]| - 1])
  {
    if start < |p| - 1 {
      assert p[start..][..|p[start..]| - 1] == p[start..|p| - 1];
    }
  }

  // ---------------------------------------------------------------------------------------
  // File names of concrete paths

  /** The last `c` of `a + [c] + b` is the one after `a` when `b` has none. */
  lemma {:induction false} LastIndexOfAfter(a: string, c: char, b: string)
    requires c !in b
    ensures LastIndexOf(a + [c] + b, c) == |a|
  {
    var s := a + [c] + b;
    assert s[|a|] == c;
  }

  /** Slashing `dir + [sep] + name`, with `sep` a separator of either kind and a portable name. */
  lemma {:induction false} SlashJoin(dir: string, sep: char, name: string)
    requires sep == '/' || sep == '\\'
    requires '\\' !in name
    ensures Slash(dir + [sep] + name) == Slash(dir) + "/" + name
  {
    SlashConcat(dir + [sep], name);
    SlashConcat(dir, [sep]);
    SlashWithout(name);
    assert Slash([sep]) == "/";
  }

  /** The file name of `dir/name` (or `dir\name`) is `name`. */
  lemma {:induction false} FileNameOfJoin(dir: string, sep: char, name: string)
    requires sep == '/' || sep == '\\'
    requires '\\' !in name && '/' !in name
    ensures FileName(dir + [sep] + name, true) == name
  {
    var d := Slash(dir);
    SlashJoin(dir, sep, name);
    LastIndexOfAfter(d, '/', name);
    FileNameIsLastSegment(dir + [sep] + name);
    assert (d + "/" + name)[|d| + 1..] == name;
  }

  /** Without the extension, the file name of `dir/base.ext` is `base` when `ext` has no `.`. */
  lemma {:induction false} FileNameOfJoinWithoutExtension(dir: string, sep: char, base: string, ext: string)
    requires sep == '/' || sep == '\\'
    requires '\\' !in base && '/' !in base && '\\' !in ext && '/' !in ext && '.' !in ext
    ensures FileName(dir + [sep] + (base + "." + ext), false) == base
  {
    var f := dir + [sep] + (base + "." + ext);
    var d := Slash(dir);
    SlashJoin(dir, sep, base + "." + ext);
    assert d + "/" + (base + "." + ext) == d + "/" + base + ['.'] + ext;
    FileNameOfSlashedParts(f, d, base, ext);
  }

  lemma {:induction false} FileNameOfSlashedParts(f: string, d: string, base: string, ext: string)
    requires Slash(f) == d + "/" + base + ['.'] + ext
    requires '/' !in base && '/' !in ext && '.' !in ext
    ensures FileName(f, false) == base
  {
    var p := Slash(f);
    var e := |d| + 1 + |base|;
    assert p == d + ['/'] + (base + ['.'] + ext);
    assert '/' !in base + ['.'] + ext;
    LastIndexOfAfter(d, '/', base + ['.'] + ext);
    LastIndexOfAfter(d + "/" + base, '.', ext);
    assert p[|d| + 1..e] == base;
  }

  /** The cases of spec/unit.js:100-107. */
  lemma {:induction false} FileNameExamples(windows: string, unix: string)
    requires windows == "example\\windows\\file.js" && unix == "example/unix/file.js"
    ensures FileName(windows, false) == "file" && FileName(unix, false) == "file"
    ensures FileName(windows, true) == "file.js" && FileName(unix, true) == "file.js"
  {
    assert windows == "example\\windows" + ['\\'] + ("file" + "." + "js");
    assert unix == "example/unix" + ['/'] + ("file" + "." + "js");
    assert "file" + "." + "js" == "file.js";
    FileNameOfJoinWithoutExtension("example\\windows", '\\', "file", "js");
    FileNameOfJoinWithoutExtension("example/unix", '/', "file", "js");
    FileNameOfJoin("example\\windows", '\\', "file.js");
    FileNameOfJoin("example/unix", '/', "file.js");
  }

  // ---------------------------------------------------------------------------------------
  // getModuleName

  /**
   * `getModuleName(filePath, type, inclFileName)`: the path is split at `dirType + "/"`. When the
   * file sits directly after the first `dirType/`, the result is the (optional) file name without
   * extension; otherwise it is the first `/`-separated part of the second piece, joined to the
   * file name with `/` when both are non-empty. Without any `dirType/` the second piece is
   * `undefined` and the call throws, which is `None` here.
   */
  function ModuleName(filePath: string, dirType: string, inclFileName: bool): Option<string>
  {
    var p := Slash(filePath);
    var fullFileName := FileName(p, true);
    var fileName := if inclFileName then FileName(p, false) else "";
    var parts := Split(p, dirType + "/");
    if parts[0] + dirType + "/" + fullFileName == p then Some(fileName)
    else if |parts| < 2 then None
    else
      var moduleName := Split(parts[1], "/")[0];
      Some(JoinModule(moduleName, fileName))
  }

  /** A module name and a file name, joined with `/` only when both are non-empty. */
  function JoinModule(moduleName: string, fileName: string): (r: string)
    ensures moduleName == [] ==> r == fileName
    ensures fileName == [] ==> r == moduleName
    ensures moduleName != [] && fileName != [] ==> r == moduleName + "/" + fileName
  {
    moduleName + (if moduleName != [] && fileName != [] then "/" else "") + fileName
  }

  /** What follows the first `dirType/` of a slashed path, if there is one. */
  function AfterType(p: string, dirType: string): (r: Option<string>)
    ensures r.None? <==> !Contains(p, dirType + "/")
    ensures r.Some? ==> exists i :: 0 <= i && i + |dirType| + 1 <= |p| && OccursAt(p, dirType + "/", i) && r.value == p[i + |dirType| + 1..]
  {
    match IndexOf(p, dirType + "/")
    case None => None
    case Some(i) => Some(p[i + |dirType| + 1..])
  }

  /**
   * `k` ends the module directory in `rest`: no `/` and no `sep` start before `k`, and at `k`
   * there is a `/` or an occurrence of `sep`.
   */
  predicate ModuleDirEnd(rest: string, sep: string, k: nat)
  {
    k < |rest| && '/' !in rest[..k] && (forall j :: 0 <= j < k ==> !OccursAt(rest, sep, j)) &&
    (rest[k] == '/' || OccursAt(rest, sep, k))
  }

  /** The file name after slashing is the file name. */
  lemma {:induction false} FileNameSlashed(filePath: string, inclExt: bool)
    ensures FileName(Slash(filePath), inclExt) == FileName(filePath, inclExt)
  {
    SlashWithout(Slash(filePath));
  }

  /** The call fails exactly when `dirType/` does not occur in the slashed path. */
  lemma {:induction false} ModuleNameFails(filePath: string, dirType: string, inclFileName: bool)
    ensures ModuleName(filePath, dirType, inclFileName).None? <==> !Contains(Slash(filePath), dirType + "/")
  {
    var p := Slash(filePath);
    var sep := dirType + "/";
    var full := FileName(p, true);
    match IndexOf(p, sep)
    case None =>
      SplitWithout(p, sep);
      assert |Split(p, sep)[0] + dirType + "/" + full| > |p|;
    case Some(i) =>
      SplitAt(p, sep, i);
  }

  /** How the path splits at its first `dirType/`. */
  lemma {:induction false} SplitAtType(p: string, dirType: string, i: nat)
    requires IndexOf(p, dirType + "/") == Some(i)
    ensures var parts, rest := Split(p, dirType + "/"), p[i + |dirType| + 1..];
            |parts| >= 2 && parts[1] == Split(rest, dirType + "/")[0] &&
            (parts[0] + dirType + "/" + FileName(p, true) == p <==> FileName(p, true) == rest)
  {
    SplitAfterType(p, dirType, i);
    RejoinAt(p, dirType, i, FileName(p, true));
  }

  /** `SplitAt` for the separator `dirType/`, with the rest written from `|dirType|`. */
  lemma {:induction false} SplitAfterType(p: string, dirType: string, i: nat)
    requires IndexOf(p, dirType + "/") == Some(i)
    ensures Split(p, dirType + "/") == [p[..i]] + Split(p[i + |dirType| + 1..], dirType + "/")
  {
    var sep := dirType + "/";
    SplitAt(p, sep, i);
    assert p[i + |sep|..] == p[i + |dirType| + 1..];
  }

  /** Putting `tail` back after the text before an occurrence of `dirType/` rebuilds `p` only with the original tail. */
  lemma {:induction false} RejoinAt(p: string, dirType: string, i: nat, tail: string)
    requires OccursAt(p, dirType + "/", i)
    ensures p[..i] + dirType + "/" + tail == p <==> tail == p[i + |dirType| + 1..]
  {
    var sep := dirType + "/";
    var rest := p[i + |sep|..];
    assert p == p[..i] + sep + rest;
    var joined := p[..i] + dirType + "/" + tail;
    assert joined == p[..i] + sep + tail;
    assert joined[i + |sep|..] == tail;
  }

  /** Once `dirType/` is found at `i`, the result depends only on what follows it. */
  lemma {:induction false} ModuleNameAfter(filePath: string, dirType: string, inclFileName: bool, i: nat)
    requires IndexOf(Slash(filePath), dirType + "/") == Some(i)
    ensures var p := Slash(filePath);
            var rest, f := p[i + |dirType| + 1..], (if inclFileName then FileName(filePath, false) else "");
            var m := Split(Split(rest, dirType + "/")[0], "/")[0];
            ModuleName(filePath, dirType, inclFileName) ==
              if FileName(p, true) == rest then Some(f) else Some(JoinModule(m, f))
  {
    SplitAtType(Slash(filePath), dirType, i);
    FileNameSlashed(filePath, false);
  }

  /** The character just before what follows `dirType/` is a `/`. */
  lemma {:induction false} SlashBeforeRest(p: string, dirType: string, i: nat)
    requires IndexOf(p, dirType + "/") == Some(i)
    ensures i + |dirType| < |p| && p[i + |dirType|] == '/'
  {
    assert p[i + |dirType|] == (dirType + "/")[|dirType|];
  }

  /** A file directly after `dirType/`: the result is the optional file name. */
  lemma {:induction false} ModuleNameOfFileUnderType(filePath: string, dirType: string, inclFileName: bool)
    requires var r := AfterType(Slash(filePath), dirType); r.Some? && '/' !in r.value
    ensures ModuleName(filePath, dirType, inclFileName) == Some(if inclFileName then FileName(filePath, false) else "")
  {
    var p := Slash(filePath);
    var i := IndexOf(p, dirType + "/").value;
    ModuleNameAfter(filePath, dirType, inclFileName, i);
    SlashBeforeRest(p, dirType, i);
    FileNameUnderSlash(p, i + |dirType|);
  }

  /** When the `/` at index `e` is the last one, the file name is what follows it. */
  lemma {:induction false} FileNameUnderSlash(p: string, e: nat)
    requires '\\' !in p && e < |p| && p[e] == '/' && '/' !in p[e + 1..]
    ensures FileName(p, true) == p[e + 1..]
  {
    FileNameIsLastSegment(p);
    SlashWithout(p);
    forall j | e < j < |p| ensures p[j] != '/' {
      assert p[j] == p[e + 1..][j - e - 1];
    }
  }

  /**
   * A file deeper below `dirType/`: the result is the module directory `rest[..k]`, joined to the
   * optional file name with `/` when both are non-empty.
   */
  lemma {:induction false} ModuleNameOfNestedFile(filePath: string, dirType: string, inclFileName: bool, k: nat)
    requires var r := AfterType(Slash(filePath), dirType); r.Some? && ModuleDirEnd(r.value, dirType + "/", k)
    ensures var m, f := AfterType(Slash(filePath), dirType).value[..k], (if inclFileName then FileName(filePath, false) else "");
            ModuleName(filePath, dirType, inclFileName) == Some(JoinModule(m, f))
  {
    var p := Slash(filePath);
    var sep := dirType + "/";
    var i := IndexOf(p, sep).value;
    var rest := p[i + |dirType| + 1..];
    assert AfterType(p, dirType).value == rest;
    assert ModuleDirEnd(rest, sep, k);
    ModuleNameAfter(filePath, dirType, inclFileName, i);
    ModuleDirOf(rest, sep, k);
    RestHasSlash(rest, sep, k);
    FileNameWithExtension(p);
    SlashWithout(p);
  }

  /** Where the module directory ends, a `/` follows at or after it. */
  lemma {:induction false} RestHasSlash(rest: string, sep: string, k: nat)
    requires |sep| > 0 && sep[|sep| - 1] == '/' && ModuleDirEnd(rest, sep, k)
    ensures '/' in rest
  {
    if rest[k] != '/' {
      assert rest[k + |sep| - 1] == sep[|sep| - 1];
    }
  }

  /** When something follows the module directory, the directory ends somewhere. */
  lemma {:induction false} ModuleDirEndExists(rest: string, sep: string)
    requires '/' in rest
    ensures exists k :: ModuleDirEnd(rest, sep, k)
  {
    var j :| 0 <= j < |rest| && rest[j] == '/';
    OccursAtChar(rest, '/', j);
    var s := IndexOf(rest, "/").value;
    OccursAtChar(rest, '/', s);
    forall q | 0 <= q < s ensures rest[q] != '/' {
      OccursAtChar(rest, '/', q);
    }
    var k := if IndexOf(rest, sep).Some? && IndexOf(rest, sep).value < s then IndexOf(rest, sep).value else s;
    forall q | 0 <= q < k ensures rest[..k][q] != '/' {
      assert rest[..k][q] == rest[q];
    }
    assert ModuleDirEnd(rest, sep, k);
  }

  /** The first `/`-part of the first `sep`-piece of `rest` ends where `ModuleDirEnd` says. */
  lemma {:induction false} ModuleDirOf(rest: string, sep: string, k: nat)
    requires |sep| > 0 && ModuleDirEnd(rest, sep, k)
    ensures Split(Split(rest, sep)[0], "/")[0] == rest[..k]
  {
    var piece := Split(rest, sep)[0];
    var j: nat := if IndexOf(rest, sep).Some? then IndexOf(rest, sep).value else |rest|;
    assert piece == rest[..j];
    assert k <= j;
    if j == k {
      SlashFreeHasNoSlash(piece);
      SplitWithout(piece, "/");
    } else {
      assert rest[k] == '/';
      forall q | 0 <= q < k ensures !OccursAt(piece, "/", q) {
        OccursAtChar(piece, '/', q);
        assert piece[q] == rest[..k][q];
      }
      OccursAtChar(piece, '/', k);
      IndexOfFromIs(piece, "/", 0, k);
      SplitAt(piece, "/", k);
    }
  }

  /** A string without `/` has no occurrence of "/". */
  lemma {:induction false} SlashFreeHasNoSlash(s: string)
    requires '/' !in s
    ensures !Contains(s, "/")
  {
    NotContainsByChar(s, "/", 0);
  }

  /** With a single `dirType/` in the path, the module name is the directory right after it. */
  lemma {:induction false} ModuleNameSingleType(filePath: string, dirType: string, inclFileName: bool, m: string, tail: string)
    requires AfterType(Slash(filePath), dirType) == Some(m + "/" + tail)
    requires '/' !in m && !Contains(m + "/" + tail, dirType + "/")
    ensures var f := if inclFileName then FileName(filePath, false) else "";
            ModuleName(filePath, dirType, inclFileName) == Some(JoinModule(m, f))
  {
    var rest := m + "/" + tail;
    assert rest[..|m|] == m;
    assert rest[|m|] == '/';
    ModuleNameOfNestedFile(filePath, dirType, inclFileName, |m|);
  }

  /** The first `dirType/` of `a + dirType + "/" + b`, when none begins earlier. */
  lemma {:induction false} AfterTypeOf(a: string, dirType: string, b: string)
    requires |dirType| > 0 && !Contains(a + dirType, dirType + "/") && '\\' !in a + dirType + "/" + b
    ensures Slash(a + dirType + "/" + b) == a + (dirType + "/") + b
    ensures AfterType(a + (dirType + "/") + b, dirType) == Some(b)
  {
    var sep := dirType + "/";
    assert a + dirType + "/" + b == a + sep + b;
    SlashWithout(a + sep + b);
    assert sep[..|sep| - 1] == dirType;
    IndexOfAfter(a, sep, b);
    assert (a + sep + b)[|a| + |sep|..] == b;
  }

  /**
   * A path `a dirType/ m/ mid/ base.ext` whose only `dirType/` is the one shown: its module
   * directory is `m` and its file name `base`.
   */
  lemma {:induction false} ModuleNameOfShape(a: string, dirType: string, m: string, mid: string, base: string, ext: string)
    requires |dirType| > 0 && !Contains(a + dirType, dirType + "/")
    requires var rest := m + "/" + mid + "/" + (base + "." + ext);
             '\\' !in a + dirType + "/" + rest && !Contains(rest, dirType + "/")
    requires '/' !in m && '/' !in base && '/' !in ext && '.' !in ext
    ensures var f := a + dirType + "/" + (m + "/" + mid + "/" + (base + "." + ext));
            ModuleName(f, dirType, false) == Some(m) &&
            ModuleName(f, dirType, true) == Some(JoinModule(m, base))
  {
    var leaf := base + "." + ext;
    var rest := m + "/" + mid + "/" + leaf;
    var f := a + dirType + "/" + rest;
    assert f == (a + dirType + "/" + m + "/" + mid) + ['/'] + leaf;
    assert rest == m + "/" + (mid + "/" + leaf);
    assert a + (dirType + "/") + rest == f;
    AfterTypeOf(a, dirType, rest);
    FileNameOfJoinWithoutExtension(a + dirType + "/" + m + "/" + mid, '/', base, ext);
    ModuleNameSingleType(f, dirType, false, m, mid + "/" + leaf);
    ModuleNameSingleType(f, dirType, true, m, mid + "/" + leaf);
    assert FileName(f, false) == base;
    assert JoinModule(m, "") == m;
  }

  /** The cases of spec/unit.js:207-208 and 211-212: a module directory below `wg/`. */
  lemma {:induction false} ModuleNameNestedExample(filePath: string, dirType: string)
    requires filePath == "app/wg/header/tmpl/Index.vash" && dirType == "wg"
    ensures ModuleName(filePath, dirType, false) == Some("header")
    ensures ModuleName(filePath, dirType, true) == Some("header/Index")
  {
    NestedExamplePieces(filePath, dirType);
    FirstTypeAfter("app/", dirType);
    NotContainsByChar("header/tmpl/Index.vash", dirType + "/", 0);
    ModuleNameOfShape("app/", dirType, "header", "tmpl", "Index", "vash");
  }

  /** The literal facts behind `ModuleNameNestedExample`, one small lemma each. */
  lemma {:induction false} NestedExamplePieces(filePath: string, dirType: string)
    requires filePath == "app/wg/header/tmpl/Index.vash" && dirType == "wg"
    ensures filePath == "app/" + dirType + "/" + ("header" + "/" + "tmpl" + "/" + ("Index" + "." + "vash"))
    ensures "header" + "/" + "Index" == "header/Index"
    ensures dirType[0] !in "app/" && dirType[0] !in "header/tmpl/Index.vash" && '\\' !in filePath
  {
    var rest := "header/tmpl/Index.vash";
    NestedPathAfterType(filePath, rest);
    NestedPathPortable(filePath);
    NestedRestPieces(rest);
    NestedExampleChars(rest);
  }

  lemma {:induction false} NestedPathAfterType(filePath: string, rest: string)
    requires filePath == "app/wg/header/tmpl/Index.vash" && rest == "header/tmpl/Index.vash"
    ensures filePath == "app/" + "wg" + "/" + rest
  {
  }

  lemma {:induction false} NestedPathPortable(filePath: string)
    requires filePath == "app/wg/header/tmpl/Index.vash"
    ensures '\\' !in filePath
  {
  }

  lemma {:induction false} NestedRestPieces(rest: string)
    requires rest == "header/tmpl/Index.vash"
    ensures rest == "header" + "/" + "tmpl" + "/" + ("Index" + "." + "vash")
  {
  }

  lemma {:induction false} NestedExampleChars(rest: string)
    requires rest == "header/tmpl/Index.vash"
    ensures 'w' !in rest && 'w' !in "app/" && "header" + "/" + "Index" == "header/Index"
  {
  }

  /**
   * A path `a dirType/ base.ext` with no `dirType/` before the one shown and no `/` after it:
   * there is no module directory, and the result is the optional file name.
   */
  lemma {:induction false} ModuleNameOfDirectShape(a: string, dirType: string, base: string, ext: string)
    requires |dirType| > 0 && !Contains(a + dirType, dirType + "/") && '\\' !in a + dirType + "/" + (base + "." + ext)
    requires '/' !in base && '/' !in ext && '.' !in ext
    ensures var f := a + dirType + "/" + (base + "." + ext);
            ModuleName(f, dirType, false) == Some("") && ModuleName(f, dirType, true) == Some(base)
  {
    var rest := base + "." + ext;
    var f := a + dirType + "/" + rest;
    assert '/' !in rest;
    assert a + (dirType + "/") + rest == f;
    assert f == (a + dirType) + ['/'] + rest;
    AfterTypeOf(a, dirType, rest);
    assert AfterType(Slash(f), dirType) == Some(rest);
    FileNameOfJoinWithoutExtension(a + dirType, '/', base, ext);
    ModuleNameOfFileUnderType(f, dirType, false);
    ModuleNameOfFileUnderType(f, dirType, true);
  }

  /** The cases of spec/unit.js:215-216 and 219-220: a file directly below `glb/`. */
  lemma {:induction false} ModuleNameDirectExample(filePath: string, dirType: string)
    requires filePath == "app/glb/_Layout.vash" && dirType == "glb"
    ensures ModuleName(filePath, dirType, false) == Some("")
    ensures ModuleName(filePath, dirType, true) == Some("_Layout")
  {
    DirectExamplePieces(filePath, dirType);
    FirstTypeAfter("app/", dirType);
    ModuleNameOfDirectShape("app/", dirType, "_Layout", "vash");
  }

  /** No `dirType/` begins in `a + dirType` when `a` lacks the first character of `dirType`. */
  lemma {:induction false} FirstTypeAfter(a: string, dirType: string)
    requires |dirType| > 0 && dirType[0] !in a
    ensures !Contains(a + dirType, dirType + "/")
  {
    var sep := dirType + "/";
    NoEarlyMatchByChar(a, sep);
    assert sep[..|sep| - 1] == dirType;
  }

  /** The example of the doc comment at index.js:222: `app/pg/home/tmpl/Index.vash` under `pg`. */
  lemma {:induction false} ModuleNamePageExample(filePath: string, dirType: string)
    requires filePath == "app/pg/home/tmpl/Index.vash" && dirType == "pg"
    ensures ModuleName(filePath, dirType, false) == Some("home")
    ensures ModuleName(filePath, dirType, true) == Some("home/Index")
  {
    var rest := "home/tmpl/Index.vash";
    PageExamplePieces(filePath, dirType, rest);
    PageExampleTypeOnce(dirType, rest);
    ModuleNameOfShape("app/", dirType, "home", "tmpl", "Index", "vash");
  }

  lemma {:induction false} PageExamplePieces(filePath: string, dirType: string, rest: string)
    requires filePath == "app/pg/home/tmpl/Index.vash" && dirType == "pg" && rest == "home/tmpl/Index.vash"
    ensures filePath == "app/" + dirType + "/" + ("home" + "/" + "tmpl" + "/" + ("Index" + "." + "vash"))
    ensures rest == "home" + "/" + "tmpl" + "/" + ("Index" + "." + "vash")
    ensures '\\' !in filePath && "home" + "/" + "Index" == "home/Index"
  {
    PagePathAfterType(filePath, rest);
    PageRestPieces(rest);
    PagePathPortable(filePath);
  }

  lemma {:induction false} PagePathAfterType(filePath: string, rest: string)
    requires filePath == "app/pg/home/tmpl/Index.vash" && rest == "home/tmpl/Index.vash"
    ensures filePath == "app/" + "pg" + "/" + rest
  {
  }

  lemma {:induction false} PageRestPieces(rest: string)
    requires rest == "home/tmpl/Index.vash"
    ensures rest == "home" + "/" + "tmpl" + "/" + ("Index" + "." + "vash")
    ensures "home" + "/" + "Index" == "home/Index"
  {
  }

  lemma {:induction false} PagePathPortable(filePath: string)
    requires filePath == "app/pg/home/tmpl/Index.vash"
    ensures '\\' !in filePath
  {
  }

  /**
   * `app/` itself ends in the `p` that starts `pg/`, so the first character is not enough here:
   * `pg/` does not overlap itself and `app/` lacks its `g`.
   */
  lemma {:induction false} PageExampleTypeOnce(dirType: string, rest: string)
    requires dirType == "pg" && rest == "home/tmpl/Index.vash"
    ensures !Contains("app/" + dirType, dirType + "/") && !Contains(rest, dirType + "/")
  {
    var sep := dirType + "/";
    assert sep[1] == 'g' && 'g' !in "app/" && 'g' !in rest;
    assert sep[0] !in sep[1..];
    NotContainsByChar("app/", sep, 1);
    NotContainsByChar(rest, sep, 1);
    NoEarlyMatchUnbordered("app/", sep);
    assert sep[..|sep| - 1] == dirType;
  }

  lemma {:induction false} DirectExamplePieces(filePath: string, dirType: string)
    requires filePath == "app/glb/_Layout.vash" && dirType == "glb"
    ensures filePath == "app/" + dirType + "/" + ("_Layout" + "." + "vash")
    ensures dirType[0] !in "app/" && '\\' !in filePath
  {
  }

  // ---------------------------------------------------------------------------------------
  // ensureTrainlingSlash

  /** `ensureTrainlingSlash(filePath)`: appends "/" unless `substr(length - 1)` already is "/". */
  function EnsureTrailingSlash(filePath: string): string
  {
    if Substr(filePath, |filePath| - 1) != "/" then filePath + "/" else filePath
  }

  /** The result ends in `/`; it is the input when that already did, else the input plus `/`. */
  lemma {:induction false} EnsureTrailingSlashEnds(filePath: string)
    ensures var r := EnsureTrailingSlash(filePath);
            |r| > 0 && r[|r| - 1] == '/'
    ensures |filePath| > 0 && filePath[|filePath| - 1] == '/' ==> EnsureTrailingSlash(filePath) == filePath
    ensures (|filePath| == 0 || filePath[|filePath| - 1] != '/') ==> EnsureTrailingSlash(filePath) == filePath + "/"
  {
    if |filePath| > 0 {
      assert Substr(filePath, |filePath| - 1) == [filePath[|filePath| - 1]];
    } else {
      assert Substr(filePath, -1) == [];
    }
  }

  /** Ensuring the slash twice is the same as once. */
  lemma {:induction false} EnsureTrailingSlashIdempotent(filePath: string)
    ensures EnsureTrailingSlash(EnsureTrailingSlash(filePath)) == EnsureTrailingSlash(filePath)
  {
    EnsureTrailingSlashEnds(filePath);
    EnsureTrailingSlashEnds(EnsureTrailingSlash(filePath));
  }
}
