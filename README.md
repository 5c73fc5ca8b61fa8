# vash-static string, path and helper-list core in Dafny

vash-static precompiles Razor-style vash templates into a template cache. This project models
its deterministic core: the text and list routines of `index.js`. Each model is stated in
Dafny and its properties are proved.

- `RegexEscape` (`regSlash`) escapes `?` and `*` so that a marker can be put in a regular
  expression.
- `RazorSyntax` (`normalizeRazorSyntax`) rewrites a template for vash. It deletes every ignore
  span, from the start marker to the nearest end marker after it. It then deletes every
  `@*`...`*@` comment. Last, it renames `Html.Raw`, `.Length` and `.Count`. The regular-expression
  passes are modelled as literal span removal (`StripSpans`). That removal is proved equal to a
  character-by-character model of a global, lazy `replace` (`GlobalRemove`).
- `Paths` covers three helpers:
  - `getFileName`: the last path segment, optionally cut at the last `.` with the index rules
    of `slice`;
  - `getModuleName`: the directory right after the first `type/`, optionally joined to the file
    name;
  - `ensureTrainlingSlash`.
- `DirTypes` (`getDirTypeFromPath`) is a loop over the configured directory types. It keeps
  the last type whose `/type/` occurs in the path.
- `Helpers` (the merge in `setCustomHelpers`) is a pair of nested loops over the helper list,
  with a `found` flag.

`JsStrings` gives the JavaScript primitives these routines are built from: `indexOf`,
`lastIndexOf`, `slice`, `substr`, `split`/`join`, and the `slash` package's backslash
conversion. `Options` gives the `Option` type. Process-wide settings become parameters:
- the ignore markers (`startIgnore`, `endIgnore`);
- the page directory type (`pgDirType`);
- the package directory (`__dirname`).

Where the code and its comments disagree, the model follows the code. It also gives the
behaviour the comments describe, and proves how the two differ (see "## Findings").

## Model

| member | source | states |
|---|---|---|
| RegexEscape.RegSlash | index.js:27-32 | definition of `regSlash`: when a `?` occurs, every `?` is replaced by `\?` with `split`/`join`; then, when a `*` occurs, every `*` by `\*`; its meaning is stated by the lemmas below |
| RegexEscape.RegSlashEscapesEach | index.js:27-32 | `regSlash` equals the character-wise escape: each `?` becomes `\?`, each `*` becomes `\*`, and every other character is kept |
| RegexEscape.RegSlashUnchanged | index.js:27-32 | a string with neither `?` nor `*` is returned unchanged |
| RegexEscape.UnescapeRegSlash | index.js:27-32 | the escaping loses nothing: dropping each backslash put before `?` or `*` gives back the original string |
| RegexEscape.ReplaceCharIsMapChar | index.js:28-29 | `split(c).join(rep)` with a one-character separator replaces every `c` by `rep` and keeps the rest |
| RegexEscape.RegSlashExamples | spec/unit.js:114-117 | `"?"` escapes to `"\?"` and `"*"` to `"\*"` |
| RazorSyntax.NormalizeRazorSyntax | index.js:183-200 | definition of `normalizeRazorSyntax`: removes the ignore spans, then the `@*`...`*@` comments, then renames `Html.Raw`, `.Length`, `.Count` in that order |
| RazorSyntax.StripSpans | index.js:187-192 | definition of one `replace(new RegExp(open + "[\s\S]*?" + close, "g"), "")` pass: repeatedly cut the span given by `NextSpan`, keeping what precedes it |
| RazorSyntax.RenameCSharp | index.js:195-197 | definition of the three renames, each a global replacement of the literal name |
| RazorSyntax.NextSpan | index.js:187-188 | the span to cut starts at the first start marker; it ends right after the nearest end marker that begins after that start marker; there is no span exactly when no end marker begins after any start marker |
| RazorSyntax.StripSpansIsGlobalRemove | index.js:187-192 | the span removal equals a scan that, at each position, drops the lazy match of `open[\s\S]*?close` if one starts there and otherwise keeps the character |
| RazorSyntax.MatchAtSpan | index.js:187 | the lazy match starting at a start marker ends right after the nearest end marker that follows it |
| RazorSyntax.GlobalRemoveNoMatch | index.js:187-188 | when no end marker follows any start marker, the global replace keeps the text |
| RazorSyntax.StripSpansCutsSpan | index.js:187-188 | in `a + open + m + close + b`, where no start marker begins in `a` or across its end and no end marker begins in `m` or across its end, the span `open + m + close` is deleted whatever `m` holds (line breaks included), and removal goes on in `b` |
| RazorSyntax.StripSpansKeepsUnclosed | index.js:187-188 | text in which no end marker begins after any start marker is unchanged |
| RazorSyntax.StripSpansWithout | index.js:187-188 | text without the start marker is unchanged |
| RazorSyntax.NormalizeRemovesIgnoreSpan | index.js:183-200 | `"1" + start + m + end` normalises to `"1"` for any non-empty markers, the start marker not beginning with `1`, and any `m` in which no end marker begins (inside `m` or across its end) |
| RazorSyntax.NormalizeIgnoreExamples | spec/unit.js:24-27 | the ignore cases of spec/unit.js:24-27 and 41-57 (one line, several lines, custom markers) all give `"1"` |
| RazorSyntax.NormalizeCommentExample | spec/unit.js:29-32 | a block comment over several lines is removed: `"1@*2\n3\n4*@"` gives `"1"` |
| RazorSyntax.CommentsFirstKeepsIgnored | index.js:187-192 | the order of the passes matters: removing comments first would leave the text of an ignore span (`"12"`, not `"1"`) |
| RazorSyntax.RenameCSharpRemovesNames | index.js:195-197 | after the three renames, no `Html.Raw`, `.Length` or `.Count` is left, since no replacement text can form one of these names |
| RazorSyntax.NormalizeRemovesCSharpNames | index.js:183-200 | the normalised template contains none of `Html.Raw`, `.Length`, `.Count` |
| RazorSyntax.NormalizeUnchanged | index.js:183-200 | a template without the ignore marker, without `@*` and without the three names comes back unchanged |
| RazorSyntax.NoCommentOpenerNoSpans | index.js:187-192 | a template without `@*` passes both span removals with the default markers unchanged |
| RazorSyntax.PlainWithout | index.js:187-197 | text without `@`, `H` and `.` holds no `@*` and none of the three names |
| RazorSyntax.NormalizeRenamesHtmlRaw | index.js:183-200 | for any `a` and `b` holding no `@*` and none of `Html.Raw`, `.Length`, `.Count`, `a + "Html.Raw" + b` normalises with the default markers to `a + "Html.raw" + b` |
| RazorSyntax.NormalizeRenamesLength | index.js:183-200 | for any such `a` and `b`, `a + ".Length" + b` normalises with the default markers to `a + ".length" + b` |
| RazorSyntax.NormalizeRenamesCount | index.js:183-200 | for any such `a` and `b`, `a + ".Count" + b` normalises with the default markers to `a + ".length" + b` |
| RazorSyntax.CountAvoidsHtmlRaw | index.js:195-197 | putting `.Count` between two texts without `Html.Raw` forms no `Html.Raw` |
| RazorSyntax.NormalizeHtmlRawExample | spec/unit.js:35 | `"Html.Raw()"` gives `"Html.raw()"` |
| RazorSyntax.NormalizeLengthExample | spec/unit.js:36 | `"a.Length"` gives `"a.length"` |
| RazorSyntax.NormalizeCountExample | spec/unit.js:37 | `"b.Count"` gives `"b.length"` |
| RazorSyntax.DefaultMarkersAreComments | index.js:20-21 | each default ignore marker is itself an `@*`...`*@` comment |
| RazorSyntax.CommentsAroundText | index.js:191-192 | in `u + "@*" + x + "*@" + v + "@*" + y + "*@"`, where `u` and `v` hold no `@*` and `x` and `y` no `*@`, both comments are removed and `u + v` is kept |
| Paths.FileName | index.js:209-218 | definition of `getFileName`: slash the path, then `slice` from after the last `/`, to the end or, without the extension, to the last `.` of the whole path, with JavaScript's rules for negative and reversed indices |
| Paths.FileNameIsLastSegment | index.js:209-214 | with the extension, the file name is what follows the last `/` of the slashed path |
| Paths.FileNameWithExtension | index.js:209-214 | with the extension, the file name is a suffix of the slashed path with no `/` or `\`, preceded by `/` unless it is the whole path |
| Paths.FileNameWithoutExtension | index.js:209-218 | without the extension: a `.` in the last segment cuts it at its last `.`; a path without `.` loses its last character (`slice` end -1); a `.` only in a directory name gives `""` |
| Paths.FileNameOfJoin | index.js:209-214 | the file name of `dir/name` or `dir\name` is `name` |
| Paths.FileNameOfJoinWithoutExtension | index.js:209-218 | without the extension, the file name of `dir/base.ext` is `base` when `ext` has no `.` |
| Paths.FileNameSlashed | index.js:210 | slashing a path first does not change its file name |
| Paths.FileNameExamples | spec/unit.js:100-108 | `example\windows\file.js` and `example/unix/file.js` both give `file` and `file.js` |
| Paths.ModuleName | index.js:228-245 | definition of `getModuleName`: the optional file name when the first piece of the split at `type/`, then `type/`, then the full file name spell the path; missing when there is no second piece (the code throws); otherwise the first `/`-part of the second piece joined to the optional file name |
| Paths.JoinModule | index.js:244 | module and file name are joined with `/` only when both are non-empty; otherwise the result is whichever is non-empty |
| Paths.AfterType | index.js:235-241 | the text after the first `type/` is missing exactly when `type/` does not occur |
| Paths.ModuleNameFails | index.js:235-242 | `getModuleName` fails (reads `split(...)[1]` of a one-piece split) exactly when `type/` does not occur in the slashed path |
| Paths.ModuleNameAfter | index.js:235-244 | once `type/` is found, the result is the optional file name when only the file name follows, and otherwise the first directory after it joined to the optional file name |
| Paths.ModuleNameOfFileUnderType | index.js:237-238 | a file directly after the first `type/` gives the file name without extension, or `""` |
| Paths.ModuleNameOfNestedFile | index.js:240-244 | otherwise the module name is what follows `type/` up to the first `/` or the next `type/`, joined to the optional file name |
| Paths.ModuleDirEndExists | index.js:240-242 | a module directory end exists whenever a `/` follows the first `type/` |
| Paths.ModuleDirOf | index.js:241-242 | the first `/`-part of the piece after `type/` ends where the module directory ends |
| Paths.ModuleNameSingleType | index.js:240-244 | with a single `type/`, the module name is the directory right after it |
| Paths.ModuleNameOfShape | index.js:228-245 | a path `a type/ m/ mid/ base.ext` whose only `type/` is the one shown (none begins in `a + type` or in what follows), with no `\`, `m` and `base` without `/` and `ext` without `/` or `.`, gives `m`, and with the file name `m/base` |
| Paths.ModuleNameOfDirectShape | index.js:228-245 | a path `a type/ base.ext` with no `type/` beginning in `a + type`, no `\`, and `base` and `ext` as above, gives `""`, and with the file name `base` |
| Paths.ModuleNamePageExample | index.js:220-222 | the doc comment's `app/pg/home/tmpl/Index.vash` under `pg` gives `home`, and with the file name `home/Index` |
| Paths.ModuleNameNestedExample | spec/unit.js:206-212 | `app/wg/header/tmpl/Index.vash` under `wg` gives `header` and `header/Index` |
| Paths.ModuleNameDirectExample | spec/unit.js:214-220 | `app/glb/_Layout.vash` under `glb` gives `""` and `_Layout` |
| Paths.EnsureTrailingSlash | index.js:346-349 | definition of `ensureTrainlingSlash`: appends `/` unless `substr(-1)` is already `/` |
| Paths.EnsureTrailingSlashEnds | index.js:346-349 | the result ends in `/`; it is the input when the input already did, else the input plus `/` |
| Paths.EnsureTrailingSlashIdempotent | index.js:346-349 | ensuring the trailing slash twice is the same as once |
| DirTypes.LastMatch | index.js:324-337 | definition of what the loop computes: the last listed type whose `/type/` occurs in the path, or the page type |
| DirTypes.FirstMatch | index.js:318-323 | definition of what the doc comment describes: the first listed type whose `/type/` occurs, or the page type |
| DirTypes.DirTypeFromPath | index.js:324-337 | the loop returns the last listed type whose `/type/` occurs in the slashed path, or the page type |
| DirTypes.FirstDirTypeFromPath | index.js:318-323 | the documented search returns the first listed type whose `/type/` occurs, or the page type |
| DirTypes.MarksIsContains | index.js:330 | `indexOf("/" + t + "/") !== -1` holds exactly when `/t/` occurs |
| DirTypes.NoMatchGivesPageType | index.js:328-336 | with no listed type in the path, both searches give the page type |
| DirTypes.LastMatchIs | index.js:328-336 | a matching entry with no matching entry after it is the result |
| DirTypes.FirstMatchIs | index.js:318-323 | a matching entry with no matching entry before it is the documented result |
| DirTypes.LastMatchCases | index.js:328-336 | the result is the page type or a listed entry that occurs in the path; when any entry matches, it is the last matching one |
| DirTypes.SearchesAgreeOnSingleMatch | index.js:318-336 | when at most one entry matches, the code and its documentation agree |
| DirTypes.SearchesDisagreeOnTwoMatches | index.js:318-336 | for the list `[a, b]` of two different entries that both match, the code gives `b` and the documentation `a` |
| DirTypes.WidgetPathExample | spec/unit.js:188-190 | `dev/app/wg/header/tmpl/Index.vash` gives `wg` |
| DirTypes.GlobalPathExample | spec/unit.js:192-194 | `dev\app\glb\_Layout.vash` gives `glb` |
| DirTypes.UnknownPathExample | spec/unit.js:196-198 | `dev/app/xxxx/header/tmpl/Index.vash` gives the page type `pg` |
| DirTypes.NestedTypesExample | index.js:318-336 | `app/pg/wg/x.vash` with types `pg`, `wg` gives `wg` from the code and `pg` by the documentation |
| Helpers.MergeAsWritten | index.js:258-273 | definition of the merge as written: each supplied helper, in order, is appended when no listed entry has its name and dropped otherwise |
| Helpers.HelperList | index.js:248-275 | definition of the list `setCustomHelpers` builds: the three defaults, merged with the supplied helpers when there are any |
| Helpers.HelperListOverriding | index.js:248-275 | definition of the list as intended: the defaults, with each supplied helper replacing the entries of its name or appended when there are none |
| Helpers.Latest | index.js:258-273 | the result is a supplied helper with the given name, and no supplied helper after it has that name; it is missing exactly when no supplied helper has the name |
| Helpers.StoreMatchesBack | index.js:262-270 | the inner loop as written leaves the list unchanged, and sets `found` exactly when some entry has the name |
| Helpers.OverrideMatches | index.js:262-270 | the inner loop as intended replaces every entry with the name by the supplied helper, and sets `found` exactly when there was one |
| Helpers.MergeHelpers | index.js:251-275 | the method's list is the list of the code's merge; without supplied helpers it is the defaults |
| Helpers.MergeHelpersOverriding | index.js:251-275 | the method's list is the list of the overriding merge |
| Helpers.MergeAsWrittenKeepsDefaults | index.js:251-275 | the starting list stays in front, unchanged, and only supplied helpers are appended |
| Helpers.MergeNameSet | index.js:251-275 | the names in the result are exactly the starting names plus the supplied names |
| Helpers.MergeKeepsNamesDistinct | index.js:262-273 | a helper is appended only under a new name, so distinct names stay distinct |
| Helpers.MergeLength | index.js:251-275 | from distinct names, the length is the starting length plus the number of supplied names not already present |
| Helpers.HelperListShape | index.js:251-275 | the defaults keep their three places, and the length is 3 plus the number of supplied names that are not default names |
| Helpers.DefaultNames | index.js:251-255 | the defaults are named `RenderPartial`, `foreach` and `LayoutContent`, all different |
| Helpers.MergesHaveSameNames | index.js:251-275 | the code's merge and the overriding merge have the same names at the same positions |
| Helpers.OverridingLastWins | index.js:264-266 | in the overriding merge, an entry named by a supplied helper is the last such helper; defaults keep their positions and names, and a default nobody names is untouched |
| Helpers.NamedHelperDropped | index.js:262-267 | as written, a supplied helper whose name is already listed is dropped; the overriding merge puts it in |
| Helpers.ForeachOverrideExample | index.js:251-275 | a user `my/foreach.vash` leaves the code's list equal to the defaults; the overriding merge puts it in the second place |

## Left out

- File-system access, the template cache, model prepending and compilation are not part of
  this model: `loadTmplCache`, `getTemplateFromCache` (which uses `eval`), `prependModels`,
  `normalizeTemplate`, `updateCache` and `precompileTemplateCache`.
- The reading of the helper files and `vash.compileHelper` in `setCustomHelpers`
  (index.js:277-288) and the other calls into vash are not modelled; they are foreign code.
- Logging through `log-saviour` is left out; it has no effect on results.
- `path.normalize` (index.js:230) is not modelled; paths are taken as already normalised.
- `slash` is modelled as turning every backslash into `/`. The package's own exception for
  extended-length Windows paths is not modelled.
- RazorSyntax.StripSpans: reads the markers literally. This matches the regular expression
  only for markers whose sole metacharacters are `?` and `*`, which `regSlash` escapes (as
  with the defaults at index.js:20-21). Other metacharacters in a custom marker are not
  modelled.
- `tmpl.toString()` (index.js:184) is not modelled; templates are strings already.
- JsStrings.Split: requires a non-empty separator. Every call in the modelled code passes one;
  JavaScript's empty-separator split is not modelled.
- The process-wide settings `pgDirType`, `startIgnore`, `endIgnore` and `models`
  (index.js:17-21) and their setters are parameters; setting them is not modelled.
- The template names built from `getModuleName` (index.js:393, index.js:460) live in the
  cache-building code, which is I/O; only `getModuleName` itself is modelled.
- The `Any()` rewrite expected at spec/unit.js:38 and the functions exercised at
  spec/unit.js:365-508 do not exist in index.js, so there is no code to model.
- Helpers.MergeHelpers: the helper array is a sequence value, so aliasing of the array by
  other code is not modelled. The `forEach` callbacks are `while` loops, and the callback's
  `return false` ends only the callback, as in the code.
- DirTypes.DirTypeFromPath: `forEach` is a `while` loop over the list, and `return false`
  ends only the current step, as in the code.
- JavaScript strings are UTF-16; the model works on characters with no encoding.

## Findings

| source | as written | input that shows it | evidently intended | confidence | as-written member | corrected member |
|---|---|---|---|---|---|---|
| index.js:262-267 | the inner `forEach` callback's parameter `path` shadows the supplied helper's `path`, so `helpers[i] = path` stores the entry back in its own place and a same-named supplied helper is dropped | `setCustomHelpers(["my/foreach.vash"])` keeps the default `foreach.vash` | the supplied helper overrides the default with the same name (comment at index.js:264) | not executed | Helpers.MergeHelpers, Helpers.NamedHelperDropped, Helpers.ForeachOverrideExample | Helpers.MergeHelpersOverriding, Helpers.OverridingLastWins |
| index.js:329-334 | `return false` inside the `forEach` callback does not stop the loop, so the last matching type wins | `getDirTypeFromPath("app/pg/wg/x.vash", ["pg", "wg"])` gives `"wg"` | the first type found, as the doc comment at index.js:319 says (`"pg"`) | not executed | DirTypes.DirTypeFromPath, DirTypes.NestedTypesExample | DirTypes.FirstDirTypeFromPath, DirTypes.FirstMatchIs |
