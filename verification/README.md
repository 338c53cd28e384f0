# rollup-plugin-gen-html, modelled in Dafny

This project models the HTML-finalisation logic of rollup-plugin-gen-html, a
Rollup plugin. The plugin injects `<script>` and `<link rel="stylesheet">`
references to the bundle's output files into an HTML document. It can
hash-rename those files for cache-busting and point existing scripts at their
`.min` siblings. Then it applies literal text replacements and writes the HTML
file. Both historical variants of the plugin are modelled:

- `rollup-plugin-gen-html.cjs.js` works on the bundle object, through the
  `buildStart`, `transform` and `generateBundle` hooks. It captures HTML modules
  during `transform`. In `generateBundle` it renames the `.js`/`.css` artifacts,
  recording each new name in the `hashedFiles` registry. Finally it writes one
  HTML file per captured source, or one from a template.
- `rollup-plugin-gen-html.esm.js` has an `onwrite` hook. It reads the template,
  optionally min-rewrites its scripts, and inserts references to the bundle file
  and its `.css` sibling. Each reference is inserted only when its file exists,
  and each file is optionally hash-renamed on disk first.

Files:

| file | module | contents |
|---|---|---|
| `common.dfy` | `Common` | `Option` |
| `paths.dfy` | `NodePath` | Node's POSIX `path` functions over component lists: `resolve`, `dirname`, `basename`, `extname`, `parse`, `relative` |
| `jsstring.dfy` | `JsString` | `indexOf`, `String.prototype.replace` with a string pattern (first occurrence, `$` patterns), ASCII lower-casing |
| `jsobject.dfy` | `JsObject` | property enumeration order of an object (`Object.keys`, `for...in`) |
| `document.dfy` | `Document` | the document as head/body child lists; `_setTitle`, `_insertRef`'s element, `_replaceToMinScripts` |
| `host.dfy` | `Host` | the file system as a map, thrown errors, the md5/parse/serialise primitives as parameters |
| `gen_html_cjs.dfy` | `GenHtmlCjs` | the bundle-object variant |
| `gen_html_esm.dfy` | `GenHtmlEsm` | the `onwrite` variant |
| `scenarios.dfy` | `Scenarios` | worked instances on concrete names |

Paths are modelled the way Node reads them. A path string is its parse:
whether it is absolute, plus its non-empty components, with `.` and `..` kept.
A resolved path is a sequence of names. The empty string is the only path that
is falsy in JavaScript. The file system maps resolved paths to contents. An
operation that can throw returns `Done(fs, value)` or `Thrown(fs, error)`; the
`fs` in a throw keeps whatever effects happened before it.

## Model

| member | source | states |
|---|---|---|
| NodePath.Relative | rollup-plugin-gen-html.cjs.js:28 | `relative(dir, file)` is a relative path that resolves from `dir` back to `file`; it is empty exactly when the two are the same path |
| NodePath.RelativeDescendant | rollup-plugin-gen-html.esm.js:20 | a file below the HTML directory is referenced by its components beneath that directory |
| NodePath.ExtnameShape | rollup-plugin-gen-html.cjs.js:122 | `extname` is a suffix that starts with the name's last dot and holds no other dot; a name with no dot after its first character, or `..`, has none |
| NodePath.Stem | rollup-plugin-gen-html.cjs.js:78 | `parse(f).name + parse(f).ext` gives back the base name; a name with an extension has a non-empty stem |
| NodePath.InfixParse | rollup-plugin-gen-html.cjs.js:78-79 | for a name with an extension, `${name}.${hash}${ext}` parses back to the same `ext`, with `name.hash` as its name |
| JsString.Expand | rollup-plugin-gen-html.cjs.js:71 | a replacement value without `$` is inserted exactly as written |
| JsString.ExpandPatterns | rollup-plugin-gen-html.cjs.js:71 | a replacement value that starts with one pattern and has no other `$` expands to: `$` for `$$`, the matched text for `$&`, the text before the match for the backquote pattern, the text after it for the quote pattern; after a `$` with any other character, the value is copied unchanged |
| JsString.ExpandAt | rollup-plugin-gen-html.cjs.js:71 | at any position in a replacement value, the first `$` with its following character becomes that pattern's value (`$`, the matched text, the text before or after the match, or the two characters themselves when they are no pattern); the text before it is copied and the rest expands independently |
| JsString.ReplaceFirst | rollup-plugin-gen-html.cjs.js:71 | `code.replace(s, v)` replaces only the first occurrence of `s`, with `v`'s `$` patterns expanded; text without `s` is unchanged |
| JsString.ReplaceFirstLiteral | rollup-plugin-gen-html.cjs.js:71 | with a replacement that contains no `$`, the text before and after the first occurrence is kept verbatim around `v` |
| JsString.ApplyReplacesSplit | rollup-plugin-gen-html.cjs.js:69-72 | the replacement loop is a left fold: each entry works on the text that the earlier entries produced |
| JsString.LowerAscii | rollup-plugin-gen-html.cjs.js:122 | `toLowerCase` maps each ASCII letter to its lower case, keeps every other character and keeps the length |
| JsObject.SortBy | rollup-plugin-gen-html.cjs.js:119 | the sort applied to the array-index keys returns a permutation of its input ordered by index value |
| JsObject.OwnKeyOrderShape | rollup-plugin-gen-html.cjs.js:119 | `Object.keys(bundle)` is a permutation of the entries: array-index keys first, in ascending order, then the other keys in insertion order |
| JsObject.OwnKeyOrderPlain | rollup-plugin-gen-html.cjs.js:69 | an object without array-index keys (such as `replaces` with text keys) is enumerated in insertion order |
| JsObject.OwnKeyOrderDistinct | rollup-plugin-gen-html.cjs.js:119 | enumeration neither loses nor repeats a key of an object |
| Document.SetTitle | rollup-plugin-gen-html.cjs.js:48-53 | every title in head gets the text and nothing else changes; a head without a title gets one appended; body is untouched |
| Document.RefNode | rollup-plugin-gen-html.cjs.js:25-34 | a `.js` file (case-sensitive) becomes a script and any other file a stylesheet link, whose path is relative and resolves from the HTML file's directory to the file |
| Document.AppendRef | rollup-plugin-gen-html.cjs.js:23-35 | the element is appended as the last child of body (script) or head (link); the other list and the existing children are unchanged |
| Document.AppendRefsShape | rollup-plugin-gen-html.cjs.js:61-67 | inserting a list of references keeps the original children, then appends the scripts to body and the links to head, each in list order |
| Document.AppendRefsSnoc | rollup-plugin-gen-html.esm.js:48-61 | inserting one more reference after a list is the same as inserting it into the document the list produced |
| Document.ScriptRefBelow | rollup-plugin-gen-html.cjs.js:28 | a script inside the HTML file's directory is referenced by its path beneath that directory |
| Document.RewriteNode | rollup-plugin-gen-html.cjs.js:37-46 | a script with a non-empty src is pointed at `dir/name.min.ext` exactly when that file exists; the new src is a relative path that resolves to that file; every other node is unchanged |
| Document.RewriteScripts | rollup-plugin-gen-html.cjs.js:37-46 | `_replaceToMinScripts` rewrites every child of head and of body on its own, read from the HTML file's directory, and adds or removes nothing |
| Document.RewriteList | rollup-plugin-gen-html.esm.js:29-35 | the min-rewrite visits every node of a list, keeping its length and rewriting each node independently |
| GenHtmlCjs.BuildStart | rollup-plugin-gen-html.cjs.js:103-105 | `buildStart` empties the captured sources and keeps the registry |
| GenHtmlCjs.Transform | rollup-plugin-gen-html.cjs.js:106-114 | an accepted module is captured with its code and compiled to ""; any other module is left to the host |
| GenHtmlCjs.TransformAllAppends | rollup-plugin-gen-html.cjs.js:106-114 | a series of `transform` calls appends exactly the accepted modules, in order |
| GenHtmlCjs.BuildPassCaptures | rollup-plugin-gen-html.cjs.js:103-114 | after `buildStart`, the buffer holds exactly the accepted modules of the current pass, in order, with the registry carried over |
| GenHtmlCjs.BundleItemHash | rollup-plugin-gen-html.cjs.js:94-99 | there is no tag without content (`code || source`); otherwise `hash: true` gives the md5 of the content and any other truthy `hash` is the tag itself |
| GenHtmlCjs.RenameWithHash | rollup-plugin-gen-html.cjs.js:77-87 | the name returned is `name.tag.ext`, and it is returned exactly when `dir/fileName` does not exist; when that file exists it is deleted and the rename throws ENOENT for it |
| GenHtmlCjs.StalePathResolves | rollup-plugin-gen-html.cjs.js:89-92 | a registry entry is a bare name, looked up in and deleted from process.cwd() |
| GenHtmlCjs.RemoveLastHashedFile | rollup-plugin-gen-html.cjs.js:89-92 | the file last recorded for the key is gone afterwards, and no other file is removed or changed |
| GenHtmlCjs.Renamed | rollup-plugin-gen-html.cjs.js:121-127 | a candidate artifact with content and a truthy `hash` is renamed to `name.tag.ext`, and every other artifact is unchanged |
| GenHtmlCjs.RenamedKeepsCandidacy | rollup-plugin-gen-html.cjs.js:122-126 | renaming keeps the extension, so an artifact's candidacy is the same before and after |
| GenHtmlCjs.UpperCaseScriptLinkedAsStylesheet | rollup-plugin-gen-html.cjs.js:122-123 | `APP.JS` is selected by the case-insensitive test, but `_insertRef` (line 26) compares case-sensitively and links it as a stylesheet |
| GenHtmlCjs.RefNamesMembers | rollup-plugin-gen-html.cjs.js:119-130 | a file name is on the reference list exactly when a `.js` entry, or with `insertCssRef` a `.css` entry, has that name (case-insensitive); no other name is added |
| GenHtmlCjs.ProcessOne | rollup-plugin-gen-html.cjs.js:120-129 | one loop step removes the key's stale file and only removes files. It throws exactly when it renames an artifact whose file exists. Otherwise it leaves the artifact renamed as planned, pushes its name when it is a candidate, and records the new name |
| GenHtmlCjs.ProcessAll | rollup-plugin-gen-html.cjs.js:119-130 | the loop only removes files; when it completes, every entry is in its planned form and the reference list is what the plans push, in order |
| GenHtmlCjs.RegistryUntouched | rollup-plugin-gen-html.cjs.js:126 | the loop leaves the registry entry of a key it never processes unchanged |
| GenHtmlCjs.RegistryAt | rollup-plugin-gen-html.cjs.js:126 | for a key processed once, the registry ends up with that artifact's new name when it was renamed, and otherwise with its old entry |
| GenHtmlCjs.CleansAt | rollup-plugin-gen-html.cjs.js:120 | the file the registry held for a key before the loop is absent after a completed loop |
| GenHtmlCjs.ProcessAllSucceeds | rollup-plugin-gen-html.cjs.js:119-130 | the loop completes when no artifact it renames exists under its original name |
| GenHtmlCjs.ProcessAllThrows | rollup-plugin-gen-html.cjs.js:119-130 | the loop throws only for an artifact it renames whose original file exists, with ENOENT for that file |
| GenHtmlCjs.PlannedLoop | rollup-plugin-gen-html.cjs.js:119-130 | the loop's entries are the artifacts renamed one by one, and its reference list is the candidates among them, in order |
| GenHtmlCjs.HtmlPathShape | rollup-plugin-gen-html.cjs.js:56-57 | an output with an extension is the HTML file itself; one without is a directory, and the file takes the source's base name inside it; an empty output means the bundle directory |
| GenHtmlCjs.ResolveRawDirname | rollup-plugin-gen-html.cjs.js:133 | resolving `dirname(output)` gives the directory of the resolved output |
| GenHtmlCjs.MultiTargetSharesDirectory | rollup-plugin-gen-html.cjs.js:133 | with several sources and an output file name, each source is written under its own base name in that output's directory |
| GenHtmlCjs.MultiTargetDottedDirectory | rollup-plugin-gen-html.cjs.js:133 | when that directory itself has an extension, every source is written to the directory's own path |
| GenHtmlCjs.PreparedShape | rollup-plugin-gen-html.cjs.js:58-60 | the title is set before the min-rewrite, which leaves titles alone, so every title in head carries the configured text; the body is the parsed body, rewritten node by node when configured |
| GenHtmlCjs.WriteHtml | rollup-plugin-gen-html.cjs.js:55-75 | the file is written at the path given by lines 56-57; its document is the prepared source with links appended to head and scripts to body, in reference-list order, each resolved against the bundle directory; its text is that document's serialisation after the replacements, applied in enumeration order |
| GenHtmlCjs.WriteAll | rollup-plugin-gen-html.cjs.js:132-140 | every source is written, in order, by `_writeHtml` to its own path. Afterwards the disk holds the text of the last file written to each path, and every other file unchanged. No file is removed, and every new file is one of those written |
| GenHtmlCjs.WriteAllSeesPrefix | rollup-plugin-gen-html.cjs.js:134-140 | each source is written on the disk the sources before it left, so its min-rewrite sees the HTML files written earlier |
| GenHtmlCjs.EmitTemplate | rollup-plugin-gen-html.cjs.js:141-153 | without captured sources, the template resolved against `cwd` is written by `_writeHtml` exactly when it exists, and the disk gains exactly that file; otherwise nothing changes |
| GenHtmlCjs.EmitHtml | rollup-plugin-gen-html.cjs.js:132-153 | with captured sources, one file per source, made by `_writeHtml` at its path using the output adjusted for their number; otherwise the template's file exactly when it exists. The disk holds the last text written to each path, keeps every other file, and gains only HTML files |
| GenHtmlCjs.GenerateBundle | rollup-plugin-gen-html.cjs.js:115-154 | when not writing, or with neither sources nor a template, nothing happens. A missing `options.file` throws. The captured sources are kept. Each source is emitted by `_writeHtml` at its path, with the loop's reference list, or the template exactly when it exists. The final disk holds the last text written to each HTML path. A throw only ever removes files |
| GenHtmlCjs.GenerateBundleLoop | rollup-plugin-gen-html.cjs.js:115-131 | a run is the artifact loop over the bundle in `Object.keys` order, then the HTML writes on the disk the loop left; it throws exactly when the loop does, with the loop's error and the disk the loop left |
| GenHtmlCjs.GenerateBundleRenames | rollup-plugin-gen-html.cjs.js:119-130 | after a run the bundle holds every artifact in renamed form, and the reference list is the candidates' final names in enumeration order |
| GenHtmlCjs.GenerateBundleRegistry | rollup-plugin-gen-html.cjs.js:126 | after a run, a renamed artifact's key maps to its new file name; every other key, in the bundle or not, keeps its entry |
| GenHtmlCjs.GenerateBundleCleans | rollup-plugin-gen-html.cjs.js:120 | after a run, the previously recorded file of every bundle key is gone, unless an HTML file was written at that path |
| GenHtmlCjs.GenerateBundleThrows | rollup-plugin-gen-html.cjs.js:117 | a run throws only for a missing `options.file`, or for an artifact it renames whose file already exists under its original name |
| GenHtmlCjs.GenerateBundleSucceeds | rollup-plugin-gen-html.cjs.js:115-130 | a run with `options.file` completes when no artifact it renames exists under its original name |
| GenHtmlEsm.HashedPathShape | rollup-plugin-gen-html.esm.js:11-13 | the hashed name is in the same directory, differs from the file, and keeps the file's extension |
| GenHtmlEsm.InsertRef | rollup-plugin-gen-html.esm.js:6-27 | a missing file changes nothing; otherwise a reference to the file's final location (hashed or not) is appended; without hashing the disk is untouched |
| GenHtmlEsm.InsertRefMoves | rollup-plugin-gen-html.esm.js:8-16 | with hashing, the contents move to the hashed name, replacing any file there; the original is gone and every other file is unchanged |
| GenHtmlEsm.CssSiblingShape | rollup-plugin-gen-html.esm.js:55 | the stylesheet has the bundle file's directory and name, with extension `.css` |
| GenHtmlEsm.HtmlFileBesideBundle | rollup-plugin-gen-html.esm.js:45 | without `config.dir`, a plain `target` (or else the template's base name) puts the HTML file beside the bundle file |
| GenHtmlEsm.InsertBoth | rollup-plugin-gen-html.esm.js:48-61 | the document is the template with the inserted references appended in order; without hashing the disk is unchanged |
| GenHtmlEsm.InsertBothFrame | rollup-plugin-gen-html.esm.js:48-61 | apart from the bundle file, its stylesheet and the places they are moved to, every file keeps its presence and contents |
| GenHtmlEsm.InsertBothRefs | rollup-plugin-gen-html.esm.js:48-61 | at most two references are inserted. The bundle file's comes first when it exists, at its final location. The stylesheet's follows, at its own final location, exactly when the stylesheet exists on the disk the first insertion left |
| GenHtmlEsm.InsertBothUnhashed | rollup-plugin-gen-html.esm.js:48-61 | without hashing, the references are exactly the bundle file and then its stylesheet, each when it exists |
| GenHtmlEsm.Onwrite | rollup-plugin-gen-html.esm.js:42-68 | it throws, changing nothing, without `config.file` or a template, or when the template or a script's src is missing. Otherwise the HTML file is written with the min-rewritten template, the references appended and the replacements applied. The final disk is the one the insertions left plus the HTML file; without hashing it is the original disk plus the HTML file |
| GenHtmlEsm.OnwriteFrame | rollup-plugin-gen-html.esm.js:42-68 | a completed `onwrite` changes only the HTML file, the bundle file, its stylesheet and the hashed names they moved to; every other file is left as it was |
| GenHtmlEsm.OnwriteRefs | rollup-plugin-gen-html.esm.js:48-61 | the references `onwrite` inserts are those for the bundle file and its stylesheet, computed on the disk before any rename |
| GenHtmlEsm.OnwriteLayout | rollup-plugin-gen-html.esm.js:47-61 | the template's own nodes come first, as the min-rewrite left them; the references follow, so the min-rewrite never sees them |
| Scenarios.HashedName | rollup-plugin-gen-html.cjs.js:78-79 | `app.js` with tag `abc123` becomes `app.abc123.js` |
| Scenarios.RelativeReference | rollup-plugin-gen-html.esm.js:17-21 | from `/out/index.html`, the script `/out/assets/app.abc123.js` is referenced as `assets/app.abc123.js` |
| Scenarios.MinRewrite | rollup-plugin-gen-html.cjs.js:37-46 | with `/out/app.min.js` on disk, `<script src="app.js">` in `/out/index.html` is rewritten to `app.min.js` |
| Scenarios.ReplacementCascade | rollup-plugin-gen-html.cjs.js:69-72 | replacements `%A%`→`1`, then `%B%`→`%A%`, turn `%A%-%B%` into `1-%A%`: the later entry sees the earlier result |

## Where the code and its evident intent differ

The model follows the code in each of these cases.

- `_renameWithHash` (rollup-plugin-gen-html.cjs.js:77-87) is evidently intended to delete the previous hashed file, rename the artifact and return the new name. Line 82, however, recomputes the artifact's original path, not the new one. So when the artifact's file exists, the file is deleted and `renameSync` then throws ENOENT. The name is therefore returned only when that file does not exist (`GenHtmlCjs.RenameWithHash`, `GenHtmlCjs.GenerateBundleThrows`). The evidently intended effect, that no stale hashed files accumulate, depends on `_removeLastHashedFile`. That function looks up the bare recorded name in process.cwd(), not in the bundle directory (`GenHtmlCjs.StalePathResolves`).
- The reference list selects extensions case-insensitively (line 122), but the script/link choice is case-sensitive (line 26). An `APP.JS` artifact is therefore linked as a stylesheet (`GenHtmlCjs.UpperCaseScriptLinkedAsStylesheet`).
- With several captured sources, the output file's directory is used instead of the output file (line 133). If that directory itself has an extension, all sources are written to one path, each overwriting the last (`GenHtmlCjs.MultiTargetDottedDirectory`).
- In the `onwrite` variant, `_replaceToMinScripts` parses every script's src without checking that it exists (rollup-plugin-gen-html.esm.js:32). A script without src makes `path.parse` throw a TypeError. `GenHtmlEsm.Onwrite` models this as a throw that leaves the disk unchanged, not as a precondition. Every input is therefore covered, and callers carry no extra requirement. A script with an empty src is rewritten like any other (against `.min`).

## Left out

- md5 digests, cheerio's parsing and serialisation, and `createFilter` glob matching are function-valued parameters (`Host.Env.md5`, `parseHtml`, `serialize`, `GenHtmlCjs.Options.isHtml`). The model relies on no property of them.
- The document is modelled as the child lists of head and body, holding scripts, stylesheet links, titles and opaque content. Nested elements, other attributes and HTML text are not modelled. `$('script')` also finds nested scripts, and the rewrite here visits direct children only.
- Directories are not file-system entries. Creating directories, write failures, permissions and `renameSync` onto a directory are not modelled; every write and unlink succeeds.
- Windows paths and separators are not modelled; paths are POSIX. `process.cwd()` is a parameter.
- Object keys inherited from `Object.prototype` (such as `constructor` looked up in `hashedFiles`) are not modelled; registry lookups see own keys only.
- JsString.LowerAscii: `String.prototype.toLowerCase` is modelled for ASCII letters only. Other characters are kept, which matters only for non-ASCII extensions.
- A literal `hash` option that contains `/` or is `.` or `..` is excluded: `HashOption.FixedTag` holds a file name.
- The artifacts themselves are written to disk by Rollup after `generateBundle`; that write is outside the plugin. After a run, `GenHtmlCjs.Finalized.bundle` gives the artifacts, with their new names, in enumeration order. When the hook returns early (line 116), the bundle object is untouched and `Finalized.bundle` is the entries as given, in insertion order.
- `GenHtmlCjs.ProcessAll` decides each artifact's candidacy and tag before the loop (`GenHtmlCjs.PlanAll`). Both depend on the artifact alone, so this gives the same result as deciding inside the loop.
- An unset `template` in the `onwrite` variant makes `readFileSync` throw a TypeError, and `basename` too when `target` is also unset, modelled as `Host.Error.InvalidPath`. The same error stands for `path.resolve(undefined)` when `options.file`/`config.file` is missing.
- File contents are strings: `readFileSync(...).toString()` decoding is not modelled. Buffer artifact sources are a separate `Payload.Binary` case and are always truthy.
- The plugin's `name`, the `map: null` result of `transform`, and Rollup's hook registration are not modelled.
- GenHtmlCjs.GenerateBundle: when the loop throws, JavaScript keeps the registry entries and renamed `fileName`s of the keys processed before the throw. The model's `Thrown` outcome reports the disk the loop left and the error, but not that partial plugin state.
- GenHtmlCjs.GenerateBundle: each emitted file is stated to be `_writeHtml`'s result for its source on some disk, not on the exact disk its min-rewrite consults. That disk is stated one level down, by `GenHtmlCjs.WriteAllSeesPrefix` and `GenHtmlCjs.EmitTemplate`.
