# hoppla's template engine in Dafny

hoppla builds a project from a template directory. A run has these stages:

1. It creates a configuration.
2. It applies the template's root directive `hopplaconfig`.
3. It copies the template into a working copy under `<destination>/tmp-hoppla`. Entries that match the `excludeGlobs` are pruned, with everything below them.
4. It walks the working copy entry by entry. For each entry it:
   - reads the entry's sibling directive (`<name>.hopplaconfig`);
   - decides whether the entry is raw;
   - renders a template file with EJS and merges the directive in its header;
   - lets a `generate` directive fan the entry out into numbered copies;
   - gives the entry exactly one action (remove, keep raw, walk, rewrite);
   - renames it.
5. It copies the prepared working copy into the destination. Files and raw folders are single units, kept unless `force` is set.

This project models the engine in `lib/` over an in-memory file tree and proves what each step does.

- **File tree.** A `Node` is either `File(content)` or `Dir(name → Node)`. The class `FileTree.FileSystem` holds the tree in its field `root`. Every `fs`/`shelljs` call the engine makes is a method of that class that reassigns `root`, and the function beside it states the new tree (`Place`, `Mkdirp`, `Cp`, `CopyChildren`, `Union`). A directory listing comes back strictly sorted, in `readdir` order.
- **JavaScript values.** `JsValue` models JavaScript values together with the language rules the engine relies on:
  - truthiness;
  - `== null`;
  - property reads that throw on null and undefined;
  - sloppy-mode property writes;
  - `Object.keys`.
- **Outside code.** micromatch, `ejs.render`, `Hjson.parse` and a directive's `generate` code are given functions. They are held in `Externals.Oracles`, and every property holds for every choice of them.
- **Configuration.** `ConfigStore.Config` is a class with the record's fields. `rawDirectories` stands for `cache.rawDirectories` of the root configuration.
- **Module layout.** The modules follow the source:

  | module | source |
  |---|---|
  | `Util` | `lib/util.js` |
  | `UserFileConfig` | `lib/userFileConfig.js` |
  | `ConfigStore` | `lib/config` |
  | `Paths` | `lib/paths.js` |
  | `HopplaRoot`, `HopplaTmp`, `HopplaRules`, `HopplaWalk`, `HopplaCopy` | `lib/hoppla.js` (root directive, working-copy pruning, naming rules, walker, destination copier) |

Where `lib/config/index.js` and `lib/hoppla.js` disagree, the model follows `lib/hoppla.js`. `index.js` wires no `rawGlobs`, `excludeGlobs` or `cache` and does not export them. `lib/hoppla.js` reads and writes all three (`lib/hoppla.js:47`, `:303`, `:447`, `:541`). `Config.Create` therefore gives them the defaults of `lib/config/rawGlobs.js:4`, `lib/config/excludeGlobs.js:4` and `lib/config/cache.js:4`.

The template suffix expression is modelled as written. `` `\.${…}$` `` in a template literal loses its backslash, so the expression is `/.hop\.ejs$/`: any one character followed by `hop.ejs`. Stripping it removes eight characters, so "workshop.ejs" becomes "work". `HopplaRules.StripWorkshop` and `HopplaRules.RenameOntoParent` state the consequences. Strings are sequences of Unicode code points, whereas JavaScript counts UTF-16 code units; "## Left out" lists where that matters.

## Model

| member | source | states |
|---|---|---|
| ConfigStore.GetDefaults | lib/config/ejs.js:8-15 | the defaults are exactly `delimiter`, `compileDebug` and `root`, with `root` the template path and the other two equal to the module-level defaults |
| ConfigStore.DefaultsNullFree | lib/config/ejs.js:3-6 | the EJS defaults hold no null anywhere, so merging options over them cannot fail on the destination side |
| ConfigStore.Config.constructor | lib/config/index.js:9 | a new record starts with an undefined input and ejs and with no raw directory |
| ConfigStore.Config.Create | lib/config/index.js:8-20 | creates the destination directories; fails for a missing template or a template that is a file, and with a TypeError when no EJS options are given; otherwise it returns a fresh record with `root` equal to the template, the input or `{}`, the globs `{raw: [], ignore: []}`, empty raw and exclude globs, no raw directory, and ejs equal to the options merged over the defaults |
| ConfigStore.Config.SetInput | lib/config/input.js:24 | the stored input is the given one when truthy and `{}` otherwise, and is always truthy |
| ConfigStore.Config.SetEjsWithDefaults | lib/config/ejs.js:17-22 | succeeds exactly when options are given; then `ejs` is the options merged over the template's defaults; otherwise `ejs` is unchanged |
| ConfigStore.Config.SetEjs | lib/config/ejs.js:24-25 | after `set`, `get` returns the stored value; only `ejs` changes |
| ConfigStore.Config.Clone | lib/hoppla.js:640 | the copy of a configuration is a fresh record with equal fields |
| ConfigStore.EjsMergeFailsOnlyWithoutOptions | lib/config/ejs.js:17-22 | merging options over the defaults fails if and only if the options are null or undefined |
| ConfigStore.EjsCallerWins | lib/config/ejs.js:17-22 | an option given by the caller that is not a plain object replaces the default |
| ConfigStore.EjsDefaultsSurvive | lib/config/ejs.js:8-22 | a default the caller does not mention survives, and `root` stays the template path |
| Paths.GetTmpDir | lib/paths.js:12-16 | the tmp dir is the destination joined with `tmp-hoppla`, so its parent is the destination |
| Paths.GetTemplateTmpDir | lib/paths.js:4-10 | for a normal template path, the template tmp dir is the tmp dir joined with the template's base name, so its parent is the tmp dir |
| HopplaRoot.ApplyRootHopplaConfig | lib/hoppla.js:144-171 | the new input, raw globs and exclude globs are those of applying the root directive; any failure leaves all three unchanged and reports the reading or merging error |
| HopplaRoot.NoRootConfig | lib/hoppla.js:372-400 | without a root directive file the configuration is unchanged |
| HopplaRoot.CallerInputWins | lib/hoppla.js:154-159 | the caller's input is merged over the root directive's: the result has the keys of both, a caller value that is not a plain object wins, and root keys the caller lacks keep the root's value; a falsy root input changes nothing |
| HopplaRoot.RootGlobs | lib/hoppla.js:161-167 | the root directive's raw and exclude globs replace the configuration's if and only if they are truthy |
| Util.MergeDeep | lib/util.js:12-23 | the loop's result is the specification `Merged`: a failure exactly where `Merged` throws, the merged value otherwise |
| Util.MergeKeys | lib/util.js:13-20 | the loop over `Object.keys(source)` either writes every key, giving the merged value, or fails with a TypeError on a key whose merge throws |
| Util.MergeKey | lib/util.js:14-20 | one turn writes the key's merged value, and fails exactly when merging that value throws |
| Util.MergedSuccess | lib/util.js:12-23 | a merge that succeeds had a non-null source and wrote every one of its keys |
| Util.MergedKeys | lib/util.js:13-20 | after a merge into an object, every key of the source and of the destination is present, and destination keys the source lacks keep their value |
| Util.MergedSourceKey | lib/util.js:14-20 | under a source key, a value that is not a plain object (primitive, null, array, anything with a length) replaces the destination's, and a plain object is merged into the destination's value |
| Util.MergeIntoEmptyCopies | lib/util.js:12-23 | merging a plain object into `{}` or into nothing gives an equal value |
| Util.MergeSucceedsWithoutNull | lib/util.js:12-23 | with a non-null source and a destination without nulls the merge does not throw |
| Util.MergedNoKeysOrNull | lib/util.js:12-19 | with a null destination, a keyless source gives null back and any key throws |
| Util.MergedKeyFails | lib/util.js:13-20 | a key whose merge throws makes the whole merge throw a TypeError |
| Util.EscapeRegExpIsLiteral | lib/util.js:27-29 | the escaped text is a pattern of plain characters that stands for the text itself; its length is the text's plus one per special character |
| Util.EscapeRegExpConcat | lib/util.js:27-29 | escaping works character by character: escaping a concatenation concatenates the escapes |
| Util.MergeDirectories | lib/util.js:38-46 | the tree after `mergeDirectories` is `MergedDirectories` of the old tree |
| Util.MergeDirectoriesNothingToCopy | lib/util.js:38-41 | a missing or empty source changes nothing; the destination is not even created |
| Util.MergeDirectoriesResult | lib/util.js:38-46 | for a non-empty source apart from the destination, the destination becomes a directory holding its old entries and every visible source entry; a new entry is the source's, an untouched one is the old one, and a clash is their union |
| JsValues.IsObjectMeansPlainObject | lib/util.js:4-10 | `isObject` holds exactly for an object whose `length` is missing or nullish |
| JsValues.DecimalRoundTrip | lib/hoppla.js:482-485 | the numeral of a counter value reads back as that value |
| JsValues.PropOfOwnKey | lib/util.js:13-14 | reading a key listed by `Object.keys` gives that key's own value |
| JsValues.SetProp | lib/hoppla.js:575-578 | a property write succeeds exactly when the target is not null or undefined, and a written object then reads back the written value |
| UserFileConfig.LastEnd | lib/userFileConfig.js:3 | the greedy body ends at the last end marker: the position found is an end marker and none lies after it |
| UserFileConfig.NewlineRun | lib/userFileConfig.js:3 | `(\s*\n)?` consumes white space only, up to and including a line feed, and no line feed remains in the white space after it |
| UserFileConfig.MatchHeader | lib/userFileConfig.js:3 | a match starts with the start marker and its body runs up to the last end marker; there is no match exactly when the start marker is not at the beginning or no end marker follows it |
| UserFileConfig.HeaderNeedsStartMarker | lib/userFileConfig.js:16-29 | without the start marker at the beginning, the header directive is `{}` and cleaning leaves the content unchanged |
| UserFileConfig.HeaderParts | lib/userFileConfig.js:3-29 | for start marker + body + end marker + rest with no later end marker: the body is the header (end markers inside it included); an empty body gives `{}`, a rejected body gives the parse error for the file, a parsed body gives its value; cleaning leaves the rest without its leading white space up to the last line feed |
| UserFileConfig.MatchAtLastEnd | lib/userFileConfig.js:3 | the match ends at the last end marker after the start marker |
| UserFileConfig.SpaceWithoutLineFeedStays | lib/userFileConfig.js:3 | white space after the header that holds no line feed is kept |
| UserFileConfig.CleanIdempotent | lib/userFileConfig.js:27-29 | cleaning twice is cleaning once |
| HopplaRules.SuffixPatternText | lib/hoppla.js:15-18 | the suffix expression is a wildcard `.`, the literal escape of `hop.ejs`, and `$` |
| HopplaRules.StripTemplateName | lib/hoppla.js:16-18 | a name ending in `.hop.ejs` matches and loses exactly that ending |
| HopplaRules.StripWorkshop | lib/hoppla.js:16-18 | because the dot is a wildcard, "workshop.ejs" matches and becomes "work" |
| HopplaRules.DirectiveKeyCutsFirst | lib/hoppla.js:622 | the directive key removes the first `.hopplaconfig` only; a later one stays |
| HopplaRules.DirectiveKeyOf | lib/hoppla.js:621-623 | `<name>.hopplaconfig` is a directive name filed under `<name>` when `<name>` holds no `.hopplaconfig` |
| HopplaRules.ContentNames | lib/hoppla.js:620-628 | the content entries are exactly the listed names that are not directive names |
| HopplaRules.DirectiveTableSound | lib/hoppla.js:619-628 | every table entry is a listed directive name filed under its own key, and no key is `__proto__` |
| HopplaRules.DirectiveTableHas | lib/hoppla.js:619-628 | every listed directive whose key is not `__proto__` is filed |
| HopplaRules.DirectiveTableLast | lib/hoppla.js:619-628 | under a key the table holds the last listed directive with that key |
| HopplaRules.DirectiveForCases | lib/hoppla.js:644-651 | an entry is paired with a listed directive whose key is the entry's name without the template suffix; it gets none only when no such directive is listed; the lookup throws a TypeError if and only if the name is an inherited `Object.prototype` member that no directive claims |
| HopplaRules.TemplatePairsWithDirective | lib/hoppla.js:644-659 | `x.hop.ejs`, and `x` itself, are both paired with a directive keyed `x` when `x.hopplaconfig` is listed |
| HopplaRules.IsRaw | lib/hoppla.js:431-452 | a set `raw` decides alone; otherwise a directory is raw exactly when the raw globs match, and a file exactly when the raw globs or the default raw patterns match |
| HopplaRules.RenameToFileName | lib/hoppla.js:582-585 | a `fileName` that is a plain name renames the entry within its directory |
| HopplaRules.RenameStripped | lib/hoppla.js:573-585 | without a `fileName`, a path matching the suffix is resolved with the suffix cut off |
| HopplaRules.RenameBySuffix | lib/hoppla.js:573-585 | without a `fileName`, `<dir>/x.hop.ejs`-like names move to `<dir>/<name without its last eight characters>` |
| HopplaRules.RenameOntoParent | lib/hoppla.js:573-585 | a template named one character below U+10000 (one UTF-16 code unit) plus `hop.ejs` is renamed onto its own directory |
| HopplaRules.MoveFileResult | lib/hoppla.js:594-599 | moving a file to a free place apart from it puts the file there and removes the old one |
| HopplaRules.MoveDirectoryResult | lib/hoppla.js:589-599 | moving a non-empty directory merges its visible entries into the target, which keeps its own, and removes the source |
| HopplaRules.ReadDirective | lib/hoppla.js:372-400 | no directive file, or a missing one, reads as `{}`; the only failures are a directory in its place and a parse error reported for its template path |
| HopplaRules.TemplateWithHeader | lib/hoppla.js:106-124 | a rendered template with a header yields the parsed header as directive and the text after it, leading white space up to the last line feed removed |
| HopplaRules.TemplateWithoutHeader | lib/hoppla.js:106-124 | a template whose rendering fails and that has no header is read as it is, with directive `{}` |
| HopplaRules.NumberedNames | lib/hoppla.js:476-485 | the copies of one entry get pairwise distinct names, none is `hopplaconfig`, and a normal name stays normal |
| HopplaTmp.PrunedPaths | lib/hoppla.js:47-55 | a path is in the working copy if and only if it is in the template and neither it nor a directory above it is excluded; files keep their content |
| HopplaTmp.ExcludedFromTmp | lib/hoppla.js:47-55 | an excluded entry leaves the tree unchanged |
| HopplaTmp.FileToTmp | lib/hoppla.js:74-76 | a file copied to a free target is the pruned copy of itself |
| HopplaTmp.DirToTmp | lib/hoppla.js:63-65 | a directory starts as an empty directory at a free target, without disturbing its source |
| HopplaTmp.CopyToTmpRecursive | lib/hoppla.js:39-77 | an excluded entry changes nothing; a missing source fails with ENOENT; otherwise, with the source apart from a free target, the tree gains exactly the pruned copy of the source |
| HopplaTmp.CopyDirToTmp | lib/hoppla.js:63-73 | a directory's target becomes its pruned copy |
| HopplaTmp.CopyEntriesToTmp | lib/hoppla.js:66-73 | after the loop over the listing, the target directory holds the pruned copy of every entry |
| HopplaTmp.TmpDirReady | lib/hoppla.js:20-28 | after making the tmp dir and removing an old working copy, the tmp dir is a directory, the working copy is absent, and the template is untouched |
| HopplaTmp.CreateTmpDir | lib/hoppla.js:20-37 | the tree is the old one with the tmp dir made, the old working copy removed, and the pruned template copied in |
| HopplaCopy.UnitsAndForce | lib/hoppla.js:299-369 | a file or raw folder is kept over an existing target without `force`; otherwise it replaces the target (a raw folder by its visible entries, or nothing when empty) |
| HopplaCopy.DeliveredFile | lib/hoppla.js:334-369 | a file below walked directories reaches the destination: with `force` as it is, without `force` only where the destination had nothing |
| HopplaCopy.DeliveredKeeps | lib/hoppla.js:334-346 | destination content below a walked directory where the working copy has nothing survives |
| HopplaCopy.RawMerge | lib/hoppla.js:328-331 | a raw folder merged onto a free target puts its visible entries there, or nothing when it is empty |
| HopplaCopy.ClearedTarget | lib/hoppla.js:354-364 | `rm -rf` of the target frees it and leaves its parent and the source alone |
| HopplaCopy.CopyToDestinationRecursive | lib/hoppla.js:291-370 | a missing source fails with ENOENT and changes nothing; otherwise, when the copy fits, the target becomes `Delivered`: units kept or replaced by the force policy, walked directories created and filled entry by entry |
| HopplaCopy.CopyEntriesToDestination | lib/hoppla.js:336-345 | after the loop, the target directory holds every entry delivered over what it had |
| HopplaWalk.Classify | lib/hoppla.js:420-459 | the classification steps give the specification `Classification` of the tree |
| HopplaWalk.ClassificationSteps | lib/hoppla.js:421-459 | a classified entry exists, its kind and relative path are recorded, raw-ness is `IsRaw` of the sibling directive's `raw`, and the directive is the sibling's, merged with the header of a non-raw file |
| HopplaWalk.ClassificationDirective | lib/hoppla.js:454-459 | raw entries and directories are not read; for a non-raw file, header keys that are not plain objects override the sibling directive's, and sibling keys the header lacks keep their value |
| HopplaWalk.TransformEntry | lib/hoppla.js:402-606 | `hopplaconfig` is only removed; any other entry is classified, excluded when its directive says so or when it generates, fanned out, given its one action and renamed as `Walked` states, and so, recursively through `WalkedTree`, is every generated copy and walked child below it, each in the tree its own call started from; raw directories are registered in the root configuration; for an entry without copies that is not walked, the tree is the act effect followed by the move |
| HopplaWalk.TransformClassified | lib/hoppla.js:461-605 | after classification: exclusion, generation, the one action and the rename as `Settled` states, with the raw-directory registration and tree effect of `TransformEntry` |
| HopplaWalk.ActAndRename | lib/hoppla.js:528-601 | excluded entries keep their path; others move to `RenameTarget`; the tree is the act effect followed by the move, or the directory walk for a walked directory |
| HopplaWalk.Generate | lib/hoppla.js:466-526 | the code runs if and only if generation is on and `generate` is truthy; then its input is a copy of the configuration's input and its calls made the numbered copies; otherwise nothing changes |
| HopplaWalk.RunGenerate | lib/hoppla.js:476-516 | the k-th call made copy `k` at `<k>_hoppla_<name>`, walked without generation and with the call's input when truthy; each copy's visit is a `WalkedTree` |
| HopplaWalk.WalkCopy | lib/hoppla.js:476-509 | one call copies the entry beside itself and walks the copy with generation off, the original template path and directive file, and the call's input when truthy; the copy's walk starts from the tree in which the entry, not yet rewritten, was copied to `<k>_hoppla_<name>` (`Cp` of the old tree), and its visit is a `WalkedTree` with generation off |
| HopplaWalk.Act | lib/hoppla.js:528-565 | exactly one action: remove, register a raw directory in the root configuration, walk the directory, or rewrite the file with its rendered text |
| HopplaWalk.Move | lib/hoppla.js:588-600 | the tree after the rename is `MoveEffect`: nothing for an unchanged path; otherwise merge or copy to the target, then remove the old entry |
| HopplaWalk.TransformDirectory | lib/hoppla.js:608-681 | the listing is taken before any entry is walked; each content entry is visited once, in listing order, with its paired directive file, and each child visit is a `WalkedTree`; afterwards no filed directive file is left (an unfiled one, such as `__proto__.hopplaconfig` or the earlier of two names with the same key, stays, as in the source) |
| HopplaWalk.WalkEntries | lib/hoppla.js:630-664 | the content entries are walked one after another, each with its directive file and the same input, and each visit is a `WalkedTree` |
| HopplaWalk.WalkChild | lib/hoppla.js:638-663 | a content entry is walked with a copy of the configuration, which keeps the template path, EJS options and raw globs, so its visit is a `WalkedTree` |
| HopplaWalk.SplitListing | lib/hoppla.js:619-628 | the filter yields the content names and the directive table |
| HopplaWalk.PairDirectives | lib/hoppla.js:632-659 | pairing succeeds if and only if every lookup does, and then gives each entry its directive file; the only failure is a TypeError |
| HopplaWalk.DeleteDirectives | lib/hoppla.js:670-680 | exactly the directive files of the table are removed from the directory |
| FileTree.FileSystem.ReadDir | lib/hoppla.js:616 | lists exactly the entries of a directory, strictly sorted; fails exactly for a path that is not a directory |
| FileTree.FileSystem.MakeDirs | lib/hoppla.js:64 | `mkdir -p`: the directories missing along the path are created, up to the first file in the way |
| FileTree.FileSystem.Remove | lib/hoppla.js:26 | `rm -rf` removes the entry |
| FileTree.FileSystem.RemoveFile | lib/hoppla.js:414 | `rm` removes a file and leaves a directory |
| FileTree.FileSystem.Rewrite | lib/hoppla.js:557-563 | a file gets the new content; anything else is left alone, as the caught error does |
| FileTree.FileSystem.Copy | lib/hoppla.js:75 | `cp`: the source goes into a directory target or onto any other target, merging with what is there; a directory is copied only with `-r` |
| FileTree.FileSystem.CopyEntries | lib/util.js:44-45 | `cp -r src/* dst` copies the visible entries into the directory |
| FileTree.SortedDistinct | lib/hoppla.js:616 | a listing names every entry once |
| NodePath.ResolveChild | lib/hoppla.js:67 | resolving a name against a directory gives the child path |
| NodePath.RelativeInside | lib/hoppla.js:48-51 | the path of an entry inside the working copy, relative to it, is the trailing segments |

## Left out

- Object identity. Values are immutable. `mergeDeep` mutating and returning its destination object, and `mergeDeep({}, x)` sharing arrays but no plain-object node with `x`, are not modelled. A property write into an array or other primitive is ignored.
- Prototype chains are not modelled. Property reads see own properties only; the one exception is the inherited names that make the directive lookup throw.
- micromatch, `ejs.render`, `Hjson.parse` and a directive's `generate` code are given functions. Their semantics (globs, negation, dotfiles, EJS, Hjson) are not modelled.
- `executeJsFromString`, the `prepare` and `finalize` hooks, and the `require` and `call` capabilities are not modelled. A `generate` run is its sequence of calls, or a `GenerateFailed` error.
- `generate` calls that user code does not await are taken to complete one after another; interleaving is not modelled.
- The top-level promise chain of `hoppla`, `cleanTmpDir`, the copy of the working copy's top level into the destination, console output and long stack traces are not modelled. `CreateTmpDir` and `ApplyRootHopplaConfig` model the stages they bracket.
- `cli.js`, `index.js`, `lib/input.js` and `lib/ejs.js` are not part of this model. `lib/config/root.js` is not part of this model; `root` is set to the template, as `lib/config/index.js:14` passes it.
- `lib/config/destination.js` and `lib/config/template.js` appear only as `Config.Create`'s `mkdir -p` and its two failure cases. Relative paths are not resolved against the working directory; paths are absolute segment lists.
- File system details are not modelled: permissions, symbolic links, shelljs error messages, `mkdir -p` over a file.
- Numbers are unbounded integers.
- HopplaTmp.CopyToTmpRecursive: the exact result is stated only when the source and target lie apart, the target is free, its parent is a directory, and `fuel` covers the source's depth. The working copy lives inside the destination, so an overlapping template is not covered.
- HopplaCopy.CopyToDestinationRecursive: the exact result is stated only when source and target lie apart, no destination file stands in a walked directory's way, and `fuel` covers the depth.
- HopplaWalk.TransformEntry: the walk is bounded by `fuel` and fails with `DepthExceeded` beyond it. A rename can move an entry into a sibling not yet walked, so the source's recursion has no bound the model could use.
- HopplaWalk.TransformEntry: the tree it leaves is stated only for an entry without generated copies that is not a walked directory. For the others, the visits it returns state what each call below did to its own entry, in the tree that call started from (`WalkedTree`), but not the final tree.
- HopplaWalk.TransformDirectory: the tree after the walk is stated only as "no filed directive file left". Which entries were visited is stated by `DirectoryVisits`.
- HopplaWalk.TransformDirectory: when a content name is inherited by the table's object, the source throws inside the `forEach` after chaining the entries listed before it onto a resolved promise, so those entries are still walked after the rejection, concurrently with the removal of the working copy. The model walks none of them. In both the run fails and the copy into the destination never runs; only a rename outside the working copy (a `fileName` such as `../../x` or an absolute path) by an already-chained entry can still reach the destination in the source.
- HopplaRules.MatchesSuffix and HopplaRules.StripSuffix: strings are sequences of code points, not UTF-16 code units. The source's `.` (no `u` flag) matches one code unit, so for a name such as "😀hop.ejs" it removes only the low surrogate and keeps the high one; the model removes the whole character.
- HopplaRules.RenameBySuffix: "the last eight characters" are code points; for an astral character before `hop.ejs` the source's rename target keeps a lone high surrogate.
- HopplaRules.RenameOntoParent: stated only for a character below U+10000; for an astral character the source keeps its high surrogate and does not land on the directory.
- HopplaRules.DirectiveForCases: the directive key of a template name is cut by code points, so a name with an astral character before `hop.ejs` is paired differently from the source.
- JsValues.OwnKeys: string keys and the `length` of a string are counted in code points, not UTF-16 code units, so both differ from the source for text with astral characters.
- HopplaWalk.Generate: the tree is stated unchanged only when no copy was made.
- Paths.GetTemplateTmpDir: the result is stated only for a normal, non-root template path.
- HopplaRules.MoveDirectoryResult: it states the target's entry names, not their contents (`Util.MergeDirectoriesResult` states those).
- The walker records a raw directory under its path before the rename, as the source does.
