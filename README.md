# vike:standalone — a verified model

This project models the Vite plugin `vike:standalone` of vike
(`vike/node/plugin/plugins/standalonePlugin.ts`) in Dafny. The plugin turns a
server build into a self-contained directory in two steps:

- **`renderChunk`** rewrites every emitted server chunk. The chunk of the
  server entry first gets `import './importBuild.cjs'`. Then the whole chunk
  gets three `import` lines and a `var` polyfill for each of `require`,
  `__filename` and `__dirname`. A binding gets its polyfill only when the
  regex scan `/(require ?=)|(__filename ?=)|(__dirname ?=)/gm` finds no
  assignment to it.
- **`closeBundle`** traces the built server entry with a file tracer. It keeps
  the traced files that are not `initial`, normalises `\` to `/`, and drops
  everything that starts with the output directory. Each remaining file is
  copied below the output directory: a symbolic link is re-created (its
  target adjusted when the project sits inside a pnpm workspace), and
  anything else is copied byte for byte. A registry makes sure each
  destination is handled once.

The small configuration parts are modelled too: `apply`, the `external`
list, the `noExternal` pattern, and the name of the built entry.

Modules, one per file:

- `Wrappers`: `Option`.
- `Text`: the JavaScript string operations the plugin uses.
- `Paths`: `path.join` and `path.dirname` on normal-form paths.
- `Config`: `apply`, `external`, `noExternalRegex`, the built-entry name.
- `RenderChunk`: the chunk rewrite. The `matchAll` scan is modelled as what
  the regex engine does (leftmost, non-overlapping matches, groups tried in
  order, the optional space greedy). It is proved to report a binding exactly
  when the chunk contains `name =` or `name=`.
- `Closure`: from the tracer's result to the list of files to copy. The
  `Set` is kept as its insertion order.
- `Monorepo`: the project-prefix strip and the link-target adjustment.
- `Disk`: `mkdir -p`, `readlink`, `symlink` and `copyFile` on a map from
  path to entry, plus a `FileSystem` class that holds the current tree.
- `Materialize`: one copy task, the run of all tasks with the shared
  registry, and `closeBundle` itself.

Behaviours of the code worth knowing:

- **`renderChunk` is not idempotent.** A second pass adds no polyfill,
  because every binding is assigned by then. It does prepend the three
  imports, and for the entry chunk the entry import, once more
  (`RenderChunk.SecondPassAddsNoPolyfill`, `RenderChunk.RenderNotIdempotent`).
- **A failing task does not stop the others.** `pLimit` does not cancel
  queued tasks, so every task runs, and `Promise.all` rejects with an error
  of a failed task. The model runs the tasks in list order and reports the
  first error.
- **The output directory is left out by a string prefix test.** So
  `distribution/a.js` is dropped when the output directory is `dist`.
- **An empty `relativeDistDir` drops every file.** For an absolute `outDir`
  the first piece of `outDir.split('/')` is the empty string, and
  `path.relative` reads an empty argument as the current working directory.
  So `relativeDistDir` is empty exactly when the build runs from the
  workspace root. The same holds for an `outDir` starting with `./`, whose
  first piece `.` is also the current working directory.

## Model

| member | source | states |
|---|---|---|
| Config.Apply | vike/node/plugin/plugins/standalonePlugin.ts:20-23 | the plugin applies iff `isSsrBuild` or `ssrBuild` is `true`; with neither flag set it does not apply |
| Config.NodePrefixed | vike/node/plugin/plugins/standalonePlugin.ts:15 | one entry per built-in, in order, each `node:` followed by that built-in |
| Config.External | vike/node/plugin/plugins/standalonePlugin.ts:15 | the list is the native dependencies, then the built-ins, then the `node:`-prefixed built-ins |
| Config.ExternalMembers | vike/node/plugin/plugins/standalonePlugin.ts:15 | a specifier is external iff it is a native dependency, a built-in, or `node:` plus a built-in |
| Config.NoExternal | vike/node/plugin/plugins/standalonePlugin.ts:16 | the pattern rejects exactly the listed specifiers; with an empty list it rejects only the empty specifier |
| Config.NoExternalIsComplement | vike/node/plugin/plugins/standalonePlugin.ts:15-16 | the `noExternal` pattern accepts a specifier iff it is not external |
| Config.BuiltEntryName | vike/node/plugin/plugins/standalonePlugin.ts:76 | the built entry name ends in `.mjs` and its stem has neither `/` nor `.` |
| Config.BuiltEntryNameOf | vike/node/plugin/plugins/standalonePlugin.ts:76 | `dir/stem.ext` (any directory, any extension) gives `stem.mjs` |
| Text.Split | vike/node/plugin/plugins/standalonePlugin.ts:76 | `split` gives at least one piece, and no piece holds the separator |
| Text.SplitHead | vike/node/plugin/plugins/standalonePlugin.ts:75-76 | the first piece of a split is everything before the first separator, or the whole string |
| Text.JoinLength | vike/node/plugin/plugins/standalonePlugin.ts:122 | `join` is as long as the pieces plus one separator between each two |
| Text.JoinAppend | vike/node/plugin/plugins/standalonePlugin.ts:122 | joining two non-empty lists puts one separator between their joins |
| Text.JoinSplit | vike/node/plugin/plugins/standalonePlugin.ts:122 | joining the pieces of a split with the separator gives the string back |
| Text.SplitJoin | vike/node/plugin/plugins/standalonePlugin.ts:122 | splitting a join of separator-free pieces gives the pieces back |
| Text.SplitCount | vike/node/plugin/plugins/standalonePlugin.ts:105 | a split has one more piece than the string has separators |
| Text.Count | vike/node/plugin/plugins/standalonePlugin.ts:105 | the count of `/` is at most the length, and zero iff there is no `/` |
| Text.Substring | vike/node/plugin/plugins/standalonePlugin.ts:123 | `substring(start)` is the suffix from `start`, or empty once `start` is past the end |
| Paths.PathJoin | vike/node/plugin/plugins/standalonePlugin.ts:110 | `path.join` (also used at lines 72 and 99) is never empty and starts with its first operand; with an empty first operand it is the second; with two non-empty operands it is `a/b` |
| Paths.Dirname | vike/node/plugin/plugins/standalonePlugin.ts:115 | `.` for a path without `/`; `/` when the only `/` is the leading one; otherwise everything before the last `/` |
| Paths.DirnameOfJoin | vike/node/plugin/plugins/standalonePlugin.ts:110-115 | the directory of `a/b` is `a` followed by the directory of `b`, or `a` when `b` is a file name |
| RenderChunk.GroupAt | vike/node/plugin/plugins/standalonePlugin.ts:49 | a group's match at an index is of that group and at that index |
| RenderChunk.MatchAt | vike/node/plugin/plugins/standalonePlugin.ts:49 | a match at an index is an occurrence of its group's text there; no match means no group's text (in either spelling) occurs there |
| RenderChunk.Attempts | vike/node/plugin/plugins/standalonePlugin.ts:49 | one regex attempt per index of the chunk |
| RenderChunk.ScanAttemptsFound | vike/node/plugin/plugins/standalonePlugin.ts:49 | the scan reports successful attempts at their own indices, left to right, each after the previous one ends |
| RenderChunk.Matches | vike/node/plugin/plugins/standalonePlugin.ts:49-50 | every match of `matchAll` is an occurrence of its group's text, and each starts after the previous one ends |
| RenderChunk.AssignmentsDoNotOverlap | vike/node/plugin/plugins/standalonePlugin.ts:49 | no group's text can start strictly inside another occurrence of a group's text |
| RenderChunk.OneMatchPerIndex | vike/node/plugin/plugins/standalonePlugin.ts:49 | at one index at most one group, in one spelling, occurs |
| RenderChunk.NoOccurrenceInsideMatch | vike/node/plugin/plugins/standalonePlugin.ts:49 | resuming the scan after a match skips no occurrence |
| RenderChunk.AttemptsNonOverlapping | vike/node/plugin/plugins/standalonePlugin.ts:49 | no attempt succeeds strictly inside the text of a successful attempt |
| RenderChunk.ScanAttemptsSound | vike/node/plugin/plugins/standalonePlugin.ts:49-58 | every group the scan reports was found by an attempt at or after the start |
| RenderChunk.ScanAttemptsComplete | vike/node/plugin/plugins/standalonePlugin.ts:49-58 | with non-overlapping attempts, the scan reports every successful attempt at or after the start |
| RenderChunk.ScanFindsAssignments | vike/node/plugin/plugins/standalonePlugin.ts:49-58 | the `matchAll` scan reports a binding iff the code contains `name =` or `name=` |
| RenderChunk.Flags | vike/node/plugin/plugins/standalonePlugin.ts:46-58 | after the loop over the matches each flag is set iff no match reports its binding |
| RenderChunk.RenderChunkCode | vike/node/plugin/plugins/standalonePlugin.ts:42-68 | the output is the header chosen by what the (possibly entry-prefixed) code assigns, then that code; the entry import is added iff `facadeModuleId` is `path.join(root, serverEntry)` |
| RenderChunk.EntryImportShape | vike/node/plugin/plugins/standalonePlugin.ts:44 | the entry import has no `=` and ends in a line break |
| RenderChunk.OccurrenceAfterEntryImport | vike/node/plugin/plugins/standalonePlugin.ts:44-49 | every assignment found in the entry-prefixed code lies wholly in the original code |
| RenderChunk.EntryImportNeutral | vike/node/plugin/plugins/standalonePlugin.ts:43-49 | the entry import never changes which bindings the code assigns |
| RenderChunk.RenderedLayout | vike/node/plugin/plugins/standalonePlugin.ts:43-67 | the output is the header, then the entry import iff the chunk is the entry, then the code unchanged, so the code is a suffix of the output |
| RenderChunk.PolyfillLineIn | vike/node/plugin/plugins/standalonePlugin.ts:60-66 | a polyfill is among the header lines iff its flag is set; no import line or other polyfill equals it |
| RenderChunk.PolyfillEmittedIff | vike/node/plugin/plugins/standalonePlugin.ts:46-66 | a binding's polyfill is emitted iff the code does not assign that binding, independently of the other two |
| RenderChunk.PolyfillAssigns | vike/node/plugin/plugins/standalonePlugin.ts:64-66 | each polyfill line contains `name =` |
| RenderChunk.HeaderDefines | vike/node/plugin/plugins/standalonePlugin.ts:60-67 | a header carrying a polyfill contains that binding's assignment |
| RenderChunk.RenderedDefinesAll | vike/node/plugin/plugins/standalonePlugin.ts:42-67 | after one pass every binding is assigned in the output |
| RenderChunk.SecondPassAddsNoPolyfill | vike/node/plugin/plugins/standalonePlugin.ts:42-67 | a second pass prepends the three imports alone (plus the entry import for the entry chunk) |
| RenderChunk.RenderNotIdempotent | vike/node/plugin/plugins/standalonePlugin.ts:42-67 | a second pass always makes the chunk longer |
| Closure.IsInitial | vike/node/plugin/plugins/standalonePlugin.ts:85 | a file is initial iff it has reasons and `initial` is among them |
| Closure.Normalize | vike/node/plugin/plugins/standalonePlugin.ts:88 | same length, each `\` becomes `/`, every other character kept |
| Closure.NormalizeIdempotent | vike/node/plugin/plugins/standalonePlugin.ts:88 | normalising twice is normalising once |
| Closure.NormalizeKeepsSlashPaths | vike/node/plugin/plugins/standalonePlugin.ts:88 | a path without backslashes is unchanged |
| Closure.SetAdd | vike/node/plugin/plugins/standalonePlugin.ts:88 | adding a present element keeps the set; adding a new one appends it |
| Closure.CollectTracedDeps | vike/node/plugin/plugins/standalonePlugin.ts:83-89 | the loop leaves `tracedDeps` equal to the fold over the file list |
| Closure.TracedDepsDistinct | vike/node/plugin/plugins/standalonePlugin.ts:83-89 | `tracedDeps` holds no path twice |
| Closure.TracedDepsMembers | vike/node/plugin/plugins/standalonePlugin.ts:83-89 | a path is in `tracedDeps` iff it is the normal form of a traced file that is not `initial` |
| Closure.OutsideDist | vike/node/plugin/plugins/standalonePlugin.ts:91 | a path is kept iff it is listed and does not start with `relativeDistDir`; never more paths than given |
| Closure.OutsideDistKeepsOrder | vike/node/plugin/plugins/standalonePlugin.ts:91 | the filter keeps list order: two kept paths appear in the list in the same order, so the tasks run in trace order |
| Closure.OutsideDistDistinct | vike/node/plugin/plugins/standalonePlugin.ts:91 | filtering keeps the paths distinct |
| Closure.Files | vike/node/plugin/plugins/standalonePlugin.ts:83-91 | the files to copy hold no path twice and none starts with `relativeDistDir` |
| Closure.FilesMembers | vike/node/plugin/plugins/standalonePlugin.ts:83-91 | a path is copied iff a non-`initial` traced file normalises to it and it does not start with `relativeDistDir`; no path twice |
| Closure.EmptyDistDirDropsAll | vike/node/plugin/plugins/standalonePlugin.ts:75-91 | an empty `relativeDistDir` leaves nothing to copy |
| Closure.DistPrefixIsNotASegmentTest | vike/node/plugin/plugins/standalonePlugin.ts:91 | `distribution/a.js` is dropped for output directory `dist` |
| Closure.ClosureExample | vike/node/plugin/plugins/standalonePlugin.ts:83-91 | `server/index.mjs` (initial), `lib/helper.js`, `node_modules/pkg/index.js` give the last two, in order |
| Monorepo.StripNestedRoot | vike/node/plugin/plugins/standalonePlugin.ts:103-107 | stripped iff the path starts with `relativeRoot/` and not with `relativeDistDir`; then prefix plus result is the path and `segments` counts the prefix's `/`; otherwise unchanged with 0 |
| Monorepo.StripSegmentsCount | vike/node/plugin/plugins/standalonePlugin.ts:105 | for a project directory of `n` components, `segments` is `n` |
| Monorepo.EmptyRootNeverStrips | vike/node/plugin/plugins/standalonePlugin.ts:104 | with the project at the workspace root, a relative path is never stripped |
| Monorepo.StripPrefixed | vike/node/plugin/plugins/standalonePlugin.ts:104-106 | `relativeRoot/rest` outside the output directory is placed at `rest` |
| Monorepo.StripExample | vike/node/plugin/plugins/standalonePlugin.ts:103-107 | `packages/app/node_modules/x/index.js` becomes `node_modules/x/index.js` with 2 segments |
| Monorepo.SplitLimit | vike/node/plugin/plugins/standalonePlugin.ts:122 | `split(c, limit)` is the first `limit` pieces of the full split |
| Monorepo.AdjustTarget | vike/node/plugin/plugins/standalonePlugin.ts:121-124 | the adjusted target is a suffix of the target; with 0 segments it is the target |
| Monorepo.AdjustTargetDropsComponents | vike/node/plugin/plugins/standalonePlugin.ts:121-124 | with `k > 0` segments the target loses exactly its first `k` components, or becomes empty if it has no more |
| Monorepo.AdjustJoined | vike/node/plugin/plugins/standalonePlugin.ts:121-124 | a target built from components keeps the components after the first `k` |
| Monorepo.AdjustedLinkResolves | vike/node/plugin/plugins/standalonePlugin.ts:103-128 | a link that climbs to the workspace root and descends into `u` still reaches `u`, from the output directory, once copied and adjusted |
| Disk.MkdirEffect | vike/node/plugin/plugins/standalonePlugin.ts:115 | succeeds iff nothing on the chain is other than a directory, and then every directory on the chain exists; on failure nothing changed; nothing off the chain changes |
| Disk.ReadLinkResult | vike/node/plugin/plugins/standalonePlugin.ts:116 | a target iff the path is a link; `ENOENT` iff nothing is there |
| Disk.SymlinkEffect | vike/node/plugin/plugins/standalonePlugin.ts:128 | succeeds iff the path is free, the target non-empty and the parent present, adding just that link; an empty target is `ENOENT`, checked before the path; `EEXIST` iff the target is non-empty and the path is taken |
| Disk.CopyFileEffect | vike/node/plugin/plugins/standalonePlugin.ts:135 | succeeds iff the source is a regular file, the destination not a directory and its parent present, setting just the destination |
| Disk.MkdirMakesParent | vike/node/plugin/plugins/standalonePlugin.ts:115-135 | after a successful `mkdir -p` of its directory, a path's parent exists |
| Disk.FileSystem.Mkdir | vike/node/plugin/plugins/standalonePlugin.ts:115 | the new tree and the error are those of `MkdirEffect` |
| Disk.FileSystem.ReadLink | vike/node/plugin/plugins/standalonePlugin.ts:116 | the result is that of `ReadLinkResult` on the current tree |
| Disk.FileSystem.Symlink | vike/node/plugin/plugins/standalonePlugin.ts:128 | the new tree and the error are those of `SymlinkEffect` |
| Disk.FileSystem.CopyFile | vike/node/plugin/plugins/standalonePlugin.ts:135 | the new tree and the error are those of `CopyFileEffect` |
| Materialize.ContextOf | vike/node/plugin/plugins/standalonePlugin.ts:72-75 | keeps `root` and `outDir`; `relativeRoot` is the project seen from the workspace root; `relativeDistDir` is, seen from there, the part of `outDir` before its first `/` |
| Materialize.OutDirAbs | vike/node/plugin/plugins/standalonePlugin.ts:72 | the output directory is never empty and lies below the project root |
| Materialize.TracedFilePath | vike/node/plugin/plugins/standalonePlugin.ts:99 | the traced file is read from below the workspace root |
| Materialize.OutputPath | vike/node/plugin/plugins/standalonePlugin.ts:110 | every destination lies below the output directory |
| Materialize.CopyTask | vike/node/plugin/plugins/standalonePlugin.ts:98-137 | the registry gains the destination; a registered destination leaves the tree alone without error; `EEXIST` can only come from `mkdir` |
| Materialize.CopyTaskFrame | vike/node/plugin/plugins/standalonePlugin.ts:110-136 | a task touches no path other than its destination and the directories above it |
| Materialize.CopyTaskLink | vike/node/plugin/plugins/standalonePlugin.ts:112-133 | a fresh destination of a link source gets a link to the adjusted target; an existing destination stays and the task succeeds when the adjusted target is non-empty; an empty adjusted target fails with `ENOENT` whether or not the destination exists |
| Materialize.CopyTaskErrors | vike/node/plugin/plugins/standalonePlugin.ts:112-136 | for a fresh destination a failing `mkdir` fails the task with its error and changes nothing; a source that is not a link with a target is `copyFile`, whose tree and error the task returns |
| Materialize.CopyTaskFile | vike/node/plugin/plugins/standalonePlugin.ts:112-136 | a fresh destination of a regular file gets its bytes, unless a directory is in the way (`EISDIR`) |
| Materialize.RunStepsRegistry | vike/node/plugin/plugins/standalonePlugin.ts:94-113 | when each task registers its destination, the run registers exactly the destinations of all files |
| Materialize.RunRegistry | vike/node/plugin/plugins/standalonePlugin.ts:94-113 | the registry ends holding exactly the destinations of all files |
| Materialize.Run | vike/node/plugin/plugins/standalonePlugin.ts:93-140 | running the tasks in list order only grows the registry, by the destinations of the files |
| Materialize.LaterDuplicateSkipped | vike/node/plugin/plugins/standalonePlugin.ts:110-113 | a later file with the destination of an earlier one leaves the tree as it was and succeeds, so each destination is written at most once |
| Materialize.RunHandledOnce | vike/node/plugin/plugins/standalonePlugin.ts:94-113 | each destination is handled at most once, and exactly the newly registered ones are |
| Materialize.StepAtPrefix | vike/node/plugin/plugins/standalonePlugin.ts:96-98 | files later in the list do not change what an earlier task does |
| Materialize.RunFailsIff | vike/node/plugin/plugins/standalonePlugin.ts:96-140 | the run fails iff some task fails |
| Materialize.RunFirstError | vike/node/plugin/plugins/standalonePlugin.ts:96-140 | a failing run fails with the error of the first failing task |
| Materialize.CopyTracedFile | vike/node/plugin/plugins/standalonePlugin.ts:99-137 | the task's statements leave the tree, registry and error that `CopyTask` specifies |
| Materialize.CopyAll | vike/node/plugin/plugins/standalonePlugin.ts:93-140 | the loop leaves the tree and error of running all tasks in order from an empty registry |
| Materialize.CloseBundle | vike/node/plugin/plugins/standalonePlugin.ts:71-140 | `closeBundle` computes the context from `root` and `outDir`, traces the built entry from the workspace root, and leaves the tree and error of running the tasks of the filtered trace |

## Left out

- `nodeFileTrace` (`@vercel/nft`) is a parameter of `CloseBundle`; its result (file list and reasons) is taken as given.
- `searchForWorkspaceRoot` and `path.relative` are parameters of `ContextOf`; their behaviour is not modelled.
- `Paths.PathJoin` and `Paths.Dirname` model `path.join` and `path.dirname` only on normal-form POSIX paths (no `.`/`..`, no repeated or trailing separators); Windows paths are not modelled.
- The list of native dependencies (`nativeDependencies.js`) and `builtinModules` are parameters; `nativeDependencies.js` is not part of this model.
- Config.NoExternal: treats each entry of `external` as a literal string; a regex metacharacter in a module name would change the real pattern.
- The object returned by the `config` hook (lines 25-35) and `configResolved` (lines 37-40) only hand values to Vite; `root` and `outDir` are inputs.
- What the emitted polyfills do at run time (`import.meta.url`, `createRequire`, `fileURLToPath`) is not modelled; only their text is.
- `pLimit(10)` and `Promise.all` concurrency: tasks are run one after another in list order. Under `pLimit(10)` up to ten tasks overlap, so only the registry check-and-add (atomic on the event loop) happens in list order; the file-system calls of overlapping tasks may interleave, which the model does not cover.
- Materialize.RunFirstError: with real concurrency `Promise.all` rejects with the first error in time, which need not be the first in list order.
- Disk.MkdirEffect: a failing `mkdir -p` is modelled as changing nothing, although the real call may have created some of the directories before failing.
- Disk: symbolic links are never followed, so `mkdir` through a link to a directory fails and `copyFile` from a link source fails with `ENOENT`; file modes and permission errors are not modelled.
- The `importBuild.cjs` file and its generator are not part of this model; only the import line that loads it is.
- `examples/i18n/server/index.js` is an HTTP server with no logic of the plugin in it and is not part of this model.
