/**
 * `closeBundle` of the `vike:standalone` plugin: trace the built server
 * entry, then copy every traced dependency next to it, each destination at
 * most once, re-creating symbolic links (with targets adjusted for a nested
 * project) and copying everything else byte for byte.
 */
module Materialize {
  import opened Wrappers
  import opened Text
  import Paths
  import Config
  import Closure
  import Monorepo
  import opened Disk

  /**
   * The paths `closeBundle` works with. `path.relative` and
   * `searchForWorkspaceRoot` are library calls whose results are given.
   */
  datatype Context = Context(
    root: string,            // Vite's `config.root`
    outDir: string,          // Vite's `config.build.outDir`
    workspaceRoot: string,   // `searchForWorkspaceRoot(root)`
    relativeRoot: string,    // the project directory, seen from the workspace root
    relativeDistDir: string) // the first component of `outDir`, seen from the workspace root

  /**
   * Lines 72-75, with the two library functions as parameters: the project
   * and the first component of `outDir` (everything before its first `/`),
   * each seen from the workspace root.
   */
  function ContextOf(root: string, outDir: string,
                     searchForWorkspaceRoot: string -> string,
                     relative: (string, string) -> string): (ctx: Context)
    ensures ctx.root == root && ctx.outDir == outDir
    ensures ctx.workspaceRoot == searchForWorkspaceRoot(root)
    ensures ctx.relativeRoot == relative(ctx.workspaceRoot, root)
    ensures exists first :: && StartsWith(outDir, first) && '/' !in first
                            && (first == outDir || outDir[|first|] == '/')
                            && ctx.relativeDistDir == relative(ctx.workspaceRoot, first)
  {
    var workspaceRoot := searchForWorkspaceRoot(root);
    var first := Split(outDir, '/')[0];
    SplitHead(outDir, '/');
    Context(root, outDir, workspaceRoot, relative(workspaceRoot, root), relative(workspaceRoot, first))
  }

  /** `outDirAbs`: the output directory, below the project root. */
  function OutDirAbs(ctx: Context): (dir: string)
    ensures dir != ""
    ensures ctx.root != "" ==> StartsWith(dir, ctx.root)
  {
    Paths.PathJoin(ctx.root, ctx.outDir)
  }

  /** Where the traced file is read from: below the workspace root. */
  function TracedFilePath(ctx: Context, relativeFile: string): (src: string)
    ensures ctx.workspaceRoot != "" ==> StartsWith(src, ctx.workspaceRoot)
  {
    Paths.PathJoin(ctx.workspaceRoot, relativeFile)
  }

  function Placed(ctx: Context, relativeFile: string): Monorepo.Placement {
    Monorepo.StripNestedRoot(relativeFile, ctx.relativeRoot, ctx.relativeDistDir)
  }

  /** `fileOutputPath`: where the traced file is written to, always below the output directory. */
  function OutputPath(ctx: Context, relativeFile: string): (dest: string)
    ensures StartsWith(dest, OutDirAbs(ctx))
  {
    Paths.PathJoin(OutDirAbs(ctx), Placed(ctx, relativeFile).path)
  }

  /** The state one task leaves: the tree, the `copiedFiles` registry, and the error it rejected with. */
  datatype TaskResult = TaskResult(tree: Tree, copied: set<string>, err: Option<Errno>)

  /**
   * The task of lines 98-137 for one traced file: skip a destination that is
   * registered already; otherwise register it, create its directory, and
   * either re-create the link (an existing destination is not an error) or
   * copy the file.
   */
  function CopyTask(t: Tree, ctx: Context, relativeFile: string, copied: set<string>): (r: TaskResult)
    ensures r.copied == copied + {OutputPath(ctx, relativeFile)}
    ensures OutputPath(ctx, relativeFile) in copied ==> r.tree == t && r.err.None?
    ensures r.err != Some(EEXIST) || MkdirEffect(t, Paths.Dirname(OutputPath(ctx, relativeFile))).err.Some?
  {
    var src := TracedFilePath(ctx, relativeFile);
    var placed := Placed(ctx, relativeFile);
    var dest := OutputPath(ctx, relativeFile);
    if dest in copied then TaskResult(t, copied, None)
    else
      var registered := copied + {dest};
      var made := MkdirEffect(t, Paths.Dirname(dest));
      if made.err.Some? then TaskResult(made.tree, registered, made.err)
      else
        var link := ReadLinkResult(made.tree, src);
        if link.Ok? && link.value != "" then
          var linked := SymlinkEffect(made.tree, Monorepo.AdjustTarget(link.value, placed.segments), dest);
          TaskResult(linked.tree, registered, if linked.err == Some(EEXIST) then None else linked.err)
        else
          var copiedFile := CopyFileEffect(made.tree, src, dest);
          TaskResult(copiedFile.tree, registered, copiedFile.err)
  }

  /** A task changes nothing outside its destination and the directories above it. */
  lemma CopyTaskFrame(t: Tree, ctx: Context, relativeFile: string, copied: set<string>, p: string)
    requires p != OutputPath(ctx, relativeFile) && p !in DirChain(Paths.Dirname(OutputPath(ctx, relativeFile)))
    ensures var r := CopyTask(t, ctx, relativeFile, copied);
            (p in r.tree <==> p in t) && (p in t ==> r.tree[p] == t[p])
  {
    var dest := OutputPath(ctx, relativeFile);
    if dest !in copied {
      var made := MkdirEffect(t, Paths.Dirname(dest));
      assert (p in made.tree <==> p in t) && (p in t ==> made.tree[p] == t[p]);
    }
  }

  /**
   * A fresh destination whose source is a link gets a link with the adjusted
   * target; if something is at the destination already, it stays and the
   * task succeeds. An adjusted target that is empty fails with `ENOENT`
   * whether or not the destination is taken.
   */
  lemma CopyTaskLink(t: Tree, ctx: Context, relativeFile: string, copied: set<string>, target: string)
    requires OutputPath(ctx, relativeFile) !in copied
    requires MkdirEffect(t, Paths.Dirname(OutputPath(ctx, relativeFile))).err.None?
    requires TracedFilePath(ctx, relativeFile) in t && t[TracedFilePath(ctx, relativeFile)] == Link(target)
    requires target != ""
    ensures var dest := OutputPath(ctx, relativeFile);
            var adjusted := Monorepo.AdjustTarget(target, Placed(ctx, relativeFile).segments);
            var made := MkdirEffect(t, Paths.Dirname(dest)).tree;
            var r := CopyTask(t, ctx, relativeFile, copied);
            && (dest in made && adjusted != "" ==> r.tree == made && r.err.None?)
            && (dest !in made && adjusted != "" ==> r.tree == made[dest := Link(adjusted)] && r.err.None?)
            && (adjusted == "" ==> r.tree == made && r.err == Some(ENOENT))
  {
    var dest := OutputPath(ctx, relativeFile);
    var src := TracedFilePath(ctx, relativeFile);
    var made := MkdirEffect(t, Paths.Dirname(dest)).tree;
    MkdirMakesParent(t, dest);
    assert src !in DirChain(Paths.Dirname(dest));
    assert made[src] == Link(target);
  }

  /**
   * A fresh destination: a failing `mkdir` fails the task with its error and
   * leaves the tree alone; when the source is not a link with a non-empty
   * target, the task is `copyFile`, whose error it rejects with.
   */
  lemma CopyTaskErrors(t: Tree, ctx: Context, relativeFile: string, copied: set<string>)
    requires OutputPath(ctx, relativeFile) !in copied
    ensures var dest := OutputPath(ctx, relativeFile);
            var src := TracedFilePath(ctx, relativeFile);
            var made := MkdirEffect(t, Paths.Dirname(dest));
            var link := ReadLinkResult(made.tree, src);
            var r := CopyTask(t, ctx, relativeFile, copied);
            && (made.err.Some? ==> r.tree == t && r.err == made.err)
            && (made.err.None? && !(link.Ok? && link.value != "") ==>
                  r.tree == CopyFileEffect(made.tree, src, dest).tree && r.err == CopyFileEffect(made.tree, src, dest).err)
  {
  }

  /** A fresh destination whose source is a regular file gets its bytes, unless a directory is in the way. */
  lemma CopyTaskFile(t: Tree, ctx: Context, relativeFile: string, copied: set<string>, data: seq<bv8>)
    requires OutputPath(ctx, relativeFile) !in copied
    requires MkdirEffect(t, Paths.Dirname(OutputPath(ctx, relativeFile))).err.None?
    requires TracedFilePath(ctx, relativeFile) in t && t[TracedFilePath(ctx, relativeFile)] == File(data)
    ensures var dest := OutputPath(ctx, relativeFile);
            var made := MkdirEffect(t, Paths.Dirname(dest)).tree;
            var r := CopyTask(t, ctx, relativeFile, copied);
            && (!IsDir(made, dest) ==> r.tree == made[dest := File(data)] && r.err.None?)
            && (IsDir(made, dest) ==> r.tree == made && r.err == Some(EISDIR))
  {
    var dest := OutputPath(ctx, relativeFile);
    var src := TracedFilePath(ctx, relativeFile);
    MkdirMakesParent(t, dest);
    var made := MkdirEffect(t, Paths.Dirname(dest)).tree;
    assert src !in DirChain(Paths.Dirname(dest));
    assert made[src] == File(data);
  }

  /** The state after the tasks of `files` ran one after another; the error is the first one. */
  datatype RunState = RunState(tree: Tree, copied: set<string>, handled: seq<string>, err: Option<Errno>)

  /** One task on the tree and the registry, for one file. */
  type Step = (Tree, set<string>, string) -> TaskResult

  function Task(ctx: Context): Step {
    (t: Tree, copied: set<string>, relativeFile: string) => CopyTask(t, ctx, relativeFile, copied)
  }

  function Destination(ctx: Context): string -> string {
    (relativeFile: string) => OutputPath(ctx, relativeFile)
  }

  /**
   * `files.map(task)` awaited with `Promise.all`, one task at a time:
   * every task runs, and the promise rejects with the first error.
   * `handled` lists the destinations whose tasks got past the registry
   * check, in order.
   */
  function RunSteps(step: Step, dest: string -> string, t: Tree, files: seq<string>, copied: set<string>): RunState
    decreases |files|
  {
    if files == [] then RunState(t, copied, [], None)
    else
      var s := RunSteps(step, dest, t, files[..|files| - 1], copied);
      var file := files[|files| - 1];
      var r := step(s.tree, s.copied, file);
      RunState(r.tree, r.copied,
               if dest(file) in s.copied then s.handled else s.handled + [dest(file)],
               if s.err.Some? then s.err else r.err)
  }

  /** When every step registers its file's destination, the run registers the destinations of all the files. */
  lemma {:induction false} RunStepsRegistry(step: Step, dest: string -> string, t: Tree, files: seq<string>, copied: set<string>)
    requires forall t', c, f :: step(t', c, f).copied == c + {dest(f)}
    ensures RunSteps(step, dest, t, files, copied).copied == copied + set f | f in files :: dest(f)
    decreases |files|
  {
    if files != [] {
      var init := files[..|files| - 1];
      var last := files[|files| - 1];
      RunStepsRegistry(step, dest, t, init, copied);
      assert files == init + [last];
      assert (set f | f in files :: dest(f)) == (set f | f in init :: dest(f)) + {dest(last)};
    }
  }

  /** The registry ends up holding exactly the destinations of all the files, besides what it held. */
  lemma RunRegistry(t: Tree, ctx: Context, files: seq<string>, copied: set<string>)
    ensures RunSteps(Task(ctx), Destination(ctx), t, files, copied).copied
         == copied + set f | f in files :: OutputPath(ctx, f)
  {
    RunStepsRegistry(Task(ctx), Destination(ctx), t, files, copied);
    assert (set f | f in files :: Destination(ctx)(f)) == (set f | f in files :: OutputPath(ctx, f));
  }

  /**
   * The tasks of `closeBundle` under `pLimit(10)`, one after another in list
   * order. `pLimit` does not cancel queued tasks when one rejects, so every
   * task runs; each registry check-and-add runs without interruption, so the
   * registry sees the tasks in list order. The registry only grows, by the
   * destinations of the files.
   */
  function Run(t: Tree, ctx: Context, files: seq<string>, copied: set<string>): (s: RunState)
    ensures s.copied == copied + set f | f in files :: OutputPath(ctx, f)
  {
    RunRegistry(t, ctx, files, copied);
    RunSteps(Task(ctx), Destination(ctx), t, files, copied)
  }

  /**
   * Each destination is handled at most once: the handled destinations are
   * distinct, none was registered before, and together with the earlier
   * registrations they are the final registry.
   */
  lemma {:induction false} RunHandledOnce(t: Tree, ctx: Context, files: seq<string>, copied: set<string>)
    ensures var s := Run(t, ctx, files, copied);
            && Closure.Distinct(s.handled)
            && (forall d :: d in s.handled <==> d in s.copied && d !in copied)
    decreases |files|
  {
    if files != [] {
      var init := files[..|files| - 1];
      var s := Run(t, ctx, init, copied);
      RunHandledOnce(t, ctx, init, copied);
      RunRegistry(t, ctx, init, copied);
      var dest := OutputPath(ctx, files[|files| - 1]);
      if dest !in s.copied {
        assert dest !in s.handled;
        assert forall i :: 0 <= i < |s.handled| ==> (s.handled + [dest])[i] == s.handled[i] != dest;
      }
    }
  }

  /**
   * A destination is written at most once: when a later file maps to the
   * destination of an earlier one, its task leaves the tree as it was and
   * succeeds.
   */
  lemma LaterDuplicateSkipped(t: Tree, ctx: Context, files: seq<string>, copied: set<string>, j: nat, k: nat)
    requires j < k < |files| && OutputPath(ctx, files[j]) == OutputPath(ctx, files[k])
    ensures var before := Run(t, ctx, files[..k], copied);
            var r := CopyTask(before.tree, ctx, files[k], before.copied);
            r.tree == before.tree && r.err.None?
  {
    assert files[j] in files[..k];
  }

  /** What the `k`-th task returns, run on the state the tasks before it left. */
  function StepAt(step: Step, dest: string -> string, t: Tree, files: seq<string>, copied: set<string>, k: nat): TaskResult
    requires k < |files|
  {
    var s := RunSteps(step, dest, t, files[..k], copied);
    step(s.tree, s.copied, files[k])
  }

  /** Appending files does not change what the earlier tasks do. */
  lemma StepAtPrefix(step: Step, dest: string -> string, t: Tree, files: seq<string>, copied: set<string>, k: nat)
    requires k < |files| - 1
    ensures StepAt(step, dest, t, files, copied, k) == StepAt(step, dest, t, files[..|files| - 1], copied, k)
  {
    assert files[..k] == files[..|files| - 1][..k];
  }

  /** The run fails iff some task failed. */
  lemma {:induction false} RunFailsIff(step: Step, dest: string -> string, t: Tree, files: seq<string>, copied: set<string>)
    ensures RunSteps(step, dest, t, files, copied).err.Some?
        <==> exists k :: 0 <= k < |files| && StepAt(step, dest, t, files, copied, k).err.Some?
    decreases |files|
  {
    if files != [] {
      var n := |files| - 1;
      var init := files[..n];
      RunFailsIff(step, dest, t, init, copied);
      assert files[..n] == init;
      var s := RunSteps(step, dest, t, init, copied);
      var last := StepAt(step, dest, t, files, copied, n);
      assert RunSteps(step, dest, t, files, copied).err == if s.err.Some? then s.err else last.err;
      if s.err.Some? {
        var k :| 0 <= k < n && StepAt(step, dest, t, init, copied, k).err.Some?;
        StepAtPrefix(step, dest, t, files, copied, k);
        assert StepAt(step, dest, t, files, copied, k).err.Some?;
      } else if last.err.Some? {
        assert 0 <= n < |files|;
      } else {
        forall k | 0 <= k < |files| ensures StepAt(step, dest, t, files, copied, k).err.None? {
          if k < n {
            StepAtPrefix(step, dest, t, files, copied, k);
          }
        }
      }
    }
  }

  /** A failing run fails with the error of the first task that failed. */
  lemma {:induction false} RunFirstError(step: Step, dest: string -> string, t: Tree, files: seq<string>, copied: set<string>, k: nat)
    requires k < |files| && StepAt(step, dest, t, files, copied, k).err.Some?
    requires forall j :: 0 <= j < k ==> StepAt(step, dest, t, files, copied, j).err.None?
    ensures RunSteps(step, dest, t, files, copied).err == StepAt(step, dest, t, files, copied, k).err
    decreases |files|
  {
    var n := |files| - 1;
    var init := files[..n];
    assert files[..n] == init;
    forall j | 0 <= j < k && j < n
      ensures StepAt(step, dest, t, init, copied, j).err.None?
    {
      StepAtPrefix(step, dest, t, files, copied, j);
    }
    var s := RunSteps(step, dest, t, init, copied);
    assert RunSteps(step, dest, t, files, copied).err
        == if s.err.Some? then s.err else StepAt(step, dest, t, files, copied, n).err;
    if k < n {
      StepAtPrefix(step, dest, t, files, copied, k);
      RunFirstError(step, dest, t, init, copied, k);
    } else {
      RunFailsIff(step, dest, t, init, copied);
    }
  }

  /** One task: lines 99-136. */
  method CopyTracedFile(fs: FileSystem, ctx: Context, relativeFile: string, copiedFiles: set<string>)
    returns (copied: set<string>, err: Option<Errno>)
    modifies fs
    ensures TaskResult(fs.tree, copied, err) == CopyTask(old(fs.tree), ctx, relativeFile, copiedFiles)
  {
    var tracedFilePath := Paths.PathJoin(ctx.workspaceRoot, relativeFile);
    var file := relativeFile;
    var segments := 0;
    if StartsWith(file, ctx.relativeRoot + "/") && !StartsWith(file, ctx.relativeDistDir) {
      segments := Count(ctx.relativeRoot + "/", '/');
      file := file[|ctx.relativeRoot + "/"|..];
    }
    var fileOutputPath := Paths.PathJoin(OutDirAbs(ctx), file);
    copied := copiedFiles;
    err := None;
    if fileOutputPath !in copied {
      copied := copied + {fileOutputPath};
      err := fs.Mkdir(Paths.Dirname(fileOutputPath));
      if err.Some? {
        return;
      }
      var symlink := fs.ReadLink(tracedFilePath);
      if symlink.Ok? && symlink.value != "" {
        var target := symlink.value;
        if segments != 0 {
          var idx := |Join(Monorepo.SplitLimit(target, '/', segments), "/")| + 1;
          target := Substring(target, idx);
        }
        err := fs.Symlink(target, fileOutputPath);
        if err == Some(EEXIST) {
          err := None;
        }
      } else {
        err := fs.CopyFile(tracedFilePath, fileOutputPath);
      }
    }
  }

  /** Running one more task: the `k`-th file's task on the state the first `k` left; the first error stays. */
  lemma RunNext(t: Tree, ctx: Context, files: seq<string>, copied: set<string>, k: nat)
    requires k < |files|
    ensures var s := Run(t, ctx, files[..k], copied);
            var r := CopyTask(s.tree, ctx, files[k], s.copied);
            var s' := Run(t, ctx, files[..k + 1], copied);
            s'.tree == r.tree && s'.copied == r.copied && s'.err == (if s.err.Some? then s.err else r.err)
  {
    assert files[..k + 1][..k] == files[..k];
  }

  /** All tasks, one after another, sharing the `copiedFiles` registry. */
  method CopyAll(fs: FileSystem, ctx: Context, files: seq<string>) returns (err: Option<Errno>)
    modifies fs
    ensures fs.tree == Run(old(fs.tree), ctx, files, {}).tree
    ensures err == Run(old(fs.tree), ctx, files, {}).err
  {
    var copiedFiles: set<string> := {};
    err := None;
    for k := 0 to |files|
      invariant var s := Run(old(fs.tree), ctx, files[..k], {});
                fs.tree == s.tree && copiedFiles == s.copied && err == s.err
    {
      RunNext(old(fs.tree), ctx, files, {}, k);
      var taskErr;
      copiedFiles, taskErr := CopyTracedFile(fs, ctx, files[k], copiedFiles);
      if err.None? {
        err := taskErr;
      }
    }
    assert files[..|files|] == files;
  }

  /**
   * `closeBundle`: trace the built entry from the workspace root, keep the
   * traced dependencies outside the output directory, and copy them.
   */
  method CloseBundle(fs: FileSystem, root: string, outDir: string, serverEntry: string,
                     searchForWorkspaceRoot: string -> string,
                     relative: (string, string) -> string,
                     nodeFileTrace: (seq<string>, string) -> Closure.Trace)
    returns (err: Option<Errno>)
    modifies fs
    ensures var ctx := ContextOf(root, outDir, searchForWorkspaceRoot, relative);
            var files := Closure.Files(nodeFileTrace([Config.BuiltEntryName(serverEntry)], ctx.workspaceRoot),
                                       ctx.relativeDistDir);
            fs.tree == Run(old(fs.tree), ctx, files, {}).tree && err == Run(old(fs.tree), ctx, files, {}).err
  {
    var ctx := ContextOf(root, outDir, searchForWorkspaceRoot, relative);
    var builtEntry := Config.BuiltEntryName(serverEntry);
    var result := nodeFileTrace([builtEntry], ctx.workspaceRoot);
    var tracedDeps := Closure.CollectTracedDeps(result);
    var files := Closure.OutsideDist(tracedDeps, ctx.relativeDistDir);
    err := CopyAll(fs, ctx, files);
  }
}
