/**
 * The start of `closeBundle`: from the tracer's result to the list of files
 * that are copied next to the built server. Files the tracer was asked about
 * (reason `initial`) are skipped, Windows separators become `/`, duplicates
 * collapse as in a JavaScript `Set` (first insertion wins the position), and
 * anything under the build output directory is dropped by a plain prefix test.
 */
module Closure {
  import opened Text

  /** The reason tags of each traced file (`result.reasons.get(file).type`). */
  type Reasons = map<string, seq<string>>

  /** What the tracer returns: the traced files, in order, and their reasons. */
  datatype Trace = Trace(fileList: seq<string>, reasons: Reasons)

  /** `result.reasons.get(file)?.type.includes('initial')`: a file without reasons is not initial. */
  predicate IsInitial(reasons: Reasons, file: string)
    ensures file !in reasons ==> !IsInitial(reasons, file)
    ensures file in reasons && "initial" in reasons[file] ==> IsInitial(reasons, file)
    ensures IsInitial(reasons, file) ==> exists k :: 0 <= k < |reasons[file]| && reasons[file][k] == "initial"
  {
    file in reasons && "initial" in reasons[file]
  }

  /** `file.replace(/\\/g, '/')`: every backslash becomes a slash. */
  function Normalize(file: string): (r: string)
    ensures |r| == |file| && '\\' !in r
    ensures forall i :: 0 <= i < |file| && file[i] != '\\' ==> r[i] == file[i]
    ensures forall i :: 0 <= i < |file| && file[i] == '\\' ==> r[i] == '/'
  {
    seq(|file|, i requires 0 <= i < |file| => if file[i] == '\\' then '/' else file[i])
  }

  /** Normalising twice is normalising once. */
  lemma NormalizeIdempotent(file: string)
    ensures Normalize(Normalize(file)) == Normalize(file)
  {
    var once := Normalize(file);
    assert forall i :: 0 <= i < |once| ==> once[i] != '\\' by {
      forall i | 0 <= i < |once| ensures once[i] != '\\' {
        assert once[i] in once;
      }
    }
  }

  /** A string without backslashes is its own normal form. */
  lemma NormalizeKeepsSlashPaths(file: string)
    requires '\\' !in file
    ensures Normalize(file) == file
  {
    assert forall i :: 0 <= i < |file| ==> file[i] != '\\' by {
      forall i | 0 <= i < |file| ensures file[i] != '\\' {
        assert file[i] in file;
      }
    }
  }

  /** No element occurs twice, as in the iteration order of a JavaScript `Set`. */
  predicate Distinct(s: seq<string>) {
    forall i, j :: 0 <= i < j < |s| ==> s[i] != s[j]
  }

  /** `set.add(x)` on a JavaScript `Set` kept as its insertion order. */
  function SetAdd(s: seq<string>, x: string): (r: seq<string>)
    ensures x in s ==> r == s
    ensures x !in s ==> r == s + [x]
  {
    if x in s then s else s + [x]
  }

  /** `tracedDeps` after the loop of `closeBundle` has visited `fileList`. */
  function TracedDeps(fileList: seq<string>, reasons: Reasons): seq<string>
    decreases |fileList|
  {
    if fileList == [] then []
    else
      var deps := TracedDeps(fileList[..|fileList| - 1], reasons);
      var file := fileList[|fileList| - 1];
      if IsInitial(reasons, file) then deps else SetAdd(deps, Normalize(file))
  }

  /** The loop that fills `tracedDeps`. */
  method CollectTracedDeps(trace: Trace) returns (deps: seq<string>)
    ensures deps == TracedDeps(trace.fileList, trace.reasons)
  {
    deps := [];
    for k := 0 to |trace.fileList|
      invariant deps == TracedDeps(trace.fileList[..k], trace.reasons)
    {
      var file := trace.fileList[k];
      assert trace.fileList[..k + 1][..k] == trace.fileList[..k];
      if IsInitial(trace.reasons, file) {
        continue;
      }
      deps := SetAdd(deps, Normalize(file));
    }
    assert trace.fileList[..|trace.fileList|] == trace.fileList;
  }

  /** `tracedDeps` holds no path twice. */
  lemma {:induction false} TracedDepsDistinct(fileList: seq<string>, reasons: Reasons)
    ensures Distinct(TracedDeps(fileList, reasons))
    decreases |fileList|
  {
    if fileList != [] {
      var deps := TracedDeps(fileList[..|fileList| - 1], reasons);
      TracedDepsDistinct(fileList[..|fileList| - 1], reasons);
      var x := Normalize(fileList[|fileList| - 1]);
      if x !in deps {
        assert forall i :: 0 <= i < |deps| ==> (deps + [x])[i] == deps[i] != x;
      }
    }
  }

  /** A path is in `tracedDeps` iff it is the normal form of a traced file that is not initial. */
  lemma {:induction false} TracedDepsMembers(fileList: seq<string>, reasons: Reasons, path: string)
    ensures path in TracedDeps(fileList, reasons)
        <==> exists file :: file in fileList && !IsInitial(reasons, file) && Normalize(file) == path
    decreases |fileList|
  {
    if fileList != [] {
      var init := fileList[..|fileList| - 1];
      var last := fileList[|fileList| - 1];
      TracedDepsMembers(init, reasons, path);
      assert fileList == init + [last];
      if path in TracedDeps(fileList, reasons) {
        if path !in TracedDeps(init, reasons) {
          assert last in fileList && !IsInitial(reasons, last) && Normalize(last) == path;
        } else {
          var file :| file in init && !IsInitial(reasons, file) && Normalize(file) == path;
          assert file in fileList;
        }
      }
      if exists file :: file in fileList && !IsInitial(reasons, file) && Normalize(file) == path {
        var file :| file in fileList && !IsInitial(reasons, file) && Normalize(file) == path;
        if file != last {
          assert file in init;
        }
      }
    }
  }

  /** `[...tracedDeps].filter((path) => !path.startsWith(relativeDistDir))`, order kept. */
  function OutsideDist(deps: seq<string>, relativeDistDir: string): (files: seq<string>)
    ensures |files| <= |deps|
    ensures forall x :: x in files <==> x in deps && !StartsWith(x, relativeDistDir)
    decreases |deps|
  {
    if deps == [] then []
    else
      var rest := OutsideDist(deps[1..], relativeDistDir);
      assert deps == [deps[0]] + deps[1..];
      if StartsWith(deps[0], relativeDistDir) then rest else [deps[0]] + rest
  }

  /** The filter keeps the order of the list: two kept paths come from two entries in the same order. */
  lemma {:induction false} OutsideDistKeepsOrder(deps: seq<string>, relativeDistDir: string, i: nat, j: nat)
    requires i < j < |OutsideDist(deps, relativeDistDir)|
    ensures var files := OutsideDist(deps, relativeDistDir);
            exists p, q :: 0 <= p < q < |deps| && deps[p] == files[i] && deps[q] == files[j]
    decreases |deps|
  {
    var files := OutsideDist(deps, relativeDistDir);
    var tail := deps[1..];
    var rest := OutsideDist(tail, relativeDistDir);
    if StartsWith(deps[0], relativeDistDir) {
      assert files == rest;
      OutsideDistKeepsOrder(tail, relativeDistDir, i, j);
      var p, q :| 0 <= p < q < |tail| && tail[p] == rest[i] && tail[q] == rest[j];
      assert deps[p + 1] == files[i] && deps[q + 1] == files[j];
    } else if i == 0 {
      assert files == [deps[0]] + rest;
      assert files[j] == rest[j - 1];
      assert rest[j - 1] in tail;
      var q :| 0 <= q < |tail| && tail[q] == rest[j - 1];
      assert deps[0] == files[0] && deps[q + 1] == files[j];
    } else {
      assert files == [deps[0]] + rest;
      OutsideDistKeepsOrder(tail, relativeDistDir, i - 1, j - 1);
      var p, q :| 0 <= p < q < |tail| && tail[p] == rest[i - 1] && tail[q] == rest[j - 1];
      assert deps[p + 1] == files[i] && deps[q + 1] == files[j];
    }
  }

  /** Filtering a list without duplicates gives a list without duplicates. */
  lemma {:induction false} OutsideDistDistinct(deps: seq<string>, relativeDistDir: string)
    requires Distinct(deps)
    ensures Distinct(OutsideDist(deps, relativeDistDir))
    decreases |deps|
  {
    if deps != [] {
      OutsideDistDistinct(deps[1..], relativeDistDir);
      var rest := OutsideDist(deps[1..], relativeDistDir);
      assert deps[0] !in deps[1..] by {
        forall i | 0 <= i < |deps[1..]| ensures deps[1..][i] != deps[0] {
          assert deps[1..][i] == deps[i + 1];
        }
      }
      assert deps[0] !in rest;
      assert forall i :: 0 <= i < |rest| ==> ([deps[0]] + rest)[i + 1] == rest[i];
    }
  }

  /** The files `closeBundle` copies. */
  function Files(trace: Trace, relativeDistDir: string): (files: seq<string>)
    ensures Distinct(files)
    ensures forall x :: x in files ==> !StartsWith(x, relativeDistDir)
  {
    var deps := TracedDeps(trace.fileList, trace.reasons);
    TracedDepsDistinct(trace.fileList, trace.reasons);
    OutsideDistDistinct(deps, relativeDistDir);
    OutsideDist(deps, relativeDistDir)
  }

  /**
   * A path is copied iff some traced file is not initial, normalises to the
   * path, and the path does not start with the output directory; no path is
   * copied twice.
   */
  lemma FilesMembers(trace: Trace, relativeDistDir: string, path: string)
    ensures path in Files(trace, relativeDistDir)
        <==> !StartsWith(path, relativeDistDir)
             && exists file :: file in trace.fileList && !IsInitial(trace.reasons, file) && Normalize(file) == path
    ensures Distinct(Files(trace, relativeDistDir))
  {
    TracedDepsMembers(trace.fileList, trace.reasons, path);
    TracedDepsDistinct(trace.fileList, trace.reasons);
    OutsideDistDistinct(TracedDeps(trace.fileList, trace.reasons), relativeDistDir);
  }

  /** An empty `relativeDistDir` is a prefix of every path, so nothing is copied at all. */
  lemma EmptyDistDirDropsAll(trace: Trace)
    ensures Files(trace, "") == []
  {
    var files := Files(trace, "");
    if files != [] {
      assert StartsWith(files[0], "");
    }
  }

  /** The output directory is left out by a string prefix test, so a sibling sharing its prefix goes too. */
  lemma DistPrefixIsNotASegmentTest()
    ensures OutsideDist(["distribution/a.js"], "dist") == []
  {
    assert StartsWith("distribution/a.js", "dist");
  }

  /** The traced entry itself is skipped and the dependencies are kept. */
  lemma ClosureExample()
    ensures Files(Trace(["server/index.mjs", "lib/helper.js", "node_modules/pkg/index.js"],
                        map["server/index.mjs" := ["initial"], "lib/helper.js" := ["dependency"]]),
                  "dist")
         == ["lib/helper.js", "node_modules/pkg/index.js"]
  {
    var list := ["server/index.mjs", "lib/helper.js", "node_modules/pkg/index.js"];
    var reasons := map["server/index.mjs" := ["initial"], "lib/helper.js" := ["dependency"]];
    NormalizeKeepsSlashPaths("lib/helper.js");
    NormalizeKeepsSlashPaths("node_modules/pkg/index.js");
    assert list[..1] == ["server/index.mjs"];
    assert list[..2] == ["server/index.mjs", "lib/helper.js"];
    assert TracedDeps(list[..1], reasons) == [];
    assert TracedDeps(list[..2], reasons) == ["lib/helper.js"];
    assert TracedDeps(list, reasons) == ["lib/helper.js", "node_modules/pkg/index.js"];
    assert "lib/helper.js"[0] != "dist"[0];
    assert "node_modules/pkg/index.js"[0] != "dist"[0];
  }
}
