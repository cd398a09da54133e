/**
 * The pnpm-monorepo support of `closeBundle`. A traced path inside the
 * project's own directory (`relativeRoot`, seen from the workspace root) is
 * copied without that prefix, and a symbolic link found there has as many
 * leading components dropped from its target as the prefix had separators,
 * so that the copied link still reaches the copied target.
 */
module Monorepo {
  import opened Text

  /** Where a traced file goes below the output directory, and how many prefix components were removed. */
  datatype Placement = Placement(path: string, segments: nat)

  /** The prefix that is stripped: `${relativeRoot}/`. */
  function RootPrefix(relativeRoot: string): string {
    relativeRoot + "/"
  }

  /**
   * Lines 103-107: strip the project prefix from a path that starts with it
   * and not with the output directory. `replace` removes the first occurrence
   * of the prefix, which is the one at the start.
   */
  function StripNestedRoot(file: string, relativeRoot: string, relativeDistDir: string): (p: Placement)
    ensures p.segments > 0 <==> StartsWith(file, RootPrefix(relativeRoot)) && !StartsWith(file, relativeDistDir)
    ensures p.segments == 0 ==> p.path == file
    ensures p.segments > 0 ==> RootPrefix(relativeRoot) + p.path == file
    ensures p.segments > 0 ==> p.segments == Count(RootPrefix(relativeRoot), '/')
  {
    var prefix := RootPrefix(relativeRoot);
    if StartsWith(file, prefix) && !StartsWith(file, relativeDistDir) then
      assert prefix[|prefix| - 1] == '/';
      assert file == prefix + file[|prefix|..];
      Placement(file[|prefix|..], Count(prefix, '/'))
    else
      Placement(file, 0)
  }

  /** For a project directory of components `root`, the number of removed components is `|root|`. */
  lemma StripSegmentsCount(root: seq<string>)
    requires |root| >= 1
    requires forall k :: 0 <= k < |root| ==> '/' !in root[k]
    ensures Count(RootPrefix(Join(root, "/")), '/') == |root|
  {
    SplitJoin(root, '/');
    SplitCount(Join(root, "/"), '/');
    CountConcat(Join(root, "/"), "/", '/');
  }

  /** With the project at the workspace root, a relative path is never stripped. */
  lemma EmptyRootNeverStrips(file: string, relativeDistDir: string)
    requires file == [] || file[0] != '/'
    ensures StripNestedRoot(file, "", relativeDistDir) == Placement(file, 0)
  {
  }

  /** A path made of the project prefix and a rest, outside the output directory, is placed at the rest. */
  lemma StripPrefixed(relativeRoot: string, rest: string, relativeDistDir: string)
    requires !StartsWith(RootPrefix(relativeRoot) + rest, relativeDistDir)
    ensures StripNestedRoot(RootPrefix(relativeRoot) + rest, relativeRoot, relativeDistDir)
         == Placement(rest, Count(RootPrefix(relativeRoot), '/'))
  {
    var prefix := RootPrefix(relativeRoot);
    assert (prefix + rest)[..|prefix|] == prefix;
    assert (prefix + rest)[|prefix|..] == rest;
  }

  /** The project directory `packages/app` is two components deep. */
  lemma ExampleRootDepth()
    ensures Count(RootPrefix("packages/app"), '/') == 2
  {
    var root := ["packages", "app"];
    assert root[1..] == ["app"];
    assert '/' !in root[0] && '/' !in root[1];
    StripSegmentsCount(root);
    assert Join(root, "/") == "packages/app";
  }

  /** `packages/app/node_modules/x/index.js` in project `packages/app` is copied to `node_modules/x/index.js`, two components up. */
  lemma StripExample()
    ensures StripNestedRoot("packages/app/node_modules/x/index.js", "packages/app", "dist")
         == Placement("node_modules/x/index.js", 2)
  {
    var file := "packages/app/node_modules/x/index.js";
    assert file == RootPrefix("packages/app") + "node_modules/x/index.js";
    assert file[0] != "dist"[0];
    StripPrefixed("packages/app", "node_modules/x/index.js", "dist");
    ExampleRootDepth();
  }

  /** `s.split(c, limit)`: at most the first `limit` pieces. */
  function SplitLimit(s: string, c: char, limit: nat): (pieces: seq<string>)
    ensures pieces == Split(s, c)[..if limit <= |Split(s, c)| then limit else |Split(s, c)|]
  {
    var all := Split(s, c);
    if limit <= |all| then all[..limit] else all
  }

  /**
   * Lines 121-124: with `segments` non-zero, the target loses everything up
   * to the separator after its first `segments` pieces.
   */
  function AdjustTarget(target: string, segments: nat): (r: string)
    ensures |r| <= |target| && target[|target| - |r|..] == r
    ensures segments == 0 ==> r == target
  {
    if segments == 0 then target
    else
      var r := Substring(target, |Join(SplitLimit(target, '/', segments), "/")| + 1);
      assert target[|target| - |r|..] == r;
      r
  }

  /** Reference: the `/`-separated components of `target` from the `k`-th on, or nothing if there are not more than `k`. */
  function DropComponents(target: string, k: nat): string {
    var comps := Split(target, '/');
    if k < |comps| then Join(comps[k..], "/") else ""
  }

  /** The substring arithmetic of the adjustment drops exactly the first `segments` components. */
  lemma AdjustTargetDropsComponents(target: string, segments: nat)
    requires segments > 0
    ensures AdjustTarget(target, segments) == DropComponents(target, segments)
  {
    var comps := Split(target, '/');
    JoinSplit(target, '/');
    if segments < |comps| {
      JoinAppend(comps[..segments], comps[segments..], "/");
      assert comps[..segments] + comps[segments..] == comps;
      var head := Join(comps[..segments], "/");
      assert target == head + "/" + Join(comps[segments..], "/");
      assert target[|head| + 1..] == Join(comps[segments..], "/");
    } else {
      assert SplitLimit(target, '/', segments) == comps;
    }
  }

  /** On a target built from components, the adjustment keeps the components after the first `k`. */
  lemma AdjustJoined(comps: seq<string>, k: nat)
    requires |comps| >= 1 && k > 0
    requires forall j :: 0 <= j < |comps| ==> '/' !in comps[j]
    ensures AdjustTarget(Join(comps, "/"), k) == if k < |comps| then Join(comps[k..], "/") else ""
  {
    AdjustTargetDropsComponents(Join(comps, "/"), k);
    SplitJoin(comps, '/');
  }

  /** `k` steps up. */
  function Ups(k: nat): (r: seq<string>)
    ensures |r| == k && forall j :: 0 <= j < k ==> r[j] == ".."
  {
    seq(k, _ => "..")
  }

  /** Steps up followed by components free of separators are themselves free of separators. */
  lemma UpsThenFree(k: nat, u: seq<string>)
    requires forall j :: 0 <= j < |u| ==> '/' !in u[j]
    ensures var comps := Ups(k) + u; forall j :: 0 <= j < |comps| ==> '/' !in comps[j]
  {
    var comps := Ups(k) + u;
    forall j | 0 <= j < |comps| ensures '/' !in comps[j] {
      if j < k {
        assert comps[j] == "..";
      } else {
        assert comps[j] == u[j - k];
      }
    }
  }

  /** Dropping `a` of `a + b` steps up leaves `b` of them. */
  lemma UpsDrop(a: nat, b: nat, u: seq<string>)
    ensures (Ups(a + b) + u)[a..] == Ups(b) + u
  {
  }

  /** The directory (as components) a relative link target leads to from directory `dir`. */
  function Resolve(dir: seq<string>, target: seq<string>): seq<string>
    decreases |target|
  {
    if target == [] then dir
    else if target[0] == ".." then Resolve(if dir == [] then [] else dir[..|dir| - 1], target[1..])
    else Resolve(dir + [target[0]], target[1..])
  }

  /** Components without a step up are appended as they are. */
  lemma {:induction false} ResolveDown(dir: seq<string>, u: seq<string>)
    requires ".." !in u
    ensures Resolve(dir, u) == dir + u
    decreases |u|
  {
    if u != [] {
      assert ".." !in u[1..];
      ResolveDown(dir + [u[0]], u[1..]);
      assert dir + [u[0]] + u[1..] == dir + u;
    }
  }

  /** As many steps up as `dir` is deep lead back to the top. */
  lemma {:induction false} ResolveUps(dir: seq<string>, u: seq<string>)
    ensures Resolve(dir, Ups(|dir|) + u) == Resolve([], u)
    decreases |dir|
  {
    if dir != [] {
      var t := Ups(|dir|) + u;
      assert t[1..] == Ups(|dir| - 1) + u;
      ResolveUps(dir[..|dir| - 1], u);
    } else {
      assert Ups(0) + u == u;
    }
  }

  /**
   * Why targets are adjusted: a link in directory `root + below` of the
   * workspace whose target climbs to the workspace root and descends into
   * `u` is copied to `below` of the output directory (the project prefix
   * `root` stripped, `|root|` segments); there the adjusted target climbs
   * to the output directory and descends into the same `u`.
   */
  lemma AdjustedLinkResolves(root: seq<string>, below: seq<string>, u: seq<string>)
    requires |root| >= 1 && |u| >= 1 && ".." !in u
    requires forall j :: 0 <= j < |root| ==> '/' !in root[j]
    requires forall j :: 0 <= j < |u| ==> '/' !in u[j]
    ensures var target := Join(Ups(|root| + |below|) + u, "/");
            && Resolve(root + below, Split(target, '/')) == u
            && Resolve(below, Split(AdjustTarget(target, |root|), '/')) == u
  {
    var comps := Ups(|root| + |below|) + u;
    var target := Join(comps, "/");
    UpsThenFree(|root| + |below|, u);
    SplitJoin(comps, '/');
    assert Split(target, '/') == comps;
    ResolveDown([], u);
    assert [] + u == u;
    assert |root + below| == |root| + |below|;
    ResolveUps(root + below, u);
    assert Resolve(root + below, comps) == u;
    var rest := Ups(|below|) + u;
    AdjustJoined(comps, |root|);
    UpsDrop(|root|, |below|, u);
    assert AdjustTarget(target, |root|) == Join(rest, "/");
    UpsThenFree(|below|, u);
    SplitJoin(rest, '/');
    ResolveUps(below, u);
    assert Resolve(below, rest) == u;
  }
}
