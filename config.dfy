/**
 * The configuration-time parts of the `vike:standalone` plugin: when it
 * applies, which module specifiers stay external to the server bundle, and
 * the name of the built server entry that is handed to the tracer.
 */
module Config {
  import opened Wrappers
  import opened Text

  /** The build environment flags: `isSsrBuild` is Vite 5's name, `ssrBuild` Vite 4's; either may be absent. */
  datatype BuildEnv = BuildEnv(isSsrBuild: Option<bool>, ssrBuild: Option<bool>)

  /** JavaScript truthiness of an optional flag: `undefined` and `false` are falsy. */
  predicate Truthy(flag: Option<bool>) {
    flag.Some? && flag.value
  }

  /** `apply`: the plugin takes part in the server-side build only. */
  function Apply(env: BuildEnv): (applies: bool)
    ensures applies <==> env.isSsrBuild == Some(true) || env.ssrBuild == Some(true)
    ensures env.isSsrBuild == None && env.ssrBuild == None ==> !applies
  {
    Truthy(env.isSsrBuild) || Truthy(env.ssrBuild)
  }

  const NodePrefix: string := "node:"

  /** The `node:`-prefixed spelling of every built-in module, in order. */
  function NodePrefixed(builtins: seq<string>): (r: seq<string>)
    ensures |r| == |builtins|
    ensures forall i :: 0 <= i < |r| ==> StartsWith(r[i], NodePrefix) && r[i][|NodePrefix|..] == builtins[i]
  {
    seq(|builtins|, i requires 0 <= i < |builtins| => NodePrefix + builtins[i])
  }

  /** The specifiers kept out of the bundle: the native dependencies, the built-ins, and the built-ins again with `node:`. */
  function External(native: seq<string>, builtins: seq<string>): (r: seq<string>)
    ensures |r| == |native| + 2 * |builtins|
    ensures r[..|native|] == native && r[|native|..|native| + |builtins|] == builtins
    ensures r[|native| + |builtins|..] == NodePrefixed(builtins)
  {
    native + builtins + NodePrefixed(builtins)
  }

  /** A specifier is external exactly when it is a native dependency, a built-in, or `node:` followed by a built-in. */
  lemma ExternalMembers(native: seq<string>, builtins: seq<string>, s: string)
    ensures s in External(native, builtins)
        <==> s in native || s in builtins || (StartsWith(s, NodePrefix) && s[|NodePrefix|..] in builtins)
  {
    var prefixed := NodePrefixed(builtins);
    assert External(native, builtins) == native + builtins + prefixed;
    if StartsWith(s, NodePrefix) && s[|NodePrefix|..] in builtins {
      var i :| 0 <= i < |builtins| && builtins[i] == s[|NodePrefix|..];
      assert s == NodePrefix + s[|NodePrefix|..];
      assert prefixed[i] == NodePrefix + builtins[i];
      assert s in prefixed;
    }
  }

  /**
   * The alternatives of `^(?!(a|b|...)$)`: an empty list joins to the empty
   * string, which leaves the single alternative `""`.
   */
  function Alternatives(external: seq<string>): seq<string> {
    if external == [] then [""] else external
  }

  /**
   * `noExternalRegex.test(s)`: the specifier is not exactly one of the
   * alternatives; with no alternatives at all, only the empty specifier is
   * rejected.
   */
  predicate NoExternal(external: seq<string>, s: string)
    ensures external != [] ==> (NoExternal(external, s) <==> s !in external)
    ensures external == [] ==> (NoExternal(external, s) <==> s != "")
  {
    s !in Alternatives(external)
  }

  /** With the built-ins present, the `noExternal` pattern accepts exactly the specifiers that are not external. */
  lemma NoExternalIsComplement(native: seq<string>, builtins: seq<string>, s: string)
    requires builtins != []
    ensures NoExternal(External(native, builtins), s)
        <==> !(s in native || s in builtins || (StartsWith(s, NodePrefix) && s[|NodePrefix|..] in builtins))
  {
    ExternalMembers(native, builtins, s);
  }

  /** The name the server entry has once built: its file name up to the first `.`, with `.mjs`. */
  function BuiltEntryName(serverEntry: string): (name: string)
    ensures |name| >= 4 && name[|name| - 4..] == ".mjs"
    ensures '/' !in name[..|name| - 4] && '.' !in name[..|name| - 4]
  {
    var segments := Split(serverEntry, '/');
    var file := segments[|segments| - 1];
    var stem := Split(file, '.')[0];
    SplitPiecesFrom(file, '.');
    assert forall x :: x in stem ==> x in file;
    assert (stem + ".mjs")[..|stem|] == stem;
    stem + ".mjs"
  }

  /** For an entry `dir/stem.ext`, the built entry is `stem.mjs`. */
  lemma BuiltEntryNameOf(dir: string, stem: string, ext: string)
    requires dir == [] || dir[|dir| - 1] == '/'
    requires '/' !in stem && '.' !in stem
    requires '/' !in ext && (ext == [] || ext[0] == '.')
    ensures BuiltEntryName(dir + stem + ext) == stem + ".mjs"
  {
    assert dir + stem + ext == dir + (stem + ext);
    SplitLast(dir, stem + ext, '/');
    SplitFirst(stem, ext, '.');
  }
}
