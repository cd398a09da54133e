/**
 * The two `path` functions whose results the plugin compares or writes to:
 * `path.join` and `path.dirname`, for POSIX paths that are already in normal
 * form (no `.` or `..` components, no repeated or trailing separators).
 */
module Paths {
  import opened Wrappers
  import opened Text

  /** `path.join(a, b)` for operands in normal form, `b` not starting with a separator. */
  function PathJoin(a: string, b: string): (r: string)
    ensures r != ""
    ensures a != "" ==> StartsWith(r, a)
    ensures a == "" && b != "" ==> r == b
    ensures a != "" && b != "" ==> StartsWith(r, a + "/") && r[|a| + 1..] == b
  {
    if a == "" then (if b == "" then "." else b)
    else if b == "" then a
    else
      var r := a + "/" + b;
      assert r[..|a|] == a && r[..|a| + 1] == a + "/" && r[|a| + 1..] == b;
      r
  }

  /**
   * `path.dirname(p)` for a path without a trailing separator: `.` when there
   * is no separator, `/` when the only one is the leading one, and otherwise
   * everything before the last separator.
   */
  function Dirname(p: string): (d: string)
    ensures '/' !in p ==> d == "."
    ensures '/' in p ==>
              || (p[0] == '/' && '/' !in p[1..] && d == "/")
              || (d != "" && StartsWith(p, d + "/") && '/' !in p[|d| + 1..])
  {
    match LastIndexOf(p, '/')
    case None => "."
    case Some(i) =>
      if i == 0 then "/"
      else
        assert p[..i] + "/" == p[..i + 1];
        p[..i]
  }

  /** The directory of `a/b` is `a` followed by the directory of `b`, or `a` itself when `b` is a file name. */
  lemma DirnameOfJoin(a: string, b: string)
    requires a != "" && b != "" && b[0] != '/'
    ensures Dirname(PathJoin(a, b)) == if '/' in b then a + "/" + Dirname(b) else a
  {
    var s := a + "/" + b;
    assert PathJoin(a, b) == s;
    assert s == (a + "/") + b;
    if '/' in b {
      var k := LastIndexOf(b, '/').value;
      LastIndexOfInSuffix(a + "/", b, '/', k);
      assert k != 0;
      assert s[..|a| + 1 + k] == a + "/" + b[..k];
    } else {
      LastIndexOfInPrefix(a + "/", b, '/');
      LastIndexOfInSuffix(a, "/", '/', 0);
      assert s[..|a|] == a;
    }
  }
}
