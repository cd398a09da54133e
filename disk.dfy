/**
 * The part of `fs/promises` that `closeBundle` uses (`mkdir` with
 * `recursive`, `readlink`, `symlink`, `copyFile`), on a file tree kept as a
 * map from absolute path to entry. Symbolic links are entries of their own
 * and are never followed.
 */
module Disk {
  import opened Wrappers
  import Paths

  /** The error codes the four calls can fail with. */
  datatype Errno = ENOENT | EEXIST | EINVAL | EISDIR | ENOTDIR

  datatype Entry = File(data: seq<bv8>) | Link(target: string) | Dir

  type Tree = map<string, Entry>

  /** The tree after a call and the error it rejected with, if any. */
  datatype Effect = Effect(tree: Tree, err: Option<Errno>)

  datatype Outcome<T> = Ok(value: T) | Fail(errno: Errno)

  predicate IsDir(t: Tree, p: string) {
    p in t && t[p] == Dir
  }

  /** The directory holding `p` exists; `/` and the working directory `.` always do. */
  predicate ParentExists(t: Tree, p: string) {
    var d := Paths.Dirname(p);
    d == "/" || d == "." || IsDir(t, d)
  }

  /** The directories `mkdir(dir, { recursive: true })` sees to: each prefix of `dir` ending before a separator, and `dir`. */
  function DirChain(dir: string): (chain: set<string>)
    ensures dir != "" ==> dir in chain
  {
    assert dir != "" ==> dir[..|dir|] == dir;
    set i | 0 < i <= |dir| && (i == |dir| || dir[i] == '/') :: dir[..i]
  }

  /**
   * `mkdir(dir, { recursive: true })`: fails with `EEXIST` when `dir` is
   * something other than a directory, with `ENOTDIR` when one of its
   * ancestors is, and otherwise creates the missing directories.
   */
  function MkdirEffect(t: Tree, dir: string): (e: Effect)
    ensures e.err.None? <==> forall q :: q in DirChain(dir) && q in t ==> t[q] == Dir
    ensures e.err.None? ==> forall q :: q in DirChain(dir) ==> IsDir(e.tree, q)
    ensures e.err.Some? ==> e.tree == t && exists q :: q in DirChain(dir) && q in t && t[q] != Dir
    ensures forall p :: p !in DirChain(dir) ==> (p in e.tree <==> p in t) && (p in t ==> e.tree[p] == t[p])
    ensures forall p :: p in t && t[p] == Dir ==> IsDir(e.tree, p)
  {
    var chain := DirChain(dir);
    if exists q :: q in chain && q in t && t[q] != Dir then
      Effect(t, Some(if dir in t && t[dir] != Dir then EEXIST else ENOTDIR))
    else
      Effect(map p | p in t.Keys + chain :: if p in chain then Dir else t[p], None)
  }

  /** `readlink(p)`: the target of a link; `ENOENT` when nothing is there, `EINVAL` when it is not a link. */
  function ReadLinkResult(t: Tree, p: string): (r: Outcome<string>)
    ensures r.Ok? <==> p in t && t[p].Link?
    ensures r.Ok? ==> t[p] == Link(r.value)
    ensures r == Fail(ENOENT) <==> p !in t
  {
    if p !in t then Fail(ENOENT)
    else match t[p]
      case Link(target) => Ok(target)
      case _ => Fail(EINVAL)
  }

  /**
   * `symlink(target, p)`: `ENOENT` for an empty target, which the kernel
   * rejects before it looks at `p`; then `EEXIST` when `p` is taken, and
   * `ENOENT` for a missing parent.
   */
  function SymlinkEffect(t: Tree, target: string, p: string): (e: Effect)
    ensures e.err.None? <==> p !in t && target != "" && ParentExists(t, p)
    ensures e.err == Some(EEXIST) <==> p in t && target != ""
    ensures target == "" ==> e.err == Some(ENOENT)
    ensures e.err.Some? ==> e.tree == t
    ensures e.err.None? ==> e.tree == t[p := Link(target)]
  {
    if target == "" then Effect(t, Some(ENOENT))
    else if p in t then Effect(t, Some(EEXIST))
    else if !ParentExists(t, p) then Effect(t, Some(ENOENT))
    else Effect(t[p := Link(target)], None)
  }

  /**
   * `copyFile(src, dst)`: the bytes of the regular file `src` replace
   * whatever non-directory `dst` was. A missing source (or a link, which is
   * not followed) gives `ENOENT`, a directory on either side `EISDIR`, a
   * missing parent of `dst` `ENOENT`.
   */
  function CopyFileEffect(t: Tree, src: string, dst: string): (e: Effect)
    ensures e.err.None? <==> src in t && t[src].File? && !IsDir(t, dst) && ParentExists(t, dst)
    ensures e.err.Some? ==> e.tree == t
    ensures e.err.None? ==> e.tree == t[dst := t[src]]
  {
    if src !in t || t[src].Link? then Effect(t, Some(ENOENT))
    else if t[src] == Dir || IsDir(t, dst) then Effect(t, Some(EISDIR))
    else if !ParentExists(t, dst) then Effect(t, Some(ENOENT))
    else Effect(t[dst := t[src]], None)
  }

  /** A successful `mkdir -p` of the directory of `p` lets an entry be created at `p`. */
  lemma MkdirMakesParent(t: Tree, p: string)
    requires MkdirEffect(t, Paths.Dirname(p)).err.None?
    ensures ParentExists(MkdirEffect(t, Paths.Dirname(p)).tree, p)
  {
    var d := Paths.Dirname(p);
    assert d != "";
  }

  /** The file system the plugin writes to, one call at a time. */
  class FileSystem {
    var tree: Tree

    constructor (initial: Tree)
      ensures tree == initial
    {
      tree := initial;
    }

    method Mkdir(dir: string) returns (err: Option<Errno>)
      modifies this
      ensures Effect(tree, err) == MkdirEffect(old(tree), dir)
    {
      var e := MkdirEffect(tree, dir);
      tree, err := e.tree, e.err;
    }

    method ReadLink(p: string) returns (r: Outcome<string>)
      ensures r == ReadLinkResult(tree, p)
    {
      r := ReadLinkResult(tree, p);
    }

    method Symlink(target: string, p: string) returns (err: Option<Errno>)
      modifies this
      ensures Effect(tree, err) == SymlinkEffect(old(tree), target, p)
    {
      var e := SymlinkEffect(tree, target, p);
      tree, err := e.tree, e.err;
    }

    method CopyFile(src: string, dst: string) returns (err: Option<Errno>)
      modifies this
      ensures Effect(tree, err) == CopyFileEffect(old(tree), src, dst)
    {
      var e := CopyFileEffect(tree, src, dst);
      tree, err := e.tree, e.err;
    }
  }
}
