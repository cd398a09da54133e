/**
 * The JavaScript string and array operations the standalone plugin relies on
 * (`startsWith`, `indexOf`, `lastIndexOf`, `split`, `join`, `substring`),
 * on strings as sequences of characters.
 */
module Text {
  import opened Wrappers

  /** `p` occurs in `s` starting at index `i`. */
  predicate OccursAt(s: string, i: nat, p: string) {
    i + |p| <= |s| && s[i..i + |p|] == p
  }

  /** `s.startsWith(p)` */
  predicate StartsWith(s: string, p: string) {
    OccursAt(s, 0, p)
  }

  /** `s.includes(p)`: `p` occurs somewhere in `s`. */
  ghost predicate Contains(s: string, p: string) {
    exists i: nat :: OccursAt(s, i, p)
  }

  /** An occurrence is kept when text is put on either side. */
  lemma OccursInContext(x: string, s: string, y: string, i: nat, p: string)
    requires OccursAt(s, i, p)
    ensures OccursAt(x + s + y, |x| + i, p)
  {
    assert (x + s + y)[|x| + i..|x| + i + |p|] == s[i..i + |p|];
  }

  lemma ContainsInContext(x: string, s: string, y: string, p: string)
    requires Contains(s, p)
    ensures Contains(x + s + y, p)
  {
    var i: nat :| OccursAt(s, i, p);
    OccursInContext(x, s, y, i, p);
  }

  lemma ContainsInPrefix(s: string, y: string, p: string)
    requires Contains(s, p)
    ensures Contains(s + y, p)
  {
    var i: nat :| OccursAt(s, i, p);
    assert (s + y)[i..i + |p|] == s[i..i + |p|];
    assert OccursAt(s + y, i, p);
  }

  lemma ContainsInSuffix(x: string, s: string, p: string)
    requires Contains(s, p)
    ensures Contains(x + s, p)
  {
    var i: nat :| OccursAt(s, i, p);
    assert (x + s)[|x| + i..|x| + i + |p|] == s[i..i + |p|];
    assert OccursAt(x + s, |x| + i, p);
  }

  /** `s.indexOf(c)`, with `None` for -1. */
  function IndexOf(s: string, c: char): (r: Option<nat>)
    ensures r.None? <==> c !in s
    ensures r.Some? ==> r.value < |s| && s[r.value] == c && c !in s[..r.value]
  {
    if s == [] then None
    else if s[0] == c then Some(0)
    else
      match IndexOf(s[1..], c)
      case None =>
        assert s == [s[0]] + s[1..];
        None
      case Some(k) =>
        assert s[..k + 1] == [s[0]] + s[1..][..k];
        Some(k + 1)
  }

  /** The first occurrence is the only `c` with no `c` before it. */
  lemma IndexOfUnique(s: string, c: char, i: nat)
    requires i < |s| && s[i] == c && c !in s[..i]
    ensures IndexOf(s, c) == Some(i)
  {
    assert s[i] in s;
  }

  /** `s.lastIndexOf(c)`, with `None` for -1. */
  function LastIndexOf(s: string, c: char): (r: Option<nat>)
    ensures r.None? <==> c !in s
    ensures r.Some? ==> r.value < |s| && s[r.value] == c && c !in s[r.value + 1..]
  {
    if s == [] then None
    else if s[|s| - 1] == c then Some(|s| - 1)
    else
      var r := LastIndexOf(s[..|s| - 1], c);
      assert s == s[..|s| - 1] + [s[|s| - 1]];
      match r
      case None => None
      case Some(k) =>
        assert s[k + 1..] == s[..|s| - 1][k + 1..] + [s[|s| - 1]];
        Some(k)
  }

  /** The last occurrence is the only `c` with no `c` after it. */
  lemma LastIndexOfUnique(s: string, c: char, i: nat)
    requires i < |s| && s[i] == c && c !in s[i + 1..]
    ensures LastIndexOf(s, c) == Some(i)
  {
    assert s[i] in s;
  }

  /** The last `c` of `x + y` is the last one of `y` when `y` has one. */
  lemma LastIndexOfInSuffix(x: string, y: string, c: char, k: nat)
    requires LastIndexOf(y, c) == Some(k)
    ensures LastIndexOf(x + y, c) == Some(|x| + k)
  {
    var s, i := x + y, |x| + k;
    assert s[i] == y[k];
    assert s[i + 1..] == y[k + 1..];
    LastIndexOfUnique(s, c, i);
  }

  /** The last `c` of `x + y` is the last one of `x` when `y` has none. */
  lemma LastIndexOfInPrefix(x: string, y: string, c: char)
    requires c !in y
    ensures LastIndexOf(x + y, c) == LastIndexOf(x, c)
  {
    var s := x + y;
    if c in x {
      var k := LastIndexOf(x, c).value;
      assert s[k + 1..] == x[k + 1..] + y;
      LastIndexOfUnique(s, c, k);
    } else {
      assert forall j :: 0 <= j < |s| ==> s[j] != c by {
        forall j | 0 <= j < |s| ensures s[j] != c {
          if j < |x| {
            assert s[j] == x[j];
          } else {
            assert s[j] == y[j - |x|];
          }
        }
      }
    }
  }

  /** `s.split(c)` for a one-character separator: the pieces between the occurrences of `c`. */
  function Split(s: string, c: char): (pieces: seq<string>)
    ensures |pieces| >= 1
    ensures forall k :: 0 <= k < |pieces| ==> c !in pieces[k]
    decreases |s|
  {
    match IndexOf(s, c)
    case None => [s]
    case Some(i) => [s[..i]] + Split(s[i + 1..], c)
  }

  /** One step of `Split`: the piece before the first separator, then the split of the rest. */
  lemma SplitAt(s: string, c: char, i: nat)
    requires IndexOf(s, c) == Some(i)
    ensures Split(s, c) == [s[..i]] + Split(s[i + 1..], c)
  {
  }

  /** The first piece is everything before the first separator, or the whole string when it has none. */
  lemma SplitHead(s: string, c: char)
    ensures var head := Split(s, c)[0];
            StartsWith(s, head) && c !in head && (head == s || s[|head|] == c)
  {
    match IndexOf(s, c)
    case None =>
      assert s[..|s|] == s;
    case Some(i) =>
      SplitAt(s, c, i);
  }

  /** Every character of every piece comes from the split string. */
  lemma {:induction false} SplitPiecesFrom(s: string, c: char)
    ensures forall k, x :: 0 <= k < |Split(s, c)| && x in Split(s, c)[k] ==> x in s
    decreases |s|
  {
    match IndexOf(s, c)
    case None =>
    case Some(i) =>
      SplitAt(s, c, i);
      SplitPiecesFrom(s[i + 1..], c);
      assert forall x :: x in s[i + 1..] ==> x in s;
      assert forall x :: x in s[..i] ==> x in s;
  }

  /** `pieces.join(sep)` */
  function Join(pieces: seq<string>, sep: string): string
    decreases |pieces|
  {
    if |pieces| == 0 then ""
    else if |pieces| == 1 then pieces[0]
    else pieces[0] + sep + Join(pieces[1..], sep)
  }

  /** The length of a join: the pieces plus one separator between each two. */
  function TotalLength(pieces: seq<string>): nat
    decreases |pieces|
  {
    if pieces == [] then 0 else |pieces[0]| + TotalLength(pieces[1..])
  }

  lemma {:induction false} JoinLength(pieces: seq<string>, sep: string)
    requires |pieces| >= 1
    ensures |Join(pieces, sep)| == TotalLength(pieces) + (|pieces| - 1) * |sep|
    decreases |pieces|
  {
    if |pieces| > 1 {
      JoinLength(pieces[1..], sep);
    }
  }

  /** `s.substring(start)`: the empty string once `start` is past the end. */
  function Substring(s: string, start: nat): (r: string)
    ensures start <= |s| ==> r == s[start..]
    ensures start >= |s| ==> r == ""
  {
    if start >= |s| then "" else s[start..]
  }

  /** The number of occurrences of `c` in `s` (`(s.match(/c/g) ?? []).length`). */
  function Count(s: string, c: char): (n: nat)
    ensures n <= |s|
    ensures n == 0 <==> c !in s
  {
    if s == [] then 0
    else
      assert s == [s[0]] + s[1..];
      (if s[0] == c then 1 else 0) + Count(s[1..], c)
  }

  lemma {:induction false} CountConcat(a: string, b: string, c: char)
    ensures Count(a + b, c) == Count(a, c) + Count(b, c)
    decreases |a|
  {
    if a != [] {
      assert (a + b)[1..] == a[1..] + b;
      CountConcat(a[1..], b, c);
    } else {
      assert a + b == b;
    }
  }

  /** Splitting then joining with the same separator gives the string back. */
  lemma {:induction false} JoinSplit(s: string, c: char)
    ensures Join(Split(s, c), [c]) == s
    decreases |s|
  {
    match IndexOf(s, c)
    case None =>
    case Some(i) =>
      JoinSplit(s[i + 1..], c);
      var rest := Split(s[i + 1..], c);
      assert Split(s, c) == [s[..i]] + rest;
      assert ([s[..i]] + rest)[1..] == rest;
      assert s == s[..i] + [c] + s[i + 1..];
  }

  /** Joining pieces free of `c` and splitting at `c` gives the pieces back. */
  lemma {:induction false} SplitJoin(pieces: seq<string>, c: char)
    requires |pieces| >= 1
    requires forall k :: 0 <= k < |pieces| ==> c !in pieces[k]
    ensures Split(Join(pieces, [c]), c) == pieces
    decreases |pieces|
  {
    if |pieces| > 1 {
      var head, tail := pieces[0], pieces[1..];
      var rest := Join(tail, [c]);
      var s := Join(pieces, [c]);
      assert s == head + [c] + rest;
      assert s[..|head|] == head;
      assert s[|head| + 1..] == rest;
      IndexOfUnique(s, c, |head|);
      SplitAt(s, c, |head|);
      SplitJoin(tail, c);
      assert pieces == [head] + tail;
    }
  }

  /** There is one more piece than there are separators. */
  lemma {:induction false} SplitCount(s: string, c: char)
    ensures |Split(s, c)| == Count(s, c) + 1
    decreases |s|
  {
    match IndexOf(s, c)
    case None =>
    case Some(i) =>
      SplitAt(s, c, i);
      SplitCount(s[i + 1..], c);
      assert s == s[..i] + ([c] + s[i + 1..]);
      CountConcat(s[..i], [c] + s[i + 1..], c);
      CountConcat([c], s[i + 1..], c);
      assert Count(s[..i], c) == 0;
      assert Count([c], c) == 1;
  }

  /** The first piece of `a + b` is `a` when `a` has no separator and `b` is empty or starts with one. */
  lemma SplitFirst(a: string, b: string, c: char)
    requires c !in a
    requires b == [] || b[0] == c
    ensures Split(a + b, c)[0] == a
  {
    if b == [] {
      assert a + b == a;
    } else {
      assert (a + b)[..|a|] == a;
      IndexOfUnique(a + b, c, |a|);
    }
  }

  /** Splitting off the first piece keeps the last piece. */
  lemma SplitLastAt(s: string, c: char, i: nat)
    requires IndexOf(s, c) == Some(i)
    ensures Last(Split(s, c)) == Last(Split(s[i + 1..], c))
  {
    SplitAt(s, c, i);
    LastOfPrepended(Split(s, c), s[..i], Split(s[i + 1..], c));
  }

  /** The last element of a non-empty sequence. */
  function Last<T>(r: seq<T>): T
    requires |r| >= 1
  {
    r[|r| - 1]
  }

  /** A sequence made of one element and a non-empty rest ends like the rest. */
  lemma LastOfPrepended<T>(p: seq<T>, x: T, r: seq<T>)
    requires |r| >= 1 && p == [x] + r
    ensures Last(p) == Last(r)
  {
  }

  /** The last piece of `a + b` is `b` when `b` has no separator and `a` is empty or ends with one. */
  lemma {:induction false} SplitLast(a: string, b: string, c: char)
    requires c !in b
    requires a == [] || a[|a| - 1] == c
    ensures var pieces := Split(a + b, c); pieces[|pieces| - 1] == b
    decreases |a|
  {
    if a == [] {
      assert a + b == b;
    } else {
      var s := a + b;
      assert s[|a| - 1] == c;
      var i := IndexOf(s, c).value;
      assert i < |a|;
      var a' := a[i + 1..];
      assert s[i + 1..] == a' + b;
      SplitLast(a', b, c);
      SplitLastAt(s, c, i);
    }
  }

  /** Joining two non-empty lists puts one separator between their joins. */
  lemma {:induction false} JoinAppend(a: seq<string>, b: seq<string>, sep: string)
    requires |a| >= 1 && |b| >= 1
    ensures Join(a + b, sep) == Join(a, sep) + sep + Join(b, sep)
    decreases |a|
  {
    assert (a + b)[0] == a[0];
    if |a| == 1 {
      assert (a + b)[1..] == b;
    } else {
      JoinAppend(a[1..], b, sep);
      assert (a + b)[1..] == a[1..] + b;
    }
  }

  /** An occurrence inside one piece is an occurrence inside the joined string. */
  lemma {:induction false} JoinKeepsOccurrence(pieces: seq<string>, sep: string, k: nat, p: string)
    requires k < |pieces| && Contains(pieces[k], p)
    ensures Contains(Join(pieces, sep), p)
    decreases |pieces|
  {
    if |pieces| > 1 {
      var rest := Join(pieces[1..], sep);
      assert Join(pieces, sep) == pieces[0] + sep + rest;
      if k == 0 {
        ContainsInContext("", pieces[0], sep + rest, p);
        assert "" + pieces[0] + (sep + rest) == pieces[0] + sep + rest;
      } else {
        JoinKeepsOccurrence(pieces[1..], sep, k - 1, p);
        ContainsInContext(pieces[0] + sep, rest, "", p);
        assert pieces[0] + sep + rest + "" == pieces[0] + sep + rest;
      }
    }
  }
}
