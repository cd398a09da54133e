/**
 * `renderChunk` of the `vike:standalone` plugin: every emitted server chunk
 * gets three `import` lines and, for each of `require`, `__filename` and
 * `__dirname` that the chunk does not assign itself, a `var` polyfill built
 * from `import.meta.url`; the chunk of the server entry is first prefixed
 * with an import of `./importBuild.cjs`.
 */
module RenderChunk {
  import opened Wrappers
  import opened Text
  import Paths

  /** The three CommonJS bindings the plugin may polyfill. */
  datatype Binding = Require | Filename | Dirname

  function Name(b: Binding): string {
    match b
    case Require => "require"
    case Filename => "__filename"
    case Dirname => "__dirname"
  }

  /** The text one group of the scan matches: the name, an optional space, then `=`. */
  function Assignment(b: Binding, spaced: bool): string {
    Name(b) + (if spaced then " =" else "=")
  }

  /** `code` assigns the binding: it contains `name =` or `name=`. */
  ghost predicate Defines(code: string, b: Binding) {
    Contains(code, Assignment(b, true)) || Contains(code, Assignment(b, false))
  }

  /** One match of the scan: the group that matched, whether the optional space was there, and where. */
  datatype Match = Match(binding: Binding, spaced: bool, index: nat)

  /** The number of characters a match covers; the scan resumes that far on. */
  function Length(m: Match): (n: nat)
    ensures n >= 8
  {
    var name := match m.binding case Require => 7 case Filename => 10 case Dirname => 9;
    name + if m.spaced then 2 else 1
  }

  /** A match covers exactly the text of its group. */
  lemma LengthIsAssignment(m: Match)
    ensures Length(m) == |Assignment(m.binding, m.spaced)|
  {
  }

  /** The match of group `b` at `i`; ` ?` is greedy, so the spaced form is tried first. */
  function GroupAt(code: string, i: nat, b: Binding): (m: Option<Match>)
    ensures m.Some? ==> m.value.binding == b && m.value.index == i
  {
    if OccursAt(code, i, Assignment(b, true)) then Some(Match(b, true, i))
    else if OccursAt(code, i, Assignment(b, false)) then Some(Match(b, false, i))
    else None
  }

  /** The match of `/(require ?=)|(__filename ?=)|(__dirname ?=)/` at `i`, groups tried in order. */
  function MatchAt(code: string, i: nat): (m: Option<Match>)
    ensures m.Some? ==> m.value.index == i && OccursAt(code, i, Assignment(m.value.binding, m.value.spaced))
    ensures m.None? ==> forall b, spaced :: !OccursAt(code, i, Assignment(b, spaced))
  {
    var r := GroupAt(code, i, Require);
    if r.Some? then r
    else
      var f := GroupAt(code, i, Filename);
      if f.Some? then f
      else GroupAt(code, i, Dirname)
  }

  /** What the regex finds when it is tried at each index of `code`. */
  function Attempts(code: string): (at: seq<Option<Match>>)
    ensures |at| == |code| && forall j :: 0 <= j < |code| ==> at[j] == MatchAt(code, j)
  {
    seq(|code|, j requires 0 <= j < |code| => MatchAt(code, j))
  }

  /** The global scan from index `i`: take the match at `i` and resume after it, or move one index on. */
  function ScanAttempts(at: seq<Option<Match>>, i: nat): seq<Match>
    decreases |at| - i
  {
    if i >= |at| then []
    else
      match at[i]
      case Some(m) => [m] + ScanAttempts(at, i + Length(m))
      case None => ScanAttempts(at, i + 1)
  }

  /** Each successful attempt records the index it was made at. */
  predicate Indexed(at: seq<Option<Match>>) {
    forall j :: 0 <= j < |at| && at[j].Some? ==> at[j].value.index == j
  }

  /** Every match in `ms` is the attempt at its own index, at or after `i`, and each starts after the previous one ends. */
  predicate Found(at: seq<Option<Match>>, i: nat, ms: seq<Match>) {
    && (forall k :: 0 <= k < |ms| ==> i <= ms[k].index < |at| && at[ms[k].index] == Some(ms[k]))
    && (forall k :: 0 <= k < |ms| - 1 ==> ms[k].index + Length(ms[k]) <= ms[k + 1].index)
  }

  /** The scan from `i` reports successful attempts, left to right, without overlap. */
  lemma {:induction false} ScanAttemptsFound(at: seq<Option<Match>>, i: nat)
    requires Indexed(at)
    ensures Found(at, i, ScanAttempts(at, i))
    decreases |at| - i
  {
    if i < |at| {
      match at[i]
      case Some(m) =>
        var ms, rest := ScanAttempts(at, i), ScanAttempts(at, i + Length(m));
        ScanAttemptsFound(at, i + Length(m));
        assert ms == [m] + rest;
        forall k | 0 < k < |ms|
          ensures ms[k] == rest[k - 1]
        {
        }
      case None =>
        assert ScanAttempts(at, i) == ScanAttempts(at, i + 1);
        ScanAttemptsFound(at, i + 1);
    }
  }

  /**
   * `code.matchAll(/(require ?=)|(__filename ?=)|(__dirname ?=)/gm)`: each
   * match is an occurrence of its group's text, and each starts after the
   * previous one ends.
   */
  function Matches(code: string): (ms: seq<Match>)
    ensures forall k :: 0 <= k < |ms| ==> OccursAt(code, ms[k].index, Assignment(ms[k].binding, ms[k].spaced))
    ensures forall k :: 0 <= k < |ms| - 1 ==> ms[k].index + Length(ms[k]) <= ms[k + 1].index
  {
    var at := Attempts(code);
    assert Indexed(at);
    ScanAttemptsFound(at, 0);
    var ms := ScanAttempts(at, 0);
    ms
  }

  /** Every assignment text ends in its only `=` and holds no line break. */
  lemma AssignmentShape(b: Binding, spaced: bool)
    ensures var a := Assignment(b, spaced);
      |a| >= 8 && a[|a| - 1] == '=' && (forall j :: 0 <= j < |a| - 1 ==> a[j] != '=') && '\n' !in a
  {
  }

  /** Two assignment texts never overlap: shifted by `k`, they differ within their first three characters. */
  lemma AssignmentsDoNotOverlap(b1: Binding, s1: bool, b2: Binding, s2: bool, k: nat)
    requires 0 < k < |Assignment(b1, s1)|
    ensures var p, q := Assignment(b1, s1), Assignment(b2, s2);
      p[k] != q[0] || (k + 1 < |p| && p[k + 1] != q[1]) || (k + 2 < |p| && p[k + 2] != q[2])
  {
  }

  /** At one index at most one group, in one spelling, can match. */
  lemma OneMatchPerIndex(code: string, i: nat, b1: Binding, s1: bool, b2: Binding, s2: bool)
    requires OccursAt(code, i, Assignment(b1, s1)) && OccursAt(code, i, Assignment(b2, s2))
    ensures b1 == b2 && s1 == s2
  {
    var p, q := Assignment(b1, s1), Assignment(b2, s2);
    assert code[i] == p[0] == q[0];
    assert code[i + 2] == p[2] == q[2];
    if b1 == b2 {
      var n := |Name(b1)|;
      assert code[i + n] == p[n] == q[n];
    }
  }

  /** No occurrence starts strictly inside a match, so resuming after a match skips no occurrence. */
  lemma NoOccurrenceInsideMatch(code: string, m: Match, p: nat, b: Binding, spaced: bool)
    requires OccursAt(code, m.index, Assignment(m.binding, m.spaced))
    requires m.index < p < m.index + Length(m)
    ensures !OccursAt(code, p, Assignment(b, spaced))
  {
    var outer, inner := Assignment(m.binding, m.spaced), Assignment(b, spaced);
    var k := p - m.index;
    AssignmentsDoNotOverlap(m.binding, m.spaced, b, spaced, k);
  }

  /** Some match in `ms` is of group `b`. */
  predicate Reports(ms: seq<Match>, b: Binding) {
    exists j :: 0 <= j < |ms| && ms[j].binding == b
  }

  /** Appending a match reports its binding and keeps every binding already reported. */
  lemma ReportsExtended(ms: seq<Match>, m: Match)
    ensures forall b :: Reports(ms + [m], b) <==> Reports(ms, b) || m.binding == b
  {
    forall b ensures Reports(ms + [m], b) <==> Reports(ms, b) || m.binding == b {
      if Reports(ms, b) {
        var j :| 0 <= j < |ms| && ms[j].binding == b;
        assert (ms + [m])[j] == ms[j];
      }
      if m.binding == b {
        assert (ms + [m])[|ms|] == m;
      }
    }
  }

  lemma ReportsAfter(m: Match, ms: seq<Match>, b: Binding)
    requires Reports(ms, b)
    ensures Reports([m] + ms, b)
  {
    var j :| 0 <= j < |ms| && ms[j].binding == b;
    assert ([m] + ms)[j + 1] == ms[j];
  }

  /** No attempt succeeds strictly inside the text of a successful attempt. */
  predicate NonOverlapping(at: seq<Option<Match>>) {
    forall j, p :: 0 <= j < p < |at| && at[j].Some? && p < j + Length(at[j].value) ==> at[p].None?
  }

  /** A group the scan reports was found by an attempt at or after `i`. */
  lemma {:induction false} ScanAttemptsSound(at: seq<Option<Match>>, i: nat, b: Binding)
    requires Reports(ScanAttempts(at, i), b)
    ensures exists j :: i <= j < |at| && at[j].Some? && at[j].value.binding == b
    decreases |at| - i
  {
    var ms := ScanAttempts(at, i);
    match at[i]
    case Some(m) =>
      if m.binding != b {
        var k :| 0 <= k < |ms| && ms[k].binding == b;
        assert ms[k] == ScanAttempts(at, i + Length(m))[k - 1];
        ScanAttemptsSound(at, i + Length(m), b);
      }
    case None =>
      ScanAttemptsSound(at, i + 1, b);
  }

  /** When attempts do not overlap, the scan from `i` reports every successful attempt at or after `i`. */
  lemma {:induction false} ScanAttemptsComplete(at: seq<Option<Match>>, i: nat, p: nat)
    requires NonOverlapping(at) && i <= p < |at| && at[p].Some?
    ensures Reports(ScanAttempts(at, i), at[p].value.binding)
    decreases |at| - i
  {
    var b := at[p].value.binding;
    var ms := ScanAttempts(at, i);
    match at[i]
    case Some(m) =>
      var rest := ScanAttempts(at, i + Length(m));
      assert ms == [m] + rest;
      if i == p {
        assert ms[0].binding == b;
      } else {
        ScanAttemptsComplete(at, i + Length(m), p);
        ReportsAfter(m, rest, b);
      }
    case None =>
      assert ms == ScanAttempts(at, i + 1);
      ScanAttemptsComplete(at, i + 1, p);
  }

  /** The attempts on any code do not overlap. */
  lemma AttemptsNonOverlapping(code: string)
    ensures NonOverlapping(Attempts(code))
  {
    var at := Attempts(code);
    forall j, p | 0 <= j < p < |at| && at[j].Some? && p < j + Length(at[j].value)
      ensures at[p].None?
    {
      var m := at[j].value;
      forall b, spaced ensures !OccursAt(code, p, Assignment(b, spaced)) {
        NoOccurrenceInsideMatch(code, m, p, b, spaced);
      }
    }
  }

  /** The scan reports a binding exactly when the code assigns it. */
  lemma ScanFindsAssignments(code: string, b: Binding)
    ensures Reports(Matches(code), b) <==> Defines(code, b)
  {
    var at := Attempts(code);
    if Reports(Matches(code), b) {
      ScanAttemptsSound(at, 0, b);
      var j :| 0 <= j < |at| && at[j].Some? && at[j].value.binding == b;
      assert OccursAt(code, j, Assignment(b, at[j].value.spaced));
    }
    if Defines(code, b) {
      var spaced := Contains(code, Assignment(b, true));
      var p: nat :| OccursAt(code, p, Assignment(b, spaced));
      assert p < |code| by {
        AssignmentShape(b, spaced);
      }
      var m := at[p].value;
      OneMatchPerIndex(code, p, m.binding, m.spaced, b, spaced);
      AttemptsNonOverlapping(code);
      ScanAttemptsComplete(at, 0, p);
    }
  }

  const EntryImport: string := "import './importBuild.cjs'\n"
  /** The separator between the lines of the template literal: a line break and its six-space indentation. */
  const Indent: string := "\n      "

  /** `import { name as name2 } from 'specifier';`: the helpers are imported under names the chunk does not use. */
  function ImportLine(name: string, specifier: string): string {
    "import { " + name + " as " + name + "2 } from '" + specifier + "';"
  }

  const ImportDirname: string := ImportLine("dirname", "path")
  const ImportFileURLToPath: string := ImportLine("fileURLToPath", "url")
  const ImportCreateRequire: string := ImportLine("createRequire", "module")

  /** The value a polyfill gives its binding. */
  function Initializer(b: Binding): string {
    match b
    case Require => "createRequire2(import.meta.url);"
    case Filename => "fileURLToPath2(import.meta.url);"
    case Dirname => "dirname2(__filename);"
  }

  /**
   * The `var` line that defines a missing binding, e.g.
   * `var require = createRequire2(import.meta.url);`.
   */
  function Polyfill(b: Binding): string {
    "var " + Assignment(b, true) + " " + Initializer(b)
  }

  /** Which polyfills the header carries. */
  datatype Needs = Needs(require: bool, filename: bool, dirname: bool)

  function Needed(n: Needs, b: Binding): bool {
    match b
    case Require => n.require
    case Filename => n.filename
    case Dirname => n.dirname
  }

  function PolyfillLine(n: Needs, b: Binding): string {
    if Needed(n, b) then Polyfill(b) else ""
  }

  /** The lines of the template literal; the last one is empty, so the chunk starts after the indentation. */
  function HeaderLines(n: Needs): seq<string> {
    [ImportDirname, ImportFileURLToPath, ImportCreateRequire,
     PolyfillLine(n, Require), PolyfillLine(n, Filename), PolyfillLine(n, Dirname), ""]
  }

  function Header(n: Needs): string {
    Join(HeaderLines(n), Indent)
  }

  /** The polyfills that chunk text `code` needs: those of the bindings it does not assign. */
  ghost function NeedsOf(code: string): Needs {
    Needs(!Defines(code, Require), !Defines(code, Filename), !Defines(code, Dirname))
  }

  function WithEntryImport(code: string, isEntry: bool): string {
    if isEntry then EntryImport + code else code
  }

  /** What `renderChunk` returns for `code`, the chunk being the server entry or not. */
  ghost function Rendered(code: string, isEntry: bool): string {
    var c := WithEntryImport(code, isEntry);
    Header(NeedsOf(c)) + c
  }

  /** The polyfills a chunk needs are those of the bindings the scan does not report. */
  lemma NeedsFromMatches(code: string)
    ensures NeedsOf(code)
         == Needs(!Reports(Matches(code), Require), !Reports(Matches(code), Filename), !Reports(Matches(code), Dirname))
  {
    ScanFindsAssignments(code, Require);
    ScanFindsAssignments(code, Filename);
    ScanFindsAssignments(code, Dirname);
  }

  /** The loop over the matches: a flag stays set iff no match reports its binding. */
  method Flags(matches: seq<Match>) returns (needsRequire: bool, needsFilename: bool, needsDirname: bool)
    ensures needsRequire == !Reports(matches, Require)
    ensures needsFilename == !Reports(matches, Filename)
    ensures needsDirname == !Reports(matches, Dirname)
  {
    needsRequire, needsFilename, needsDirname := true, true, true;
    for k := 0 to |matches|
      invariant needsRequire == !Reports(matches[..k], Require)
      invariant needsFilename == !Reports(matches[..k], Filename)
      invariant needsDirname == !Reports(matches[..k], Dirname)
    {
      var m := matches[k];
      ReportsExtended(matches[..k], m);
      assert matches[..k + 1] == matches[..k] + [m];
      if m.binding == Require {
        needsRequire := false;
      } else if m.binding == Filename {
        needsFilename := false;
      } else if m.binding == Dirname {
        needsDirname := false;
      }
    }
    assert matches[..|matches|] == matches;
  }

  /** `renderChunk(code, chunk)` with `root` and `serverEntry` from the plugin's closure. */
  method RenderChunkCode(code: string, facadeModuleId: Option<string>, root: string, serverEntry: string)
    returns (out: string)
    ensures out == Rendered(code, facadeModuleId == Some(Paths.PathJoin(root, serverEntry)))
  {
    var src := code;
    if facadeModuleId == Some(Paths.PathJoin(root, serverEntry)) {
      src := EntryImport + src;
    }
    var matches := Matches(src);
    var needsRequire, needsFilename, needsDirname := Flags(matches);
    NeedsFromMatches(src);
    assert src == WithEntryImport(code, facadeModuleId == Some(Paths.PathJoin(root, serverEntry)));
    out := Header(Needs(needsRequire, needsFilename, needsDirname)) + src;
  }

  /** The entry import has no `=` and ends in a line break. */
  lemma EntryImportShape()
    ensures forall k :: 0 <= k < |EntryImport| ==> EntryImport[k] != '='
    ensures EntryImport[|EntryImport| - 1] == '\n'
  {
  }

  /** No assignment text starts inside the entry import: the import has no `=`, and ends in a line break. */
  lemma NoOccurrenceInEntryImport(code: string, i: nat, b: Binding, spaced: bool)
    requires i < |EntryImport|
    ensures !OccursAt(EntryImport + code, i, Assignment(b, spaced))
  {
    var s, a, e := EntryImport + code, Assignment(b, spaced), EntryImport;
    AssignmentShape(b, spaced);
    EntryImportShape();
    if i + |a| <= |s| {
      // the first character where the text and the import must differ
      var j := if i + |a| - 1 < |e| then |a| - 1 else |e| - 1 - i;
      assert s[i + j] != a[j] by {
        if i + |a| - 1 < |e| {
          assert s[i + j] == e[i + j];
        } else {
          assert s[i + j] == e[|e| - 1] == '\n';
          assert a[j] in a;
        }
      }
      assert s[i..i + |a|][j] != a[j];
    }
  }

  /** An occurrence in `EntryImport + code` lies wholly in `code`. */
  lemma OccurrenceAfterEntryImport(code: string, i: nat, b: Binding, spaced: bool)
    requires OccursAt(EntryImport + code, i, Assignment(b, spaced))
    ensures i >= |EntryImport| && OccursAt(code, i - |EntryImport|, Assignment(b, spaced))
  {
    var s, a, e := EntryImport + code, Assignment(b, spaced), EntryImport;
    if i < |e| {
      NoOccurrenceInEntryImport(code, i, b, spaced);
    } else {
      assert s[i..i + |a|] == code[i - |e|..i - |e| + |a|];
    }
  }

  /** The entry import never changes which polyfills a chunk gets. */
  lemma EntryImportNeutral(code: string, b: Binding)
    ensures Defines(EntryImport + code, b) <==> Defines(code, b)
  {
    forall spaced | Contains(EntryImport + code, Assignment(b, spaced))
      ensures Contains(code, Assignment(b, spaced))
    {
      var i: nat :| OccursAt(EntryImport + code, i, Assignment(b, spaced));
      OccurrenceAfterEntryImport(code, i, b, spaced);
    }
    forall spaced | Contains(code, Assignment(b, spaced))
      ensures Contains(EntryImport + code, Assignment(b, spaced))
    {
      ContainsInSuffix(EntryImport, code, Assignment(b, spaced));
    }
  }

  /**
   * The output is the header, then the entry import when the chunk is the
   * server entry, then the chunk unchanged; the polyfills are those the
   * original chunk needs.
   */
  lemma RenderedLayout(code: string, isEntry: bool)
    ensures Rendered(code, isEntry) == Header(NeedsOf(code)) + (if isEntry then EntryImport else "") + code
  {
    if isEntry {
      EntryImportNeutral(code, Require);
      EntryImportNeutral(code, Filename);
      EntryImportNeutral(code, Dirname);
      assert NeedsOf(EntryImport + code) == NeedsOf(code);
    }
  }

  /** Where a binding's line sits among the header lines. */
  function LineIndex(b: Binding): (k: nat)
    ensures 3 <= k < 6
  {
    match b
    case Require => 3
    case Filename => 4
    case Dirname => 5
  }

  /** Each import line starts with `i`, so none is a polyfill. */
  lemma ImportsShape()
    ensures ImportDirname[0] == 'i' && ImportFileURLToPath[0] == 'i' && ImportCreateRequire[0] == 'i'
  {
  }

  /** A polyfill is among the header lines exactly when it is needed: no other line equals it. */
  lemma PolyfillLineIn(n: Needs, b: Binding)
    ensures Polyfill(b) in HeaderLines(n) <==> Needed(n, b)
  {
    var lines, line := HeaderLines(n), Polyfill(b);
    assert line[0] == 'v' && line[6] == Name(b)[2];
    ImportsShape();
    forall other | other != b
      ensures line != Polyfill(other)
    {
      assert Polyfill(other)[6] == Name(other)[2] != Name(b)[2];
    }
    if Needed(n, b) {
      assert lines[LineIndex(b)] == line;
    }
  }

  /** A binding's polyfill line is emitted if and only if the chunk does not assign that binding. */
  lemma PolyfillEmittedIff(code: string, isEntry: bool, b: Binding)
    ensures Polyfill(b) in HeaderLines(NeedsOf(WithEntryImport(code, isEntry))) <==> !Defines(code, b)
  {
    if isEntry {
      EntryImportNeutral(code, b);
    }
    PolyfillLineIn(NeedsOf(WithEntryImport(code, isEntry)), b);
  }

  /** Each polyfill line assigns its binding, in the spaced spelling. */
  lemma PolyfillAssigns(b: Binding)
    ensures Contains(Polyfill(b), Assignment(b, true))
  {
    OccursInContext("var ", Assignment(b, true), " " + Initializer(b), 0, Assignment(b, true));
    assert "var " + Assignment(b, true) + (" " + Initializer(b)) == Polyfill(b);
  }

  /** A header carrying a binding's polyfill assigns that binding. */
  lemma HeaderDefines(n: Needs, b: Binding)
    requires Needed(n, b)
    ensures Contains(Header(n), Assignment(b, true))
  {
    PolyfillAssigns(b);
    assert HeaderLines(n)[LineIndex(b)] == Polyfill(b);
    JoinKeepsOccurrence(HeaderLines(n), Indent, LineIndex(b), Assignment(b, true));
  }

  /** After one pass every binding is assigned, by the chunk or by the header. */
  lemma RenderedDefinesAll(code: string, isEntry: bool, b: Binding)
    ensures Defines(Rendered(code, isEntry), b)
  {
    var c := WithEntryImport(code, isEntry);
    var n := NeedsOf(c);
    var header := Header(n);
    if Needed(n, b) {
      HeaderDefines(n, b);
      ContainsInPrefix(header, c, Assignment(b, true));
    } else {
      var spaced := Contains(c, Assignment(b, true));
      ContainsInSuffix(header, c, Assignment(b, spaced));
    }
  }

  /**
   * A second pass adds no polyfill: its header is the three imports alone.
   * It still prepends those imports (and the entry import) again.
   */
  lemma SecondPassAddsNoPolyfill(code: string, first: bool, second: bool)
    ensures Rendered(Rendered(code, first), second)
         == Header(Needs(false, false, false)) + (if second then EntryImport else "") + Rendered(code, first)
  {
    var once := Rendered(code, first);
    RenderedDefinesAll(code, first, Require);
    RenderedDefinesAll(code, first, Filename);
    RenderedDefinesAll(code, first, Dirname);
    RenderedLayout(once, second);
  }

  /** Hence the transformation is not idempotent: a second pass always makes the chunk longer. */
  lemma RenderNotIdempotent(code: string, isEntry: bool)
    ensures |Rendered(Rendered(code, isEntry), isEntry)| > |Rendered(code, isEntry)|
  {
    SecondPassAddsNoPolyfill(code, isEntry, isEntry);
    assert |Header(Needs(false, false, false))| >= |ImportDirname|;
  }
}
