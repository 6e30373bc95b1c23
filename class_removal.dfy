/** find_class_boundaries, remove_classes_from_content and the name scan of
    extract_class_names_from_file (python-scripts/remove_metadata_core_classes.py). */
module ClassRemoval {
  import opened Chars
  import opened Strings
  import opened Wrappers
  import opened ClassDecl

  // ---------------------------------------------------------------------
  // Brace depth and the matching close brace

  /** Brace depth at the end of `t`: opened minus closed braces. */
  function Depth(t: string): int {
    CountChar(t, '{') as int - CountChar(t, '}') as int
  }

  /** One more character changes the depth by at most one. */
  lemma DepthSnoc(s: string, b: nat, k: nat)
    requires b <= k < |s|
    ensures Depth(s[b..k + 1]) == Depth(s[b..k]) + (if s[k] == '{' then 1 else if s[k] == '}' then -1 else 0)
  {
    assert s[b..k + 1] == s[b..k] + [s[k]];
    CountCharSnoc(s[b..k], s[k], '{');
    CountCharSnoc(s[b..k], s[k], '}');
  }

  /** `c` is the `}` that brings the depth counted from the `{` at `b` back
      to 0 for the first time. */
  ghost predicate IsClose(s: string, b: nat, c: nat) {
    && b < c < |s|
    && Depth(s[b..c + 1]) == 0
    && (forall k :: b < k <= c ==> Depth(s[b..k]) > 0)
  }

  /** There is at most one such brace. */
  lemma CloseUnique(s: string, b: nat, c1: nat, c2: nat)
    requires IsClose(s, b, c1) && IsClose(s, b, c2)
    ensures c1 == c2
  {
  }

  /** Once the depth has dropped to 0 or below, a close brace exists:
      the depth moves in steps of one, so it passes through 0. */
  lemma {:induction false} CloseExists(s: string, b: nat, k: nat)
    requires b < k <= |s| && s[b] == '{'
    requires Depth(s[b..k]) <= 0
    ensures exists c :: IsClose(s, b, c)
    decreases k
  {
    if exists k' :: b < k' < k && Depth(s[b..k']) <= 0 {
      var k' :| b < k' < k && Depth(s[b..k']) <= 0;
      CloseExists(s, b, k');
    } else {
      DepthSnoc(s, b, b);
      assert s[b..b] == [];
      assert k > b + 1;
      DepthSnoc(s, b, k - 1);
      assert IsClose(s, b, k - 1);
    }
  }

  /** `t` is balanced: as many `{` as `}`, and every proper non-empty
      prefix is still open. */
  ghost predicate Balanced(t: string) {
    && CountChar(t, '{') == CountChar(t, '}')
    && (forall k :: 0 < k < |t| ==> Depth(t[..k]) > 0)
  }

  lemma CloseBalanced(s: string, b: nat, c: nat)
    requires IsClose(s, b, c)
    ensures s[c] == '}' && Balanced(s[b..c + 1])
  {
    var t := s[b..c + 1];
    forall k | 0 < k < |t| ensures Depth(t[..k]) > 0 {
      assert t[..k] == s[b..b + k];
    }
    DepthSnoc(s, b, c);
  }

  // ---------------------------------------------------------------------
  // Running on to the end of the line

  /** The first `\r` or `\n` at or after `i`, or the end of the text. */
  function LineBreakAt(s: string, i: nat): (j: nat)
    requires i <= |s|
    ensures i <= j <= |s|
    decreases |s| - i
  {
    if i < |s| && s[i] != '\r' && s[i] != '\n' then LineBreakAt(s, i + 1) else i
  }

  /** Where the scan after a close brace at `i - 1` stops: the rest of the
      line, then one optional `\r`, then one optional `\n`. */
  function LineEnd(s: string, i: nat): (e: nat)
    requires i <= |s|
    ensures i <= e <= |s|
  {
    var j := LineBreakAt(s, i);
    var j' := if j < |s| && s[j] == '\r' then j + 1 else j;
    if j' < |s| && s[j'] == '\n' then j' + 1 else j'
  }

  /** The rest of the line holds no line break and stops at one or at the
      end of the text. */
  lemma {:induction false} LineBreakAtSpec(s: string, i: nat)
    requires i <= |s|
    ensures forall k :: i <= k < LineBreakAt(s, i) ==> s[k] != '\r' && s[k] != '\n'
    ensures LineBreakAt(s, i) == |s| || s[LineBreakAt(s, i)] == '\r' || s[LineBreakAt(s, i)] == '\n'
    decreases |s| - i
  {
    if i < |s| && s[i] != '\r' && s[i] != '\n' {
      LineBreakAtSpec(s, i + 1);
    }
  }

  /** The tail of a span: text with no line break, then nothing, `\r`,
      `\n` or `\r\n`. */
  lemma LineEndSpec(s: string, i: nat)
    requires i <= |s|
    ensures var j := LineBreakAt(s, i);
            && (forall k :: i <= k < j ==> s[k] != '\r' && s[k] != '\n')
            && (j == |s| || s[j] == '\r' || s[j] == '\n')
            && s[j..LineEnd(s, i)] in {"", "\r", "\n", "\r\n"}
  {
    LineBreakAtSpec(s, i);
    var j := LineBreakAt(s, i);
    var e := LineEnd(s, i);
    if e == j + 2 {
      assert s[j..e] == "\r\n";
    } else if e == j + 1 {
      if s[j] == '\r' { assert s[j..e] == "\r"; } else { assert s[j..e] == "\n"; }
    } else {
      assert s[j..e] == "";
    }
  }

  // ---------------------------------------------------------------------
  // find_class_boundaries

  /** A span `[start, end)` of the text. */
  datatype Span = Span(start: nat, end: nat)

  /** What find_class_boundaries finds for `name`: from the start of the
      whitespace run before the first declaration, through the close brace
      that balances its `{`, to the end of that line; None when there is no
      declaration or its braces never close. */
  ghost function Boundaries(s: string, name: string): Option<Span>
  {
    match SearchNamedDecl(s, name)
    case None => None
    case Some(f) =>
      if f.brace < |s| && exists c :: IsClose(s, f.brace, c) then
        var c: nat :| IsClose(s, f.brace, c);
        Some(Span(f.start, LineEnd(s, c + 1)))
      else None
  }

  /** The tuple the script returns, with `(-1, -1)` for "not found". */
  ghost function Encoded(r: Option<Span>): (int, int) {
    match r
    case None => (-1, -1)
    case Some(sp) => (sp.start as int, sp.end as int)
  }

  /** The span once the close brace is known. */
  lemma BoundariesAtClose(s: string, name: string, f: Found, c: nat)
    requires SearchNamedDecl(s, name) == Some(f)
    requires f.brace < |s| && IsClose(s, f.brace, c)
    ensures Boundaries(s, name) == Some(Span(f.start, LineEnd(s, c + 1)))
  {
    forall c' | IsClose(s, f.brace, c') ensures c' == c {
      CloseUnique(s, f.brace, c, c');
    }
  }

  /** The span is not found when the depth never returns to 0. */
  lemma BoundariesNeverClosed(s: string, name: string, f: Found)
    requires SearchNamedDecl(s, name) == Some(f)
    requires forall k :: f.brace < k <= |s| ==> Depth(s[f.brace..k]) > 0
    ensures Boundaries(s, name) == None
  {
    forall c | f.brace < |s| && IsClose(s, f.brace, c) ensures false {
    }
  }

  /** The scan after the close brace: on to the end of its line, then past
      one optional `\r` and one optional `\n`. */
  method SkipToLineEnd(content: string, from: nat) returns (endPos: nat)
    requires from <= |content|
    ensures endPos == LineEnd(content, from)
  {
    endPos := from;
    while endPos < |content| && content[endPos] != '\r' && content[endPos] != '\n'
      invariant from <= endPos <= |content|
      invariant LineBreakAt(content, endPos) == LineBreakAt(content, from)
    {
      endPos := endPos + 1;
    }
    if endPos < |content| && content[endPos] == '\r' {
      endPos := endPos + 1;
    }
    if endPos < |content| && content[endPos] == '\n' {
      endPos := endPos + 1;
    }
  }

  method FindClassBoundaries(content: string, className: string) returns (startPos: int, endPos: int)
    ensures (startPos, endPos) == Encoded(Boundaries(content, className))
  {
    var found := SearchNamedDecl(content, className);
    if found.None? {
      return -1, -1;
    }
    var f := found.value;
    SearchNamedDeclBrace(content, className);
    startPos := f.start;
    var braceCount := 0;
    var pos := f.brace;
    while pos < |content|
      invariant f.brace <= pos <= |content|
      invariant braceCount == Depth(content[f.brace..pos])
      invariant forall k :: f.brace < k <= pos ==> Depth(content[f.brace..k]) > 0
    {
      DepthSnoc(content, f.brace, pos);
      var ch := content[pos];
      if ch == '{' {
        braceCount := braceCount + 1;
      } else if ch == '}' {
        braceCount := braceCount - 1;
        if braceCount == 0 {
          assert IsClose(content, f.brace, pos);
          BoundariesAtClose(content, className, f, pos);
          endPos := SkipToLineEnd(content, pos + 1);
          return;
        }
      }
      pos := pos + 1;
    }
    BoundariesNeverClosed(content, className, f);
    return -1, -1;
  }

  /** Not found exactly when there is no declaration, or the braces after
      its `{` never return to depth 0 before the end of the text. */
  lemma BoundariesNone(s: string, name: string)
    ensures Boundaries(s, name).None? <==>
              || (forall j :: 0 <= j <= |s| ==> NamedDeclAt(s, j, name) == None)
              || (&& SearchNamedDecl(s, name).Some?
                  && var b := SearchNamedDecl(s, name).value.brace;
                     forall k :: b < k <= |s| ==> Depth(s[b..k]) > 0)
  {
    SearchNamedDeclNone(s, name);
    if SearchNamedDecl(s, name).Some? {
      var f := SearchNamedDecl(s, name).value;
      SearchNamedDeclSome(s, name, f);
      var b := f.brace;
      if exists c :: IsClose(s, b, c) {
        var c :| IsClose(s, b, c);
        assert !(Depth(s[b..c + 1]) > 0);
      } else {
        forall k | b < k <= |s| ensures Depth(s[b..k]) > 0 {
          if Depth(s[b..k]) <= 0 {
            CloseExists(s, b, k);
          }
        }
      }
    }
  }

  /** A found span starts at the whitespace run before the first
      declaration, contains its balanced brace block, and ends with the rest
      of the close brace's line. */
  lemma BoundariesFound(s: string, name: string)
    requires Boundaries(s, name).Some?
    ensures exists brace: nat, close: nat ::
              var sp := Boundaries(s, name).value;
              && SearchNamedDecl(s, name) == Some(Found(sp.start, brace))
              && sp.start < brace < close < sp.end <= |s|
              && s[brace] == '{' && s[close] == '}'
              && Balanced(s[brace..close + 1])
              && sp.end == LineEnd(s, close + 1)
  {
    var f := SearchNamedDecl(s, name).value;
    SearchNamedDeclSome(s, name, f);
    var c: nat :| IsClose(s, f.brace, c);
    BoundariesAtClose(s, name, f, c);
    CloseBalanced(s, f.brace, c);
    var sp := Boundaries(s, name).value;
    assert SearchNamedDecl(s, name) == Some(Found(sp.start, f.brace));
  }

  // ---------------------------------------------------------------------
  // remove_classes_from_content

  /** One entry of `class_positions`: a found span and its class name. */
  datatype Removal = Removal(start: nat, end: nat, name: string)

  /** `class_positions` before sorting: one entry per requested name whose
      span is found, in the order the names are visited. */
  ghost function Plan(s: string, names: seq<string>): seq<Removal>
    decreases |names|
  {
    if names == [] then []
    else
      var rest := Plan(s, names[..|names| - 1]);
      var n := names[|names| - 1];
      match Boundaries(s, n)
      case None => rest
      case Some(sp) => rest + [Removal(sp.start, sp.end, n)]
  }

  /** Each planned entry is the span of a requested name, and every
      requested name whose span is found has an entry. */
  lemma {:induction false} PlanSpec(s: string, names: seq<string>)
    ensures forall r :: r in Plan(s, names) ==> r.name in names && Boundaries(s, r.name) == Some(Span(r.start, r.end))
    ensures forall n :: n in names && Boundaries(s, n).Some? ==> exists r :: r in Plan(s, names) && r.name == n
    decreases |names|
  {
    if names != [] {
      var init := names[..|names| - 1];
      PlanSpec(s, init);
      assert names == init + [names[|names| - 1]];
      var last := names[|names| - 1];
      forall n | n in names && Boundaries(s, n).Some? ensures exists r :: r in Plan(s, names) && r.name == n {
        if n != last {
          assert n in init;
          var r :| r in Plan(s, init) && r.name == n;
          assert r in Plan(s, names);
        } else {
          var sp := Boundaries(s, n).value;
          assert Removal(sp.start, sp.end, n) in Plan(s, names);
        }
      }
    }
  }

  /** `xs[0].start >= xs[1].start >= ...` */
  predicate Descending(xs: seq<Removal>) {
    forall i, j :: 0 <= i < j < |xs| ==> xs[j].start <= xs[i].start
  }

  /** One step of a stable insertion sort by descending start: `x` goes in
      front of the first entry that does not start after it. */
  function Insert(x: Removal, ys: seq<Removal>): (r: seq<Removal>)
    ensures multiset(r) == multiset(ys) + multiset{x}
  {
    if ys == [] || ys[0].start <= x.start then [x] + ys
    else
      assert ys == [ys[0]] + ys[1..];
      [ys[0]] + Insert(x, ys[1..])
  }

  lemma {:induction false} InsertDescending(x: Removal, ys: seq<Removal>)
    requires Descending(ys)
    ensures Descending(Insert(x, ys))
  {
    if !(ys == [] || ys[0].start <= x.start) {
      var tail := ys[1..];
      InsertDescending(x, tail);
      var r := Insert(x, ys);
      assert r == [ys[0]] + Insert(x, tail);
      forall j | 0 < j < |r| ensures r[j].start <= ys[0].start {
        assert r[j] in multiset(Insert(x, tail));
        assert r[j] == x || r[j] in multiset(tail);
        if r[j] != x {
          var k :| 0 <= k < |tail| && tail[k] == r[j];
          assert ys[k + 1] == r[j];
        }
      }
    }
  }

  /** `list.sort(key=start, reverse=True)`: a permutation that is sorted by
      descending start. */
  function SortByStartDesc(xs: seq<Removal>): (r: seq<Removal>)
    ensures multiset(r) == multiset(xs)
    ensures Descending(r)
  {
    if xs == [] then []
    else
      var rest := SortByStartDesc(xs[1..]);
      InsertDescending(xs[0], rest);
      assert xs == [xs[0]] + xs[1..];
      Insert(xs[0], rest)
  }

  /** `t[:a] + t[b:]`, with Python's clamping of slice bounds. */
  function Cut(t: string, a: nat, b: nat): string {
    var a' := if a <= |t| then a else |t|;
    var b' := if b <= |t| then b else |t|;
    t[..a'] + t[b'..]
  }

  /** The deletions of the loop, one after the other. */
  function ApplyRemovals(t: string, rs: seq<Removal>): string
    decreases |rs|
  {
    if rs == [] then t else ApplyRemovals(Cut(t, rs[0].start, rs[0].end), rs[1..])
  }

  function Names(rs: seq<Removal>): (ns: seq<string>)
  {
    seq(|rs|, i requires 0 <= i < |rs| => rs[i].name)
  }

  /** The plan for one more requested name. */
  lemma PlanStep(s: string, names: seq<string>, i: nat)
    requires i < |names|
    ensures Plan(s, names[..i + 1]) == match Boundaries(s, names[i])
                                      case None => Plan(s, names[..i])
                                      case Some(sp) => Plan(s, names[..i]) + [Removal(sp.start, sp.end, names[i])]
  {
    assert names[..i + 1][..i] == names[..i];
  }

  /** Cutting the span at `k` first leaves the spans after it. */
  lemma ApplyRemovalsStep(t: string, rs: seq<Removal>, k: nat)
    requires k < |rs|
    ensures ApplyRemovals(t, rs[k..]) == ApplyRemovals(Cut(t, rs[k].start, rs[k].end), rs[k + 1..])
  {
    assert rs[k..][1..] == rs[k + 1..];
  }

  /** The names of the first `k + 1` entries. */
  lemma NamesStep(rs: seq<Removal>, k: nat)
    requires k < |rs|
    ensures Names(rs[..k + 1]) == Names(rs[..k]) + [rs[k].name]
  {
  }

  /** `classes_to_remove` is a set, visited here in the order of the
      sequence, so no name appears twice. */
  method RemoveClassesFromContent(content: string, classesToRemove: seq<string>)
    returns (modified: string, removed: seq<string>)
    requires forall i, j :: 0 <= i < j < |classesToRemove| ==> classesToRemove[i] != classesToRemove[j]
    ensures modified == ApplyRemovals(content, SortByStartDesc(Plan(content, classesToRemove)))
    ensures removed == Names(SortByStartDesc(Plan(content, classesToRemove)))
  {
    var classPositions: seq<Removal> := [];
    for i := 0 to |classesToRemove|
      invariant classPositions == Plan(content, classesToRemove[..i])
    {
      var className := classesToRemove[i];
      var startPos, endPos := FindClassBoundaries(content, className);
      PlanStep(content, classesToRemove, i);
      if startPos != -1 {
        classPositions := classPositions + [Removal(startPos, endPos, className)];
      }
    }
    assert classesToRemove[..|classesToRemove|] == classesToRemove;
    classPositions := SortByStartDesc(classPositions);
    modified := content;
    removed := [];
    for k := 0 to |classPositions|
      invariant ApplyRemovals(modified, classPositions[k..]) == ApplyRemovals(content, classPositions)
      invariant removed == Names(classPositions[..k])
    {
      var r := classPositions[k];
      ApplyRemovalsStep(modified, classPositions, k);
      NamesStep(classPositions, k);
      modified := Cut(modified, r.start, r.end);
      removed := removed + [r.name];
    }
    assert classPositions[|classPositions|..] == [];
    assert classPositions[..|classPositions|] == classPositions;
  }

  // ---------------------------------------------------------------------
  // Descending-offset deletion of disjoint spans

  /** Entries in descending order, each ending no later than the previous one
      starts, all within the first `n` characters. */
  ghost predicate Separated(rs: seq<Removal>, n: nat) {
    && (forall i :: 0 <= i < |rs| ==> rs[i].start <= rs[i].end <= n)
    && (forall i, j :: 0 <= i < j < |rs| ==> rs[j].end <= rs[i].start)
  }

  /** No two entries overlap and none is empty. */
  ghost predicate Disjoint(rs: seq<Removal>) {
    && (forall i :: 0 <= i < |rs| ==> rs[i].start < rs[i].end)
    && (forall i, j :: 0 <= i < |rs| && 0 <= j < |rs| && i != j ==>
          rs[i].end <= rs[j].start || rs[j].end <= rs[i].start)
  }

  /** Position `k` lies in one of the spans. */
  ghost predicate Covered(rs: seq<Removal>, k: nat) {
    exists i :: 0 <= i < |rs| && rs[i].start <= k < rs[i].end
  }

  /** The characters of `s[..n]` that no span covers, in their order. */
  ghost function KeptTo(s: string, rs: seq<Removal>, n: nat): string
    requires n <= |s|
  {
    if n == 0 then [] else KeptTo(s, rs, n - 1) + (if Covered(rs, n - 1) then [] else [s[n - 1]])
  }

  /** Total number of characters the spans hold. */
  function Total(rs: seq<Removal>): int {
    if rs == [] then 0 else (rs[0].end - rs[0].start) + Total(rs[1..])
  }

  lemma {:induction false} KeptUncovered(s: string, rs: seq<Removal>, b: nat, n: nat)
    requires b <= n <= |s|
    requires forall k :: b <= k < n ==> !Covered(rs, k)
    ensures KeptTo(s, rs, n) == KeptTo(s, rs, b) + s[b..n]
    decreases n
  {
    if n > b {
      KeptUncovered(s, rs, b, n - 1);
      assert s[b..n] == s[b..n - 1] + [s[n - 1]];
    }
  }

  lemma {:induction false} KeptCovered(s: string, rs: seq<Removal>, a: nat, n: nat)
    requires a <= n <= |s|
    requires forall k :: a <= k < n ==> Covered(rs, k)
    ensures KeptTo(s, rs, n) == KeptTo(s, rs, a)
    decreases n
  {
    if n > a {
      KeptCovered(s, rs, a, n - 1);
    }
  }

  /** Only coverage below `n` and the characters below `n` matter. */
  lemma {:induction false} KeptSame(s: string, rs: seq<Removal>, s': string, rs': seq<Removal>, n: nat)
    requires n <= |s| && n <= |s'| && s[..n] == s'[..n]
    requires forall k :: 0 <= k < n ==> (Covered(rs, k) <==> Covered(rs', k))
    ensures KeptTo(s, rs, n) == KeptTo(s', rs', n)
    decreases n
  {
    if n > 0 {
      assert s[..n - 1] == s'[..n - 1];
      assert s[n - 1] == s[..n][n - 1];
      KeptSame(s, rs, s', rs', n - 1);
    }
  }

  /** Deleting spans of a prefix leaves what follows the prefix alone. */
  lemma {:induction false} RemovalsAppend(x: string, w: string, rs: seq<Removal>)
    requires Separated(rs, |x|)
    ensures ApplyRemovals(x + w, rs) == ApplyRemovals(x, rs) + w
    decreases |rs|
  {
    if rs != [] {
      var a, b := rs[0].start, rs[0].end;
      assert Cut(x + w, a, b) == Cut(x, a, b) + w by {
        assert (x + w)[..a] == x[..a];
        assert (x + w)[b..] == x[b..] + w;
      }
      var rest := rs[1..];
      assert Separated(rest, |Cut(x, a, b)|) by {
        forall i | 0 <= i < |rest| ensures rest[i].end <= a {
          assert rest[i] == rs[i + 1];
        }
      }
      RemovalsAppend(Cut(x, a, b), w, rest);
    }
  }

  /** Which positions the spans cover, seen from the first span: from its
      start on only it covers anything, and below its start the others
      cover what all of them cover. */
  lemma FirstSpanCoverage(rs: seq<Removal>, n: nat)
    requires rs != [] && Separated(rs, n)
    ensures Separated(rs[1..], rs[0].start)
    ensures forall k :: rs[0].start <= k ==> (Covered(rs, k) <==> k < rs[0].end)
    ensures forall k :: 0 <= k < rs[0].start ==> (Covered(rs, k) <==> Covered(rs[1..], k))
  {
    var rest, a, b := rs[1..], rs[0].start, rs[0].end;
    forall i | 0 <= i < |rest| ensures rest[i].end <= a && rest[i] == rs[i + 1] {
      assert rest[i] == rs[i + 1];
    }
    forall k | a <= k ensures Covered(rs, k) <==> (k < b) {
      if k < b { assert rs[0].start <= k < rs[0].end; }
    }
    forall k | 0 <= k < a ensures Covered(rs, k) <==> Covered(rest, k) {
      if Covered(rs, k) {
        var i :| 0 <= i < |rs| && rs[i].start <= k < rs[i].end;
        assert i > 0;
        assert rest[i - 1] == rs[i];
      }
      if Covered(rest, k) {
        var i :| 0 <= i < |rest| && rest[i].start <= k < rest[i].end;
        assert rs[i + 1] == rest[i];
      }
    }
  }

  /** Descending-offset deletion is position-stable: deleting separated spans
      one after the other keeps exactly the characters no span covers, in
      their original order. */
  lemma {:induction false} RemovalsKeep(s: string, rs: seq<Removal>)
    requires Separated(rs, |s|)
    ensures ApplyRemovals(s, rs) == KeptTo(s, rs, |s|)
    decreases |rs|
  {
    if rs == [] {
      KeptUncovered(s, rs, 0, |s|);
    } else {
      var rest := rs[1..];
      var a, b := rs[0].start, rs[0].end;
      FirstSpanCoverage(rs, |s|);
      calc {
        ApplyRemovals(s, rs);
        ApplyRemovals(s[..a] + s[b..], rest);
        { RemovalsAppend(s[..a], s[b..], rest); }
        ApplyRemovals(s[..a], rest) + s[b..];
        { RemovalsKeep(s[..a], rest); }
        KeptTo(s[..a], rest, a) + s[b..];
        { KeptSame(s[..a], rest, s, rs, a); }
        KeptTo(s, rs, a) + s[b..];
        { KeptCovered(s, rs, a, b); }
        KeptTo(s, rs, b) + s[b..];
        { KeptUncovered(s, rs, b, |s|); }
        KeptTo(s, rs, |s|);
      }
    }
  }

  /** ...and the result is shorter by exactly the total span length. */
  lemma {:induction false} RemovalsLength(s: string, rs: seq<Removal>)
    requires Separated(rs, |s|)
    ensures |ApplyRemovals(s, rs)| == |s| - Total(rs)
    decreases |rs|
  {
    if rs != [] {
      var a, b, rest := rs[0].start, rs[0].end, rs[1..];
      assert Separated(rest, |Cut(s, a, b)|) by {
        forall i | 0 <= i < |rest| ensures rest[i].end <= a {
          assert rest[i] == rs[i + 1];
        }
      }
      RemovalsLength(Cut(s, a, b), rest);
    }
  }

  /** Disjoint spans in descending order of start are separated. */
  lemma DisjointSeparated(rs: seq<Removal>, n: nat)
    requires Descending(rs) && Disjoint(rs)
    requires forall i :: 0 <= i < |rs| ==> rs[i].end <= n
    ensures Separated(rs, n)
  {
    forall i, j | 0 <= i < j < |rs| ensures rs[j].end <= rs[i].start {
      assert rs[j].start <= rs[i].start;
      assert rs[i].end <= rs[j].start || rs[j].end <= rs[i].start;
    }
  }

  /** remove_classes_from_content on disjoint found spans: the result is the
      input with exactly the found spans deleted and every other character
      kept in order, and its length is the input length minus the total span
      length. */
  lemma RemoveDisjoint(s: string, names: seq<string>)
    requires Disjoint(SortByStartDesc(Plan(s, names)))
    ensures ApplyRemovals(s, SortByStartDesc(Plan(s, names))) == KeptTo(s, SortByStartDesc(Plan(s, names)), |s|)
    ensures |ApplyRemovals(s, SortByStartDesc(Plan(s, names)))| == |s| - Total(SortByStartDesc(Plan(s, names)))
  {
    var plan := Plan(s, names);
    var rs := SortByStartDesc(plan);
    PlanSpec(s, names);
    forall i | 0 <= i < |rs| ensures rs[i].end <= |s| {
      assert rs[i] in multiset(plan);
      BoundariesFound(s, rs[i].name);
    }
    DisjointSeparated(rs, |s|);
    RemovalsKeep(s, rs);
    RemovalsLength(s, rs);
  }

  /** The `removed_classes` list the script returns for `names`. */
  ghost function Removed(s: string, names: seq<string>): seq<string> {
    Names(SortByStartDesc(Plan(s, names)))
  }

  /** Every entry of the sorted plan is the span of a requested name. */
  lemma SortedPlanSpec(s: string, names: seq<string>)
    ensures forall i :: 0 <= i < |SortByStartDesc(Plan(s, names))| ==>
              var r := SortByStartDesc(Plan(s, names))[i];
              r.name in names && Boundaries(s, r.name) == Some(Span(r.start, r.end))
  {
    var plan := Plan(s, names);
    var rs := SortByStartDesc(plan);
    PlanSpec(s, names);
    forall i | 0 <= i < |rs| ensures rs[i].name in names && Boundaries(s, rs[i].name) == Some(Span(rs[i].start, rs[i].end)) {
      assert rs[i] in multiset(plan);
    }
  }

  /** `removed_classes` holds exactly the requested names whose span is found. */
  lemma RemovedNames(s: string, names: seq<string>)
    ensures forall n :: n in Removed(s, names) <==> n in names && Boundaries(s, n).Some?
  {
    var plan := Plan(s, names);
    var rs := SortByStartDesc(plan);
    var removed := Removed(s, names);
    SortedPlanSpec(s, names);
    PlanSpec(s, names);
    forall n ensures n in removed <==> n in names && Boundaries(s, n).Some? {
      if n in removed {
        var i :| 0 <= i < |removed| && removed[i] == n;
        assert rs[i].name == n;
      }
      if n in names && Boundaries(s, n).Some? {
        var r :| r in plan && r.name == n;
        assert r in multiset(rs);
        var i :| 0 <= i < |rs| && rs[i] == r;
        assert removed[i] == n;
      }
    }
  }

  /** ...in descending order of the start of their spans. */
  lemma RemovedOrder(s: string, names: seq<string>, i: nat, j: nat)
    requires i < j < |Removed(s, names)|
    ensures Boundaries(s, Removed(s, names)[i]).Some? && Boundaries(s, Removed(s, names)[j]).Some?
    ensures Boundaries(s, Removed(s, names)[j]).value.start <= Boundaries(s, Removed(s, names)[i]).value.start
  {
    var rs := SortByStartDesc(Plan(s, names));
    SortedPlanSpec(s, names);
    assert Removed(s, names)[i] == rs[i].name && Removed(s, names)[j] == rs[j].name;
  }

  /** Requested names that are not found change nothing: when none is found
      the content comes back unchanged and nothing is reported removed. */
  lemma NothingFound(s: string, names: seq<string>)
    requires forall n :: n in names ==> Boundaries(s, n).None?
    ensures ApplyRemovals(s, SortByStartDesc(Plan(s, names))) == s
    ensures Removed(s, names) == []
  {
    var plan := Plan(s, names);
    PlanSpec(s, names);
  }

  /** The requested names whose span is found, in their order. */
  ghost function FoundNames(s: string, names: seq<string>): seq<string>
    decreases |names|
  {
    if names == [] then []
    else
      var rest := FoundNames(s, names[..|names| - 1]);
      if Boundaries(s, names[|names| - 1]).Some? then rest + [names[|names| - 1]] else rest
  }

  /** The found names are exactly the requested names whose span is found. */
  lemma {:induction false} FoundNamesSpec(s: string, names: seq<string>)
    ensures forall n :: n in FoundNames(s, names) <==> n in names && Boundaries(s, n).Some?
    decreases |names|
  {
    if names != [] {
      var init := names[..|names| - 1];
      FoundNamesSpec(s, init);
      assert names == init + [names[|names| - 1]];
    }
  }

  /** The plan of the requested names is the plan of the found ones. */
  lemma {:induction false} PlanOfFound(s: string, names: seq<string>)
    ensures Plan(s, names) == Plan(s, FoundNames(s, names))
    decreases |names|
  {
    if names != [] {
      var init := names[..|names| - 1];
      var last := names[|names| - 1];
      var f := FoundNames(s, init);
      PlanOfFound(s, init);
      match Boundaries(s, last)
      case None =>
        assert FoundNames(s, names) == f;
      case Some(sp) =>
        assert FoundNames(s, names) == f + [last];
        assert (f + [last])[..|f|] == f;
        assert Plan(s, f + [last]) == Plan(s, f) + [Removal(sp.start, sp.end, last)];
    }
  }

  /** Only the requested names that are found matter: the plan, and so the
      modified content and the removed list, are those of the found names
      alone. */
  lemma PlanFound(s: string, names: seq<string>)
    ensures Plan(s, names) == Plan(s, FoundNames(s, names))
    ensures forall n :: n in FoundNames(s, names) <==> n in names && Boundaries(s, n).Some?
    ensures Removed(s, names) == Removed(s, FoundNames(s, names))
  {
    PlanOfFound(s, names);
    FoundNamesSpec(s, names);
  }

  // ---------------------------------------------------------------------
  // extract_class_names_from_file, after the file is read

  method ExtractClassNames(content: string) returns (classNames: set<string>)
    ensures classNames == InnerNames(content, DeclMatches(content))
  {
    classNames := {};
    var matches := DeclMatches(content);
    InnerUpToEnds(content, matches);
    for i := 0 to |matches|
      invariant i <= 1 ==> classNames == {}
      invariant i >= 1 ==> classNames == InnerUpTo(content, matches, i)
    {
      if i == 0 {
        continue;
      }
      InnerUpToStep(content, matches, i);
      classNames := classNames + {MatchName(content, matches[i])};
    }
  }
}
