/** The two class-declaration patterns of the scripts, written as scanners
    over the text instead of through a regular-expression engine.

    - `^\s*public\s+class\s+([A-Za-z_][A-Za-z0-9_]*)\s*\{` with MULTILINE,
      iterated with `re.finditer` (python-scripts/remove_metadata_core_classes.py:31-33,
      python-scripts/generate_test_class.py:29-31);
    - `(\s*)public\s+class\s+NAME\s*\{` for one escaped NAME, located with
      `re.search` (python-scripts/remove_metadata_core_classes.py:66-68).

    Greedy whitespace runs never need to give characters back when the next
    element of the pattern starts with a non-whitespace character, so each
    `\s*` / `\s+` is its maximal run; the only place where backtracking
    matters is the `\s+` before an arbitrary literal NAME, and there every
    run length is tried from the longest down. */
module ClassDecl {
  import opened Chars
  import opened Wrappers

  const Public: string := "public"
  const Class: string := "class"

  /** `public\s+class\s+` at `q`: the position just after `class`
      (at least one whitespace character follows it). */
  function KeywordsAt(s: string, q: nat): (r: Option<nat>)
    requires q <= |s|
    ensures r.Some? ==> LitAt(s, q, Public) && q + 11 < r.value < |s| && r.value < WsEnd(s, r.value)
  {
    if !LitAt(s, q, Public) then None
    else
      var a := WsEnd(s, q + 6);
      if a == q + 6 || !LitAt(s, a, Class) then None
      else if WsEnd(s, a + 5) == a + 5 then None
      else Some(a + 5)
  }

  /** Nothing matches at a whitespace character: the pattern starts with `p`. */
  lemma KeywordsNotAtSpace(s: string, q: nat)
    requires q < |s| && IsSpace(s[q])
    ensures KeywordsAt(s, q) == None
  {
    assert Public[0] == 'p';
  }

  /** One match of the line-anchored pattern: `start` is the `^` position,
      `[nameStart, nameEnd)` the captured group, `end` just after the `{`. */
  datatype DeclMatch = DeclMatch(start: nat, nameStart: nat, nameEnd: nat, end: nat)

  /** The line-anchored pattern tried at position `p`. */
  function LineDeclAt(s: string, p: nat): (r: Option<DeclMatch>)
    requires p <= |s|
    ensures r.Some? ==> r.value.start == p < r.value.nameStart < r.value.nameEnd < r.value.end <= |s|
    ensures r.Some? ==> p == 0 || s[p - 1] == '\n'
  {
    if p > 0 && s[p - 1] != '\n' then None
    else match KeywordsAt(s, WsEnd(s, p))
      case None => None
      case Some(c0) =>
        var c := WsEnd(s, c0);
        if c == |s| || !IsIdentStart(s[c]) then None
        else
          var d := WordEnd(s, c);
          var b := WsEnd(s, d);
          if b < |s| && s[b] == '{' then Some(DeclMatch(p, c, d, b + 1)) else None
  }

  function MatchName(s: string, m: DeclMatch): string
    requires m.nameStart <= m.nameEnd <= |s|
  {
    s[m.nameStart..m.nameEnd]
  }

  predicate WellFormed(s: string, m: DeclMatch) {
    m.start < m.nameStart < m.nameEnd < m.end <= |s|
  }

  /** `re.finditer` from position `p` for a pattern given by its matcher
      `m`: try each position in turn and, after a match, resume at its end.
      A matcher result that would not make progress ends the scan. */
  function ScanFrom(s: string, m: (string, nat) -> Option<DeclMatch>, p: nat): (ms: seq<DeclMatch>)
    requires p <= |s|
    ensures forall i :: 0 <= i < |ms| ==> p <= ms[i].start < ms[i].end <= |s|
    decreases |s| - p
  {
    match m(s, p)
    case Some(d) => if d.start == p < d.end <= |s| then [d] + ScanFrom(s, m, d.end) else []
    case None => if p == |s| then [] else ScanFrom(s, m, p + 1)
  }

  /** A matcher that reports matches starting where it was tried and ending later. */
  ghost predicate Progressive(s: string, m: (string, nat) -> Option<DeclMatch>) {
    forall p :: 0 <= p <= |s| && m(s, p).Some? ==> m(s, p).value.start == p < m(s, p).value.end <= |s|
  }

  /** Every reported match is a genuine one, and the matches are disjoint and
      in text order. */
  lemma {:induction false} ScanSound(s: string, m: (string, nat) -> Option<DeclMatch>, p: nat)
    requires p <= |s|
    ensures forall i :: 0 <= i < |ScanFrom(s, m, p)| ==> m(s, ScanFrom(s, m, p)[i].start) == Some(ScanFrom(s, m, p)[i])
    ensures forall i :: 0 <= i < |ScanFrom(s, m, p)| - 1 ==> ScanFrom(s, m, p)[i].end <= ScanFrom(s, m, p)[i + 1].start
    decreases |s| - p
  {
    match m(s, p)
    case Some(d) =>
      if d.start == p < d.end <= |s| {
        ScanSound(s, m, d.end);
        var ms, rest := ScanFrom(s, m, p), ScanFrom(s, m, d.end);
        assert ms == [d] + rest;
        forall i | 1 <= i < |ms| ensures ms[i] == rest[i - 1] {}
      }
    case None =>
      if p < |s| {
        ScanSound(s, m, p + 1);
      }
  }

  /** No match is missed: every position where the matcher succeeds lies
      inside one of the reported matches. */
  lemma {:induction false} ScanComplete(s: string, m: (string, nat) -> Option<DeclMatch>, p: nat, q: nat)
    requires Progressive(s, m)
    requires p <= q <= |s| && m(s, q).Some?
    ensures exists i :: 0 <= i < |ScanFrom(s, m, p)| && ScanFrom(s, m, p)[i].start <= q < ScanFrom(s, m, p)[i].end
    decreases |s| - p
  {
    var ms := ScanFrom(s, m, p);
    match m(s, p)
    case Some(d) =>
      if q < d.end {
        assert ms[0] == d;
      } else {
        ScanComplete(s, m, d.end, q);
        var rest := ScanFrom(s, m, d.end);
        var i :| 0 <= i < |rest| && rest[i].start <= q < rest[i].end;
        assert ms[i + 1] == rest[i];
      }
    case None =>
      assert p != q;
      ScanComplete(s, m, p + 1, q);
  }

  /** Nothing matches before the first reported match. */
  lemma {:induction false} ScanFirst(s: string, m: (string, nat) -> Option<DeclMatch>, p: nat, q: nat)
    requires p <= q <= |s|
    requires ScanFrom(s, m, p) != [] && q < ScanFrom(s, m, p)[0].start
    ensures m(s, q).None?
    decreases |s| - p
  {
    if m(s, p).None? && p < q {
      ScanFirst(s, m, p + 1, q);
    }
  }

  /** The line-anchored pattern at every position, as a total matcher. */
  function LineDecl(s: string, p: nat): Option<DeclMatch> {
    if p <= |s| then LineDeclAt(s, p) else None
  }

  /** `list(re.finditer(pattern, content, re.MULTILINE))` */
  function DeclMatches(s: string): (ms: seq<DeclMatch>)
    ensures forall i :: 0 <= i < |ms| ==> WellFormed(s, ms[i])
  {
    var ms := ScanFrom(s, LineDecl, 0);
    ScanSound(s, LineDecl, 0);
    ms
  }

  /** The class names of all matches after the first. */
  function InnerNames(s: string, ms: seq<DeclMatch>): (names: set<string>)
  {
    set i | 1 <= i < |ms| && WellFormed(s, ms[i]) :: MatchName(s, ms[i])
  }

  /** The class names of the matches after the first and before `n`. */
  ghost function InnerUpTo(s: string, ms: seq<DeclMatch>, n: nat): set<string>
    requires n <= |ms|
  {
    set i | 1 <= i < n && WellFormed(s, ms[i]) :: MatchName(s, ms[i])
  }

  /** Visiting one more well-formed match adds its name. */
  lemma InnerUpToStep(s: string, ms: seq<DeclMatch>, i: nat)
    requires 1 <= i < |ms| && WellFormed(s, ms[i])
    ensures InnerUpTo(s, ms, i + 1) == InnerUpTo(s, ms, i) + {MatchName(s, ms[i])}
  {
  }

  /** Before the second match nothing is collected; after the last, every
      name after the first is. */
  lemma InnerUpToEnds(s: string, ms: seq<DeclMatch>)
    ensures |ms| >= 1 ==> InnerUpTo(s, ms, 1) == {}
    ensures InnerUpTo(s, ms, |ms|) == InnerNames(s, ms)
  {
  }

  lemma LineDeclProgressive(s: string)
    ensures Progressive(s, LineDecl)
  {
  }

  /** `re.finditer` reports exactly the declarations of the text: each match
      is one, they are disjoint and in order, and every position where the
      pattern matches is covered by a reported match. */
  lemma DeclMatchesSpec(s: string)
    ensures var ms := DeclMatches(s);
            && (forall i :: 0 <= i < |ms| ==> LineDeclAt(s, ms[i].start) == Some(ms[i]))
            && (forall i :: 0 <= i < |ms| - 1 ==> ms[i].end <= ms[i + 1].start)
            && (forall q :: 0 <= q <= |s| && LineDeclAt(s, q).Some? ==>
                  exists i :: 0 <= i < |ms| && ms[i].start <= q < ms[i].end)
  {
    var ms := DeclMatches(s);
    ScanSound(s, LineDecl, 0);
    forall i | 0 <= i < |ms| ensures LineDeclAt(s, ms[i].start) == Some(ms[i]) {
      assert LineDecl(s, ms[i].start) == Some(ms[i]);
    }
    LineDeclProgressive(s);
    forall q | 0 <= q <= |s| && LineDeclAt(s, q).Some?
      ensures exists i :: 0 <= i < |ms| && ms[i].start <= q < ms[i].end
    {
      assert LineDecl(s, q).Some?;
      ScanComplete(s, LineDecl, 0, q);
    }
  }

  /** The name-specific pattern after `class`: `\s+NAME\s*\{`.  The `\s+`
      run at `c0` is given back one character at a time, longest first, until
      NAME matches; the result is the position of the `{`. */
  function NameBraceFrom(s: string, c0: nat, k: nat, name: string): (r: Option<nat>)
    requires c0 + k <= |s|
    ensures r.Some? ==> c0 < r.value < |s| && s[r.value] == '{'
    decreases k
  {
    if k == 0 then None
    else if LitAt(s, c0 + k, name) && WsEnd(s, c0 + k + |name|) < |s| && s[WsEnd(s, c0 + k + |name|)] == '{'
    then Some(WsEnd(s, c0 + k + |name|))
    else NameBraceFrom(s, c0, k - 1, name)
  }

  /** `public\s+class\s+NAME\s*\{` at `q`: the position of its `{`. */
  function NamedDeclAt(s: string, q: nat, name: string): (r: Option<nat>)
    requires q <= |s|
    ensures r.Some? ==> q + 11 < r.value < |s| && s[r.value] == '{' && LitAt(s, q, Public)
  {
    match KeywordsAt(s, q)
    case None => None
    case Some(c0) => NameBraceFrom(s, c0, WsEnd(s, c0) - c0, name)
  }

  /** A leftmost match of `(\s*)CORE`: where it starts and where the `{`
      reported by CORE is. */
  datatype Found = Found(start: nat, brace: nat)

  /** `re.search` for `(\s*)CORE` from position `i`, where `core(q)` says
      whether CORE matches at `q`: at every start the group `(\s*)` takes the
      whole whitespace run, and CORE is tried after it. */
  function SearchFrom(s: string, core: nat -> Option<nat>, i: nat): (r: Option<Found>)
    requires i <= |s|
    ensures r.Some? ==> i <= r.value.start <= |s|
    decreases |s| - i
  {
    match core(WsEnd(s, i))
    case Some(b) => Some(Found(i, b))
    case None => if i == |s| then None else SearchFrom(s, core, i + 1)
  }

  /** CORE does not match inside the whitespace run that starts at `i`. */
  lemma NoCoreInRun(s: string, core: nat -> Option<nat>, i: nat)
    requires i <= |s|
    requires forall q :: 0 <= q < |s| && IsSpace(s[q]) ==> core(q).None?
    ensures forall j :: i <= j < WsEnd(s, i) ==> core(j).None?
  {
    var q := WsEnd(s, i);
    WsEndSpec(s, i);
    forall j | i <= j < q ensures core(j).None? {
      assert s[j] == s[i..q][j - i];
    }
  }

  /** A search that finds nothing means CORE matches nowhere from `i` on. */
  lemma {:induction false} SearchFromNone(s: string, core: nat -> Option<nat>, i: nat)
    requires i <= |s|
    requires forall q :: 0 <= q < |s| && IsSpace(s[q]) ==> core(q).None?
    requires SearchFrom(s, core, i).None?
    ensures forall j :: i <= j <= |s| ==> core(j).None?
    decreases |s| - i
  {
    NoCoreInRun(s, core, i);
    if i < |s| {
      SearchFromNone(s, core, i + 1);
    }
  }

  /** A search that finds a match reports the first one, with the whole
      whitespace run before it. */
  lemma {:induction false} SearchFromSome(s: string, core: nat -> Option<nat>, i: nat, f: Found)
    requires i <= |s|
    requires forall q :: 0 <= q < |s| && IsSpace(s[q]) ==> core(q).None?
    requires SearchFrom(s, core, i) == Some(f)
    ensures core(WsEnd(s, f.start)) == Some(f.brace)
    ensures AllSpace(s[f.start..WsEnd(s, f.start)])
    ensures forall j' :: i <= j' < WsEnd(s, f.start) ==> core(j').None?
    ensures f.start == i || !IsSpace(s[f.start - 1])
    decreases |s| - i
  {
    var q := WsEnd(s, i);
    WsEndSpec(s, i);
    NoCoreInRun(s, core, i);
    if core(q).None? {
      SearchFromSome(s, core, i + 1, f);
      if f.start == i + 1 && IsSpace(s[i]) {
        WsEndStep(s, i);
        assert false;
      }
    }
  }

  /** The search from `i` reports the whitespace run that ends at the first
      position at or after `i` where CORE matches, run included, or nothing
      when there is none; CORE must not match at a whitespace character. */
  lemma SearchFromSpec(s: string, core: nat -> Option<nat>, i: nat)
    requires i <= |s|
    requires forall q :: 0 <= q < |s| && IsSpace(s[q]) ==> core(q).None?
    ensures SearchFrom(s, core, i).None? ==> forall j :: i <= j <= |s| ==> core(j).None?
    ensures SearchFrom(s, core, i).Some? ==>
              var f := SearchFrom(s, core, i).value;
              var j := WsEnd(s, f.start);
              && core(j) == Some(f.brace)
              && AllSpace(s[f.start..j])
              && (forall j' :: i <= j' < j ==> core(j').None?)
              && (f.start == i || !IsSpace(s[f.start - 1]))
  {
    if SearchFrom(s, core, i).None? {
      SearchFromNone(s, core, i);
    } else {
      SearchFromSome(s, core, i, SearchFrom(s, core, i).value);
    }
  }

  /** The name-specific pattern at every position, as a total function. */
  function NamedDecl(s: string, q: nat, name: string): Option<nat> {
    if q <= |s| then NamedDeclAt(s, q, name) else None
  }

  /** The name-specific pattern as the matcher a search tries. */
  function NamedCore(s: string, name: string): nat -> Option<nat> {
    (q: nat) => NamedDecl(s, q, name)
  }

  /** `re.search(rf'(\s*)public\s+class\s+{re.escape(name)}\s*\{{', content)` */
  function SearchNamedDecl(s: string, name: string): Option<Found>
  {
    SearchFrom(s, NamedCore(s, name), 0)
  }

  lemma NamedNotAtSpace(s: string, name: string)
    ensures forall q :: 0 <= q < |s| && IsSpace(s[q]) ==> NamedCore(s, name)(q).None?
  {
    forall q | 0 <= q < |s| && IsSpace(s[q]) ensures NamedCore(s, name)(q).None? {
      KeywordsNotAtSpace(s, q);
    }
  }

  /** The search's matcher at a position of the text is the declaration
      pattern there. */
  lemma NamedCoreAt(s: string, name: string, q: nat)
    requires q <= |s|
    ensures NamedCore(s, name)(q) == NamedDeclAt(s, q, name)
  {
  }

  /** The leftmost match of `(\s*)public\s+class\s+NAME\s*\{` starts at the
      beginning of the whitespace run before the first `public class NAME {`
      of the text, and reports that declaration's `{`. */
  lemma SearchNamedDeclSome(s: string, name: string, f: Found)
    requires SearchNamedDecl(s, name) == Some(f)
    ensures f.start <= WsEnd(s, f.start) < f.brace < |s| && s[f.brace] == '{'
    ensures NamedDeclAt(s, WsEnd(s, f.start), name) == Some(f.brace)
    ensures AllSpace(s[f.start..WsEnd(s, f.start)])
    ensures forall j' :: 0 <= j' < WsEnd(s, f.start) ==> NamedDeclAt(s, j', name) == None
    ensures f.start == 0 || !IsSpace(s[f.start - 1])
  {
    var core := NamedCore(s, name);
    NamedNotAtSpace(s, name);
    SearchFromSome(s, core, 0, f);
    WsEndSpec(s, f.start);
    NamedCoreAt(s, name, WsEnd(s, f.start));
    forall j' | 0 <= j' < WsEnd(s, f.start) ensures NamedDeclAt(s, j', name) == None {
      NamedCoreAt(s, name, j');
    }
  }

  /** There is no match exactly when the text has no `public class NAME {`. */
  lemma SearchNamedDeclNone(s: string, name: string)
    ensures SearchNamedDecl(s, name).None? <==> forall j :: 0 <= j <= |s| ==> NamedDeclAt(s, j, name) == None
  {
    var core := NamedCore(s, name);
    NamedNotAtSpace(s, name);
    if SearchNamedDecl(s, name).None? {
      SearchFromNone(s, core, 0);
      forall j | 0 <= j <= |s| ensures NamedDeclAt(s, j, name) == None {
        NamedCoreAt(s, name, j);
      }
    } else {
      var f := SearchNamedDecl(s, name).value;
      SearchNamedDeclSome(s, name, f);
    }
  }

  /** The `{` a search reports lies in the text. */
  lemma SearchNamedDeclBrace(s: string, name: string)
    ensures SearchNamedDecl(s, name).Some? ==>
              SearchNamedDecl(s, name).value.brace < |s| && s[SearchNamedDecl(s, name).value.brace] == '{'
  {
    if SearchNamedDecl(s, name).Some? {
      SearchNamedDeclSome(s, name, SearchNamedDecl(s, name).value);
    }
  }
}
