/** replace_class_references (python-scripts/remove_metadata_core_classes.py):
    three `re.sub` passes over the text, each written as a scanner.

    1. `^public class OLD\s*\{` (MULTILINE) becomes `public class NEW {`;
    2. `\bOLD\.([A-Za-z_][A-Za-z0-9_]*)` becomes `NEW.` and the identifier;
    3. `\bOLD\b` becomes `NEW`.

    The replacement text is copied literally: the template processing that
    `re.sub` applies to it (backslash escapes, group references) is not
    modelled, so the model is that of a new name without a backslash. */
module Rename {
  import opened Chars
  import opened Wrappers

  /** A match: where it ends and what replaces it. */
  datatype Rewrite = Rewrite(end: nat, text: string)

  /** `re.sub` from position `p`, with `m(q)` the match of the pattern at
      `q`, if any: a match is replaced and the scan resumes at its end;
      after an empty match, or where nothing matches, one character is
      copied and the scan moves on. */
  function SubFrom(s: string, m: nat -> Option<Rewrite>, p: nat): string
    requires p <= |s|
    decreases |s| - p
  {
    match m(p)
    case Some(w) =>
      if p < w.end <= |s| then w.text + SubFrom(s, m, w.end)
      else if w.end == p && p < |s| then w.text + [s[p]] + SubFrom(s, m, p + 1)
      else if w.end == p then w.text
      else if p < |s| then [s[p]] + SubFrom(s, m, p + 1)
      else []
    case None => if p < |s| then [s[p]] + SubFrom(s, m, p + 1) else []
  }

  /** Where nothing matches, the scan copies the text. */
  lemma {:induction false} SubSkip(s: string, m: nat -> Option<Rewrite>, p: nat, q: nat)
    requires p <= q <= |s|
    requires forall k :: p <= k < q ==> m(k).None?
    ensures SubFrom(s, m, p) == s[p..q] + SubFrom(s, m, q)
    decreases q - p
  {
    if p < q {
      SubSkip(s, m, p + 1, q);
      assert s[p..q] == [s[p]] + s[p + 1..q];
    }
  }

  /** At a match that makes progress, the scan emits its replacement and
      resumes after it. */
  lemma SubAtMatch(s: string, m: nat -> Option<Rewrite>, q: nat)
    requires q <= |s| && m(q).Some? && q < m(q).value.end <= |s|
    ensures SubFrom(s, m, q) == m(q).value.text + SubFrom(s, m, m(q).value.end)
  {
  }

  /** `\b` at `p`: a word character on exactly one side. */
  predicate IsBoundary(s: string, p: nat)
    requires p <= |s|
  {
    (p > 0 && IsWordChar(s[p - 1])) != (p < |s| && IsWordChar(s[p]))
  }

  /** `p` does not lie between two word characters. */
  predicate TokenStart(s: string, p: nat)
    requires p <= |s|
  {
    p == 0 || p == |s| || !IsWordChar(s[p - 1]) || !IsWordChar(s[p])
  }

  /** The name is a non-empty identifier; the properties below assume it. */
  predicate IsWordName(oldName: string) {
    oldName != [] && AllWord(oldName)
  }

  // ---------------------------------------------------------------------
  // Pass 1: the main class declaration

  const Head: string := "public class "

  /** `^public class OLD\s*\{` at `p`: the position of its `{`. */
  predicate DeclHeadAt(s: string, p: nat, oldName: string)
    requires p <= |s|
  {
    && (p == 0 || s[p - 1] == '\n')
    && LitAt(s, p, Head)
    && LitAt(s, p + |Head|, oldName)
    && WsEnd(s, p + |Head + oldName|) < |s|
    && s[WsEnd(s, p + |Head + oldName|)] == '{'
  }

  /** The match of pass 1 at `p`: up to and including the `{`. */
  function DeclRewriteAt(s: string, oldName: string, newName: string, p: nat): Option<Rewrite> {
    if p <= |s| && DeclHeadAt(s, p, oldName)
    then Some(Rewrite(WsEnd(s, p + |Head + oldName|) + 1, Head + newName + " {"))
    else None
  }

  function DeclMatcher(s: string, oldName: string, newName: string): nat -> Option<Rewrite> {
    (p: nat) => DeclRewriteAt(s, oldName, newName, p)
  }

  function RenameDeclaration(s: string, oldName: string, newName: string): string {
    SubFrom(s, DeclMatcher(s, oldName, newName), 0)
  }

  /** The first declaration line `public class OLD ... {` is rewritten to
      `public class NEW {`, and everything before it is kept. */
  lemma RenameDeclarationFirst(s: string, oldName: string, newName: string, q: nat)
    requires q <= |s| && DeclHeadAt(s, q, oldName)
    requires forall k :: 0 <= k < q ==> !DeclHeadAt(s, k, oldName)
    ensures var b := WsEnd(s, q + |Head + oldName|);
            RenameDeclaration(s, oldName, newName) == s[..q] + (Head + newName + " {") + SubFrom(s, DeclMatcher(s, oldName, newName), b + 1)
  {
    var m := DeclMatcher(s, oldName, newName);
    var b := WsEnd(s, q + |Head + oldName|);
    var text := Head + newName + " {";
    SubSkip(s, m, 0, q);
    DeclRewriteHere(s, oldName, newName, q);
    SubAtMatch(s, m, q);
    var rest := SubFrom(s, m, b + 1);
    assert s[0..q] == s[..q];
    AppendAssoc(s[..q], text, rest);
  }

  lemma DeclRewriteHere(s: string, oldName: string, newName: string, q: nat)
    requires q <= |s| && DeclHeadAt(s, q, oldName)
    ensures DeclMatcher(s, oldName, newName)(q) == Some(Rewrite(WsEnd(s, q + |Head + oldName|) + 1, Head + newName + " {"))
  {
  }

  /** Without such a line the pass changes nothing. */
  lemma RenameDeclarationNone(s: string, oldName: string, newName: string)
    requires forall k :: 0 <= k <= |s| ==> !DeclHeadAt(s, k, oldName)
    ensures RenameDeclaration(s, oldName, newName) == s
  {
    var m := DeclMatcher(s, oldName, newName);
    SubSkip(s, m, 0, |s|);
  }

  // ---------------------------------------------------------------------
  // Pass 2: qualified references `OLD.Ident`

  predicate QualifiedAt(s: string, p: nat, oldName: string)
    requires p <= |s|
  {
    && p + |oldName| + 1 < |s|
    && IsBoundary(s, p)
    && s[p..p + |oldName|] == oldName
    && s[p + |oldName|] == '.'
    && IsIdentStart(s[p + |oldName| + 1])
  }

  /** The match of pass 2 at `p`: OLD, the `.` and the whole identifier. */
  function QualifiedRewriteAt(s: string, oldName: string, newName: string, p: nat): Option<Rewrite> {
    if p <= |s| && QualifiedAt(s, p, oldName)
    then
      var e := WordEnd(s, p + |oldName| + 1);
      Some(Rewrite(e, newName + "." + s[p + |oldName| + 1..e]))
    else None
  }

  function QualifiedMatcher(s: string, oldName: string, newName: string): nat -> Option<Rewrite> {
    (p: nat) => QualifiedRewriteAt(s, oldName, newName, p)
  }

  function RenameQualified(s: string, oldName: string, newName: string): string {
    SubFrom(s, QualifiedMatcher(s, oldName, newName), 0)
  }

  /** An identifier run `[p, e)` equal to OLD, followed by `.` and the
      start of an identifier. */
  predicate QualifiedToken(s: string, oldName: string, p: nat, e: nat)
    requires p <= e <= |s|
  {
    s[p..e] == oldName && e + 1 < |s| && s[e] == '.' && IsIdentStart(s[e + 1])
  }

  /** Where the token at `p` ends when pass 2 is read token by token: after
      the identifier of a qualified reference, after the word run, or after
      a single other character. */
  function QualifiedNext(s: string, oldName: string, p: nat): (r: nat)
    requires p < |s|
    ensures p < r <= |s|
  {
    if !IsWordChar(s[p]) then p + 1
    else
      var e := WordEnd(s, p + 1);
      if QualifiedToken(s, oldName, p, e) then WordEnd(s, e + 1) else e
  }

  /** What the token at `p` becomes: `NEW.Ident` for a qualified reference,
      itself otherwise. */
  function QualifiedPiece(s: string, oldName: string, newName: string, p: nat): string
    requires p < |s|
  {
    var e := WordEnd(s, p + 1);
    if IsWordChar(s[p]) && QualifiedToken(s, oldName, p, e)
    then newName + "." + s[e + 1..QualifiedNext(s, oldName, p)]
    else s[p..QualifiedNext(s, oldName, p)]
  }

  /** Pass 2 read token by token: an identifier equal to OLD followed by `.`
      and an identifier becomes NEW, the `.` and that identifier; every
      other identifier and every other character is copied. */
  function QualifiedWords(s: string, oldName: string, newName: string, p: nat): string
    requires p <= |s|
    decreases |s| - p
  {
    if p == |s| then []
    else QualifiedPiece(s, oldName, newName, p) + QualifiedWords(s, oldName, newName, QualifiedNext(s, oldName, p))
  }

  /** The reading takes one token and goes on after it. */
  lemma QualifiedWordsStep(s: string, oldName: string, newName: string, p: nat)
    requires p < |s|
    ensures QualifiedWords(s, oldName, newName, p)
            == QualifiedPiece(s, oldName, newName, p) + QualifiedWords(s, oldName, newName, QualifiedNext(s, oldName, p))
  {
  }

  /** Inside a maximal run of word characters there is no `\b`. */
  lemma InsideRun(s: string, p: nat, e: nat)
    requires p < |s| && IsWordChar(s[p])
    requires p + 1 <= e <= |s| && AllWord(s[p + 1..e])
    ensures forall k :: p < k < e ==> !IsBoundary(s, k)
  {
    forall k | p < k < e ensures !IsBoundary(s, k) {
      assert s[k] == s[p + 1..e][k - p - 1];
      if k - 1 > p { assert s[k - 1] == s[p + 1..e][k - p - 2]; }
    }
  }

  /** A word run that is not part of a match is copied whole. */
  lemma {:induction false} NoMatchInsideWord(s: string, m: nat -> Option<Rewrite>, p: nat, e: nat)
    requires p < e <= |s|
    requires forall k :: p < k < e ==> !IsBoundary(s, k)
    requires m(p).None?
    requires forall k :: p < k < e && m(k).Some? ==> IsBoundary(s, k)
    ensures SubFrom(s, m, p) == s[p..e] + SubFrom(s, m, e)
  {
    SubSkip(s, m, p, e);
  }

  /** At a qualified reference the scan emits NEW, the `.` and the
      identifier, and resumes after the identifier. */
  lemma QualifiedStepMatch(s: string, oldName: string, newName: string, p: nat, e: nat)
    requires p < |s| && IsWordChar(s[p]) && TokenStart(s, p)
    requires e == WordEnd(s, p + 1) && QualifiedToken(s, oldName, p, e)
    ensures SubFrom(s, QualifiedMatcher(s, oldName, newName), p)
            == QualifiedPiece(s, oldName, newName, p) + SubFrom(s, QualifiedMatcher(s, oldName, newName), QualifiedNext(s, oldName, p))
    ensures TokenStart(s, QualifiedNext(s, oldName, p))
  {
    var m := QualifiedMatcher(s, oldName, newName);
    QualifiedTokenMatch(s, oldName, newName, p, e);
    QualifiedTokenPiece(s, oldName, newName, p, e);
    SubAtMatch(s, m, p);
  }

  /** A qualified-reference token at a token start is a match of pass 2,
      which ends after the identifier. */
  lemma QualifiedTokenMatch(s: string, oldName: string, newName: string, p: nat, e: nat)
    requires p < |s| && IsWordChar(s[p]) && TokenStart(s, p)
    requires p <= e <= |s| && QualifiedToken(s, oldName, p, e)
    ensures var f := WordEnd(s, e + 1);
            && p < f && TokenStart(s, f)
            && QualifiedMatcher(s, oldName, newName)(p) == Some(Rewrite(f, newName + "." + s[e + 1..f]))
  {
    assert IsBoundary(s, p);
    assert e == p + |oldName|;
    assert QualifiedAt(s, p, oldName);
    WordEndSpec(s, e + 1);
  }

  /** ...and the token the token-by-token reading takes there is the same. */
  lemma QualifiedTokenPiece(s: string, oldName: string, newName: string, p: nat, e: nat)
    requires p < |s| && IsWordChar(s[p])
    requires e == WordEnd(s, p + 1) && QualifiedToken(s, oldName, p, e)
    ensures QualifiedNext(s, oldName, p) == WordEnd(s, e + 1)
    ensures QualifiedPiece(s, oldName, newName, p) == newName + "." + s[e + 1..WordEnd(s, e + 1)]
  {
  }

  /** A word run that does not start a qualified reference is copied whole. */
  lemma QualifiedStepCopy(s: string, oldName: string, newName: string, p: nat, e: nat)
    requires IsWordName(oldName)
    requires p < |s| && IsWordChar(s[p]) && TokenStart(s, p)
    requires e == WordEnd(s, p + 1)
    requires !QualifiedToken(s, oldName, p, e)
    ensures SubFrom(s, QualifiedMatcher(s, oldName, newName), p)
            == QualifiedPiece(s, oldName, newName, p) + SubFrom(s, QualifiedMatcher(s, oldName, newName), QualifiedNext(s, oldName, p))
    ensures TokenStart(s, QualifiedNext(s, oldName, p))
  {
    var m := QualifiedMatcher(s, oldName, newName);
    WordEndSpec(s, p + 1);
    InsideRun(s, p, e);
    QualifiedNoMatchHere(s, oldName, newName, p, e);
    QualifiedMatchesAtBoundary(s, oldName, newName);
    NoMatchInsideWord(s, m, p, e);
  }

  /** Pass 2 matches only at a word boundary. */
  lemma QualifiedMatchesAtBoundary(s: string, oldName: string, newName: string)
    ensures forall k: nat :: k <= |s| && QualifiedMatcher(s, oldName, newName)(k).Some? ==> IsBoundary(s, k)
  {
  }

  /** A word run that does not start a qualified reference is no match of
      pass 2, and the reading copies it as one token. */
  lemma QualifiedNoMatchHere(s: string, oldName: string, newName: string, p: nat, e: nat)
    requires IsWordName(oldName)
    requires p < |s| && IsWordChar(s[p])
    requires e == WordEnd(s, p + 1)
    requires !QualifiedToken(s, oldName, p, e)
    ensures QualifiedMatcher(s, oldName, newName)(p).None?
    ensures QualifiedNext(s, oldName, p) == e && QualifiedPiece(s, oldName, newName, p) == s[p..e]
  {
    if QualifiedAt(s, p, oldName) {
      QualifiedAtToken(s, oldName, p);
      assert false;
    }
  }

  /** A match of pass 2 at `p` spans the word run from `p`. */
  lemma QualifiedAtToken(s: string, oldName: string, p: nat)
    requires IsWordName(oldName) && p < |s| && QualifiedAt(s, p, oldName)
    ensures QualifiedToken(s, oldName, p, WordEnd(s, p + 1))
  {
    WordRunIsName(s, p, oldName);
  }

  /** A character that is not a word character is copied. */
  lemma QualifiedStepOther(s: string, oldName: string, newName: string, p: nat)
    requires IsWordName(oldName)
    requires p < |s| && !IsWordChar(s[p])
    ensures SubFrom(s, QualifiedMatcher(s, oldName, newName), p)
            == QualifiedPiece(s, oldName, newName, p) + SubFrom(s, QualifiedMatcher(s, oldName, newName), QualifiedNext(s, oldName, p))
    ensures TokenStart(s, QualifiedNext(s, oldName, p))
  {
    var m := QualifiedMatcher(s, oldName, newName);
    assert s[p] != oldName[0];
    assert m(p).None?;
    assert s[p..p + 1] == [s[p]];
  }

  /** One token of pass 2: the scanner emits the token's piece, and the next
      token starts at a point outside any word run. */
  lemma QualifiedStep(s: string, oldName: string, newName: string, p: nat)
    requires IsWordName(oldName)
    requires p < |s| && TokenStart(s, p)
    ensures SubFrom(s, QualifiedMatcher(s, oldName, newName), p)
            == QualifiedPiece(s, oldName, newName, p) + SubFrom(s, QualifiedMatcher(s, oldName, newName), QualifiedNext(s, oldName, p))
    ensures TokenStart(s, QualifiedNext(s, oldName, p))
  {
    var e := WordEnd(s, p + 1);
    if !IsWordChar(s[p]) {
      QualifiedStepOther(s, oldName, newName, p);
    } else if QualifiedToken(s, oldName, p, e) {
      QualifiedStepMatch(s, oldName, newName, p, e);
    } else {
      QualifiedStepCopy(s, oldName, newName, p, e);
    }
  }

  /** The scanner of pass 2 equals its token-by-token reading. */
  lemma {:induction false} RenameQualifiedWords(s: string, oldName: string, newName: string, p: nat)
    requires IsWordName(oldName)
    requires p <= |s| && TokenStart(s, p)
    ensures SubFrom(s, QualifiedMatcher(s, oldName, newName), p) == QualifiedWords(s, oldName, newName, p)
    decreases |s| - p
  {
    if p < |s| {
      QualifiedStep(s, oldName, newName, p);
      RenameQualifiedWords(s, oldName, newName, QualifiedNext(s, oldName, p));
    }
  }

  /** OLD at `p`, followed by a non-word character, is the whole run that
      starts at `p`. */
  lemma WordRunIsName(s: string, p: nat, oldName: string)
    requires IsWordName(oldName)
    requires p + |oldName| < |s| && s[p..p + |oldName|] == oldName && !IsWordChar(s[p + |oldName|])
    ensures WordEnd(s, p + 1) == p + |oldName|
  {
    forall k | p + 1 <= k < p + |oldName| ensures IsWordChar(s[k]) {
      assert s[k] == oldName[k - p];
    }
    WordEndAfter(s, p + 1, p + |oldName|);
  }

  /** `OLD.Ident` at `p..f`, delimited by non-word characters, becomes
      `NEW.Ident`. */
  lemma QualifiedRewrittenAt(s: string, oldName: string, newName: string, p: nat, e: nat, f: nat)
    requires IsWordName(oldName)
    requires p < e && e + 1 < f <= |s|
    requires s[p..e] == oldName && s[e] == '.' && IsIdentStart(s[e + 1])
    requires forall k :: e + 1 <= k < f ==> IsWordChar(s[k])
    requires f == |s| || !IsWordChar(s[f])
    ensures QualifiedWords(s, oldName, newName, p) == newName + "." + s[e + 1..f] + QualifiedWords(s, oldName, newName, f)
  {
    assert e == p + |oldName|;
    WordRunIsName(s, p, oldName);
    WordEndAfter(s, e + 1, f);
    QualifiedTokenPiece(s, oldName, newName, p, e);
    var piece := QualifiedPiece(s, oldName, newName, p);
    assert piece == newName + "." + s[e + 1..f];
    QualifiedWordsStep(s, oldName, newName, p);
    assert QualifiedWords(s, oldName, newName, p) == piece + QualifiedWords(s, oldName, newName, f);
  }

  /** `Old.Ident` becomes `New.Ident`. */
  lemma QualifiedRewritten(x: string, oldName: string, id: string, y: string, newName: string)
    requires IsWordName(oldName)
    requires id != [] && IsIdentStart(id[0]) && AllWord(id)
    requires y == [] || !IsWordChar(y[0])
    ensures var s := x + oldName + "." + id + y;
            QualifiedWords(s, oldName, newName, |x|) == newName + "." + id + QualifiedWords(s, oldName, newName, |x + oldName + "." + id|)
  {
    var s := x + oldName + "." + id + y;
    var p := |x|;
    var e := p + |oldName|;
    var f := e + 1 + |id|;
    QualifiedLayout(x, oldName, id, y);
    forall k | e + 1 <= k < f ensures IsWordChar(s[k]) { assert s[k] == s[e + 1..f][k - e - 1]; }
    QualifiedRewrittenAt(s, oldName, newName, p, e, f);
  }

  /** Where the parts of `x + OLD + "." + id + y` lie. */
  lemma QualifiedLayout(x: string, oldName: string, id: string, y: string)
    ensures var s := x + oldName + "." + id + y;
            var e := |x| + |oldName|;
            && |s| == e + 1 + |id| + |y|
            && s[|x|..e] == oldName && s[e] == '.' && s[e + 1..e + 1 + |id|] == id
            && (y != [] ==> s[e + 1 + |id|] == y[0])
  {
    var s := x + oldName + "." + id + y;
    var e := |x| + |oldName|;
    var a := x + oldName;
    assert s == a + ("." + id + y);
    assert s[|x|..e] == a[|x|..];
    assert s[e..] == "." + id + y;
    assert s[e + 1..] == id + y;
  }

  /** The run from `i` ends at `j` when the characters up to `j` are word
      characters and the one at `j` is not. */
  lemma {:induction false} WordEndAfter(s: string, i: nat, j: nat)
    requires i <= j <= |s|
    requires forall k :: i <= k < j ==> IsWordChar(s[k])
    requires j == |s| || !IsWordChar(s[j])
    ensures WordEnd(s, i) == j
    decreases j - i
  {
    if i < j {
      WordEndAfter(s, i + 1, j);
    }
  }

  // ---------------------------------------------------------------------
  // Pass 3: whole words

  predicate WholeWordAt(s: string, p: nat, oldName: string) {
    && p + |oldName| <= |s|
    && IsBoundary(s, p)
    && s[p..p + |oldName|] == oldName
    && IsBoundary(s, p + |oldName|)
  }

  ghost predicate HasWholeWord(s: string, oldName: string) {
    exists q :: WholeWordAt(s, q, oldName)
  }

  /** The match of pass 3 at `p`. */
  function WordRewriteAt(s: string, oldName: string, newName: string, p: nat): Option<Rewrite> {
    if WholeWordAt(s, p, oldName) then Some(Rewrite(p + |oldName|, newName)) else None
  }

  function WordMatcher(s: string, oldName: string, newName: string): nat -> Option<Rewrite> {
    (p: nat) => WordRewriteAt(s, oldName, newName, p)
  }

  function RenameWholeWords(s: string, oldName: string, newName: string): string {
    SubFrom(s, WordMatcher(s, oldName, newName), 0)
  }

  /** Where the token at `p` ends when pass 3 is read token by token: after
      the word run, or after a single other character. */
  function WordNext(s: string, p: nat): (r: nat)
    requires p < |s|
    ensures p < r <= |s|
  {
    if IsWordChar(s[p]) then WordEnd(s, p + 1) else p + 1
  }

  /** What the token at `p` becomes: NEW for an identifier equal to OLD,
      itself otherwise. */
  function WordPiece(s: string, oldName: string, newName: string, p: nat): string
    requires p < |s|
  {
    if IsWordChar(s[p]) && s[p..WordNext(s, p)] == oldName then newName else s[p..WordNext(s, p)]
  }

  /** Pass 3 read token by token: each maximal identifier equal to OLD
      becomes NEW; every other identifier, such as `OldX` or `Old_X`, and
      every other character is copied. */
  function WholeWords(s: string, oldName: string, newName: string, p: nat): string
    requires p <= |s|
    decreases |s| - p
  {
    if p == |s| then []
    else WordPiece(s, oldName, newName, p) + WholeWords(s, oldName, newName, WordNext(s, p))
  }

  /** A maximal word run at a token start that spells OLD is a whole-word
      occurrence. */
  lemma RunIsWholeWord(s: string, p: nat, e: nat, oldName: string)
    requires IsWordName(oldName)
    requires p < |s| && IsWordChar(s[p]) && TokenStart(s, p)
    requires p < e <= |s| && (e == |s| || !IsWordChar(s[e]))
    requires s[p..e] == oldName
    ensures WholeWordAt(s, p, oldName)
  {
    assert IsBoundary(s, p);
    assert IsWordChar(s[e - 1]) by { assert s[e - 1] == oldName[e - 1 - p]; }
  }

  /** A whole-word occurrence at the start of a maximal word run is the
      whole run. */
  lemma WholeWordIsRun(s: string, p: nat, e: nat, oldName: string)
    requires IsWordName(oldName)
    requires p < e <= |s| && (e == |s| || !IsWordChar(s[e]))
    requires forall k :: p < k < e ==> !IsBoundary(s, k)
    requires WholeWordAt(s, p, oldName)
    ensures s[p..e] == oldName
  {
  }

  /** One token of pass 3: the scanner emits the token's piece, and the next
      token starts at a point outside any word run. */
  lemma WordStep(s: string, oldName: string, newName: string, p: nat)
    requires IsWordName(oldName)
    requires p < |s| && TokenStart(s, p)
    ensures SubFrom(s, WordMatcher(s, oldName, newName), p)
            == WordPiece(s, oldName, newName, p) + SubFrom(s, WordMatcher(s, oldName, newName), WordNext(s, p))
    ensures TokenStart(s, WordNext(s, p))
  {
    var m := WordMatcher(s, oldName, newName);
    if !IsWordChar(s[p]) {
      assert s[p] != oldName[0];
      assert m(p).None?;
      assert s[p..p + 1] == [s[p]];
    } else {
      var e := WordEnd(s, p + 1);
      WordEndSpec(s, p + 1);
      InsideRun(s, p, e);
      if s[p..e] == oldName {
        RunIsWholeWord(s, p, e, oldName);
        assert m(p) == Some(Rewrite(e, newName));
        SubAtMatch(s, m, p);
      } else {
        if WholeWordAt(s, p, oldName) {
          WholeWordIsRun(s, p, e, oldName);
          assert false;
        }
        NoMatchInsideWord(s, m, p, e);
      }
    }
  }

  /** The scanner of pass 3 equals its token-by-token reading. */
  lemma {:induction false} RenameWholeWordsWords(s: string, oldName: string, newName: string, p: nat)
    requires IsWordName(oldName)
    requires p <= |s| && TokenStart(s, p)
    ensures SubFrom(s, WordMatcher(s, oldName, newName), p) == WholeWords(s, oldName, newName, p)
    decreases |s| - p
  {
    if p < |s| {
      WordStep(s, oldName, newName, p);
      RenameWholeWordsWords(s, oldName, newName, WordNext(s, p));
    }
  }

  /** An occurrence that ends inside the left part is one of the left part. */
  lemma WholeWordInLeft(a: string, b: string, q: nat, oldName: string)
    requires IsWordName(oldName)
    requires q + |oldName| <= |a| && WholeWordAt(a + b, q, oldName)
    ensures WholeWordAt(a, q, oldName)
  {
    var t, r := a + b, q + |oldName|;
    assert t[q..r] == a[q..r];
    assert q > 0 ==> t[q - 1] == a[q - 1];
    assert r < |a| ==> t[r] == a[r];
  }

  /** An occurrence that starts inside the right part is one of the right
      part, when the parts meet at a non-word character. */
  lemma WholeWordInRight(a: string, b: string, q: nat, oldName: string)
    requires IsWordName(oldName)
    requires a == [] || b == [] || !IsWordChar(a[|a| - 1]) || !IsWordChar(b[0])
    requires |a| <= q && WholeWordAt(a + b, q, oldName)
    ensures WholeWordAt(b, q - |a|, oldName)
  {
    var t, r := a + b, q + |oldName|;
    assert t[q..r] == b[q - |a|..r - |a|];
    assert q > |a| ==> t[q - 1] == b[q - |a| - 1];
    assert r < |t| ==> t[r] == b[r - |a|];
    assert q == |a| && a != [] ==> t[q - 1] == a[|a| - 1];
  }

  /** No occurrence spans the meeting point of two parts when one side of
      it is not a word character. */
  lemma NoWholeWordAcross(a: string, b: string, q: nat, oldName: string)
    requires IsWordName(oldName)
    requires a == [] || b == [] || !IsWordChar(a[|a| - 1]) || !IsWordChar(b[0])
    requires q < |a| < q + |oldName| <= |a + b|
    ensures !WholeWordAt(a + b, q, oldName)
  {
    var t, r := a + b, q + |oldName|;
    assert t[q..r][|a| - 1 - q] == a[|a| - 1];
    assert t[q..r][|a| - q] == b[0];
    assert IsWordChar(oldName[|a| - 1 - q]) && IsWordChar(oldName[|a| - q]);
  }

  /** No whole-word occurrence straddles a point where one side is not a
      word character. */
  lemma ConcatNoWholeWord(a: string, b: string, oldName: string)
    requires IsWordName(oldName)
    requires a == [] || b == [] || !IsWordChar(a[|a| - 1]) || !IsWordChar(b[0])
    requires !HasWholeWord(a, oldName) && !HasWholeWord(b, oldName)
    ensures !HasWholeWord(a + b, oldName)
  {
    forall q: nat ensures !WholeWordAt(a + b, q, oldName) {
      if q + |oldName| > |a + b| {
      } else if q + |oldName| <= |a| {
        if WholeWordAt(a + b, q, oldName) { WholeWordInLeft(a, b, q, oldName); }
      } else if q >= |a| {
        if WholeWordAt(a + b, q, oldName) { WholeWordInRight(a, b, q, oldName); }
      } else {
        NoWholeWordAcross(a, b, q, oldName);
      }
    }
  }

  /** A run of word characters other than OLD holds no whole-word OLD. */
  lemma RunNoWholeWord(r: string, oldName: string)
    requires IsWordName(oldName) && AllWord(r) && r != oldName
    ensures !HasWholeWord(r, oldName)
  {
    forall q: nat | WholeWordAt(r, q, oldName) ensures false {
    }
  }

  /** A token piece of pass 3 holds no whole-word OLD, provided NEW holds
      none, and starts with the token's first character unless it is NEW. */
  lemma WordPieceClean(s: string, oldName: string, newName: string, p: nat)
    requires IsWordName(oldName) && !HasWholeWord(newName, oldName)
    requires p < |s|
    ensures !HasWholeWord(WordPiece(s, oldName, newName, p), oldName)
    ensures !IsWordChar(s[p]) ==> WordPiece(s, oldName, newName, p) == [s[p]]
    ensures IsWordChar(s[p]) ==> AllWord(WordPiece(s, oldName, newName, p)) || WordPiece(s, oldName, newName, p) == newName
  {
    var e := WordNext(s, p);
    if !IsWordChar(s[p]) {
      assert s[p..e] == [s[p]];
      forall q: nat | WholeWordAt([s[p]], q, oldName) ensures false {
      }
    } else {
      WordEndSpec(s, p + 1);
      if s[p..e] != oldName {
        assert AllWord(s[p..e]) by {
          forall k | 0 <= k < e - p ensures IsWordChar(s[p..e][k]) {
            if k > 0 { assert s[p..e][k] == s[p + 1..e][k - 1]; }
          }
        }
        RunNoWholeWord(s[p..e], oldName);
      }
    }
  }

  /** After pass 3 no whole-word OLD is left, provided NEW holds none. */
  lemma {:induction false} WholeWordsGone(s: string, oldName: string, newName: string, p: nat)
    requires IsWordName(oldName) && !HasWholeWord(newName, oldName)
    requires p <= |s|
    ensures !HasWholeWord(WholeWords(s, oldName, newName, p), oldName)
    ensures p < |s| && !IsWordChar(s[p]) ==> WholeWords(s, oldName, newName, p)[0] == s[p]
    decreases |s| - p
  {
    if p < |s| {
      var e := WordNext(s, p);
      WholeWordsGone(s, oldName, newName, e);
      WordPieceClean(s, oldName, newName, p);
      var piece, rest := WordPiece(s, oldName, newName, p), WholeWords(s, oldName, newName, e);
      if IsWordChar(s[p]) && e < |s| {
        WordEndSpec(s, p + 1);
        assert !IsWordChar(rest[0]);
      }
      ConcatNoWholeWord(piece, rest, oldName);
    }
  }

  /** Text without a whole-word OLD passes unchanged through pass 3 read
      token by token. */
  lemma {:induction false} WholeWordsIdentity(s: string, oldName: string, newName: string, p: nat)
    requires IsWordName(oldName) && !HasWholeWord(s, oldName)
    requires p <= |s| && TokenStart(s, p)
    ensures WholeWords(s, oldName, newName, p) == s[p..]
    decreases |s| - p
  {
    if p < |s| {
      var e := WordNext(s, p);
      WordEndSpec(s, p + 1);
      if IsWordChar(s[p]) && s[p..e] == oldName {
        RunIsWholeWord(s, p, e, oldName);
        assert false;
      }
      assert WordPiece(s, oldName, newName, p) == s[p..e];
      assert TokenStart(s, e);
      WholeWordsIdentity(s, oldName, newName, e);
      assert s[p..] == s[p..e] + s[e..];
    }
  }

  /** ...and unchanged through pass 2 read token by token. */
  lemma QualifiedWordsIdentity(s: string, oldName: string, newName: string, p: nat)
    requires IsWordName(oldName) && !HasWholeWord(s, oldName)
    requires p <= |s| && TokenStart(s, p)
    ensures QualifiedWords(s, oldName, newName, p) == s[p..]
  {
    QualifiedWordsPrefix(s, oldName, newName, p, |s|);
    assert s[p..|s|] == s[p..];
  }


  /** Two adjacent slices followed by a tail are the joined slice and the tail. */
  lemma SliceConcat(s: string, i: nat, j: nat, k: nat, r: string)
    requires i <= j <= k <= |s|
    ensures s[i..j] + (s[j..k] + r) == s[i..k] + r
  {
    assert s[i..k] == s[i..j] + s[j..k];
  }

  /** A word run that starts before a non-word character at `m - 1` ends
      before it. */
  lemma RunEndsBefore(s: string, p: nat, m: nat)
    requires p < m <= |s| && IsWordChar(s[p]) && !IsWordChar(s[m - 1])
    ensures WordEnd(s, p + 1) < m
  {
    if WordEnd(s, p + 1) >= m && m - 1 > p {
      WordEndCovers(s, p + 1, m - 1);
    }
  }

  /** One token of such a stretch is copied and ends inside it. */
  lemma QualifiedCopyToken(s: string, oldName: string, newName: string, p: nat, m: nat)
    requires IsWordName(oldName)
    requires p < m <= |s| && TokenStart(s, p) && (m == |s| || !IsWordChar(s[m - 1]))
    requires p + |oldName| <= m ==> !WholeWordAt(s, p, oldName)
    ensures var e := QualifiedNext(s, oldName, p);
            && e <= m && TokenStart(s, e)
            && QualifiedPiece(s, oldName, newName, p) == s[p..e]
  {
    if IsWordChar(s[p]) {
      var w := WordEnd(s, p + 1);
      if m < |s| {
        RunEndsBefore(s, p, m);
      }
      WordEndSpec(s, p + 1);
      if QualifiedToken(s, oldName, p, w) {
        RunIsWholeWord(s, p, w, oldName);
        assert false;
      }
    }
  }

  /** Pass 2 read token by token copies a stretch that ends at a non-word
      character, or at the end of the text, and holds no whole-word OLD. */
  lemma {:induction false} QualifiedWordsPrefix(s: string, oldName: string, newName: string, p: nat, m: nat)
    requires IsWordName(oldName)
    requires p <= m <= |s| && TokenStart(s, p)
    requires m == p || m == |s| || !IsWordChar(s[m - 1])
    requires forall q :: p <= q && q + |oldName| <= m ==> !WholeWordAt(s, q, oldName)
    ensures QualifiedWords(s, oldName, newName, p) == s[p..m] + QualifiedWords(s, oldName, newName, m)
    decreases m - p
  {
    if p < m {
      var e := QualifiedNext(s, oldName, p);
      QualifiedCopyToken(s, oldName, newName, p, m);
      assert QualifiedWords(s, oldName, newName, p) == s[p..e] + QualifiedWords(s, oldName, newName, e);
      QualifiedWordsPrefix(s, oldName, newName, e, m);
      SliceConcat(s, p, e, m, QualifiedWords(s, oldName, newName, m));
    }
  }

  /** Pass 2 read token by token copies a leading part that holds no
      whole-word OLD and ends with a non-word character, or is empty. */
  lemma QualifiedWordsLeft(x: string, b: string, oldName: string, newName: string)
    requires IsWordName(oldName) && !HasWholeWord(x, oldName)
    requires x == [] || !IsWordChar(x[|x| - 1])
    ensures QualifiedWords(x + b, oldName, newName, 0) == x + QualifiedWords(x + b, oldName, newName, |x|)
  {
    var s := x + b;
    forall q | 0 <= q && q + |oldName| <= |x| ensures !WholeWordAt(s, q, oldName) {
      if WholeWordAt(s, q, oldName) {
        WholeWordInLeft(x, b, q, oldName);
        assert false;
      }
    }
    assert x != [] ==> s[|x| - 1] == x[|x| - 1];
    QualifiedWordsPrefix(s, oldName, newName, 0, |x|);
    assert s[0..|x|] == x;
  }

  /** The first qualified reference `OLD.Ident` of the text, after a part
      `x` that holds no whole-word OLD and ends with a non-word character or
      is empty, is the first thing pass 2 rewrites: the part before it is
      copied and the reference becomes `NEW.Ident`. */
  lemma RenameQualifiedRewrites(x: string, oldName: string, id: string, y: string, newName: string)
    requires IsWordName(oldName)
    requires x == [] || !IsWordChar(x[|x| - 1])
    requires !HasWholeWord(x, oldName)
    requires id != [] && IsIdentStart(id[0]) && AllWord(id)
    requires y == [] || !IsWordChar(y[0])
    ensures var s := x + oldName + "." + id + y;
            RenameQualified(s, oldName, newName)
            == x + newName + "." + id + QualifiedWords(s, oldName, newName, |x + oldName + "." + id|)
  {
    var s := x + oldName + "." + id + y;
    var b := oldName + "." + id + y;
    var rest := QualifiedWords(s, oldName, newName, |x + oldName + "." + id|);
    assert s == x + b;
    RenameQualifiedWords(s, oldName, newName, 0);
    QualifiedWordsLeft(x, b, oldName, newName);
    QualifiedRewritten(x, oldName, id, y, newName);
    assert RenameQualified(s, oldName, newName) == x + (newName + "." + id + rest);
    AppendAssoc5(x, newName, ".", id, rest);
  }

  // ---------------------------------------------------------------------
  // The three passes together

  /** `replace_class_references(content, oldName, newName)` */
  function ReplaceClassReferences(content: string, oldName: string, newName: string): string {
    RenameWholeWords(RenameQualified(RenameDeclaration(content, oldName, newName), oldName, newName), oldName, newName)
  }

  /** The last pass leaves no whole-word OLD, provided NEW holds none. */
  lemma NoOldWordLeft(content: string, oldName: string, newName: string)
    requires IsWordName(oldName) && !HasWholeWord(newName, oldName)
    ensures !HasWholeWord(ReplaceClassReferences(content, oldName, newName), oldName)
  {
    var t := RenameQualified(RenameDeclaration(content, oldName, newName), oldName, newName);
    RenameWholeWordsWords(t, oldName, newName, 0);
    WholeWordsGone(t, oldName, newName, 0);
  }

  /** A declaration head names OLD as a whole word. */
  lemma DeclHeadIsWholeWord(s: string, p: nat, oldName: string)
    requires IsWordName(oldName)
    requires p <= |s| && DeclHeadAt(s, p, oldName)
    ensures WholeWordAt(s, p + |Head|, oldName)
  {
    var q := p + |Head|;
    var r := q + |oldName|;
    assert p + |Head + oldName| == r;
    assert s[q - 1] == ' ' by {
      assert s[q - 1] == s[p..q][|Head| - 1];
      assert Head[|Head| - 1] == ' ';
    }
    assert IsWordChar(s[q]) by { assert s[q] == oldName[0]; }
    assert IsBoundary(s, q);
    assert IsWordChar(s[r - 1]) by { assert s[r - 1] == oldName[|oldName| - 1]; }
    WsEndSpec(s, r);
    assert !IsWordChar(s[r]) by {
      if WsEnd(s, r) > r {
        assert IsSpace(s[r]) by { assert s[r] == s[r..WsEnd(s, r)][0]; }
      } else {
        assert s[r] == '{';
      }
    }
    assert IsBoundary(s, r);
  }

  /** Text with no whole-word OLD comes back unchanged. */
  lemma ReplaceIdentity(content: string, oldName: string, newName: string)
    requires IsWordName(oldName) && !HasWholeWord(content, oldName)
    ensures ReplaceClassReferences(content, oldName, newName) == content
  {
    forall k | 0 <= k <= |content| ensures !DeclHeadAt(content, k, oldName) {
      if DeclHeadAt(content, k, oldName) {
        DeclHeadIsWholeWord(content, k, oldName);
      }
    }
    RenameDeclarationNone(content, oldName, newName);
    RenameQualifiedWords(content, oldName, newName, 0);
    QualifiedWordsIdentity(content, oldName, newName, 0);
    WholeWordsIdentity(content, oldName, newName, 0);
    RenameWholeWordsWords(content, oldName, newName, 0);
  }
}
