/** Character classes and run scanners shared by the text models.

    Whitespace is Python's `\s` for str patterns, which is also the set that
    `str.strip()` removes.  Word characters are the ASCII ones
    `[A-Za-z0-9_]`, the same class the identifier patterns of the scripts use. */
module Chars {

  predicate IsSpace(c: char) {
    || c == ' ' || ('\t' <= c <= '\r') || ('\U{1c}' <= c <= '\U{1f}')
    || c == '\U{85}' || c == '\U{a0}' || c == '\U{1680}'
    || ('\U{2000}' <= c <= '\U{200a}') || c == '\U{2028}' || c == '\U{2029}'
    || c == '\U{202f}' || c == '\U{205f}' || c == '\U{3000}'
  }

  predicate IsLetter(c: char) { ('A' <= c <= 'Z') || ('a' <= c <= 'z') }

  predicate IsDigit(c: char) { '0' <= c <= '9' }

  /** `[A-Za-z_]` */
  predicate IsIdentStart(c: char) { IsLetter(c) || c == '_' }

  /** `[A-Za-z0-9_]` */
  predicate IsWordChar(c: char) { IsIdentStart(c) || IsDigit(c) }

  predicate AllSpace(s: string) { forall i :: 0 <= i < |s| ==> IsSpace(s[i]) }

  predicate AllWord(s: string) { forall i :: 0 <= i < |s| ==> IsWordChar(s[i]) }

  /** Regrouping a concatenation of three, four or five pieces. */
  lemma AppendAssoc(a: string, b: string, c: string)
    ensures a + b + c == a + (b + c)
  {
  }

  lemma AppendAssoc4(a: string, b: string, c: string, d: string)
    ensures a + b + c + d == a + (b + c + d)
  {
    assert a + b + c + d == a + (b + c) + d;
  }

  lemma AppendAssoc5(a: string, b: string, c: string, d: string, e: string)
    ensures a + (b + c + d + e) == a + b + c + d + e
  {
  }

  /** `lit` occurs in `s` at position `i`. */
  predicate LitAt(s: string, i: nat, lit: string) {
    i + |lit| <= |s| && s[i..i + |lit|] == lit
  }

  /** End of the maximal whitespace run that starts at `i` (a greedy `\s*`). */
  function WsEnd(s: string, i: nat): (r: nat)
    requires i <= |s|
    ensures i <= r <= |s|
    decreases |s| - i
  {
    if i < |s| && IsSpace(s[i]) then WsEnd(s, i + 1) else i
  }

  /** The run really is maximal and all whitespace. */
  lemma {:induction false} WsEndSpec(s: string, i: nat)
    requires i <= |s|
    ensures AllSpace(s[i..WsEnd(s, i)])
    ensures WsEnd(s, i) == |s| || !IsSpace(s[WsEnd(s, i)])
    decreases |s| - i
  {
    if i < |s| && IsSpace(s[i]) {
      WsEndSpec(s, i + 1);
      assert s[i..WsEnd(s, i)] == [s[i]] + s[i + 1..WsEnd(s, i)];
    }
  }

  /** End of the maximal run of word characters that starts at `i`. */
  function WordEnd(s: string, i: nat): (r: nat)
    requires i <= |s|
    ensures i <= r <= |s|
    decreases |s| - i
  {
    if i < |s| && IsWordChar(s[i]) then WordEnd(s, i + 1) else i
  }

  /** The run really is maximal and made of word characters. */
  lemma {:induction false} WordEndSpec(s: string, i: nat)
    requires i <= |s|
    ensures AllWord(s[i..WordEnd(s, i)])
    ensures WordEnd(s, i) == |s| || !IsWordChar(s[WordEnd(s, i)])
    decreases |s| - i
  {
    if i < |s| && IsWordChar(s[i]) {
      WordEndSpec(s, i + 1);
      assert s[i..WordEnd(s, i)] == [s[i]] + s[i + 1..WordEnd(s, i)];
    }
  }

  /** Every character before the end of the run is a word character. */
  lemma {:induction false} WordEndCovers(s: string, i: nat, k: nat)
    requires i <= |s| && i <= k < WordEnd(s, i)
    ensures IsWordChar(s[k])
    decreases k - i
  {
    if i < k {
      WordEndCovers(s, i + 1, k);
    }
  }

  /** A whitespace character just before `i` does not move the end of the run. */
  lemma WsEndStep(s: string, i: nat)
    requires i < |s| && IsSpace(s[i])
    ensures WsEnd(s, i) == WsEnd(s, i + 1)
  {
  }

  /** Every position strictly inside a maximal whitespace run ends at the same place. */
  lemma {:induction false} WsEndInside(s: string, i: nat, k: nat)
    requires i <= |s|
    requires i <= k <= WsEnd(s, i)
    ensures WsEnd(s, k) == WsEnd(s, i)
    decreases k - i
  {
    if i < k {
      WsEndInside(s, i + 1, k);
    }
  }
}
