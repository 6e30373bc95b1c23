/** The few `str` methods the scripts rely on: `split`, `join`, `strip`,
    `lower`, `count`, and decimal formatting of an int. */
module Strings {
  import opened Chars

  /** `s.split(sep)` for a one-character separator: always at least one piece. */
  function Split(s: string, sep: char): (pieces: seq<string>)
    ensures |pieces| >= 1
    ensures forall i :: 0 <= i < |pieces| ==> sep !in pieces[i]
  {
    if s == [] then [[]]
    else
      var rest := Split(s[1..], sep);
      if s[0] == sep then [[]] + rest
      else [[s[0]] + rest[0]] + rest[1..]
  }

  /** `sep.join(pieces)` */
  function Join(pieces: seq<string>, sep: string): string
  {
    if pieces == [] then []
    else if |pieces| == 1 then pieces[0]
    else pieces[0] + sep + Join(pieces[1..], sep)
  }

  /** Splitting and joining on the same character are inverse: the join undoes the split. */
  lemma {:induction false} JoinSplit(s: string, sep: char)
    ensures Join(Split(s, sep), [sep]) == s
  {
    if s != [] {
      JoinSplit(s[1..], sep);
      var rest := Split(s[1..], sep);
      if s[0] != sep {
        if |rest| > 1 {
          assert Join(rest, [sep]) == rest[0] + [sep] + Join(rest[1..], [sep]);
          assert s == [s[0]] + s[1..];
        }
      }
    }
  }

  /** ...and the split undoes the join when no piece contains the separator. */
  lemma {:induction false} SplitJoin(pieces: seq<string>, sep: char)
    requires |pieces| >= 1
    requires forall i :: 0 <= i < |pieces| ==> sep !in pieces[i]
    ensures Split(Join(pieces, [sep]), sep) == pieces
    decreases |pieces|, |pieces[0]|
  {
    if |pieces| == 1 {
      SplitNoSep(pieces[0], sep);
    } else if pieces[0] == [] {
      SplitJoin(pieces[1..], sep);
      assert Join(pieces, [sep]) == [sep] + Join(pieces[1..], [sep]);
    } else {
      var p := pieces[0];
      var tail := [p[1..]] + pieces[1..];
      assert sep !in p[1..] by {
        forall k | 0 <= k < |p[1..]| ensures p[1..][k] != sep { assert p[1..][k] == p[k + 1]; }
      }
      SplitJoin(tail, sep);
      JoinCons(p, pieces[1..], sep);
      JoinCons(p[1..], pieces[1..], sep);
      assert p == [p[0]] + p[1..];
      assert Join(pieces, [sep]) == [p[0]] + Join(tail, [sep]);
      assert Join(pieces, [sep])[1..] == Join(tail, [sep]);
      assert [[p[0]] + p[1..]] + pieces[1..] == pieces;
    }
  }

  lemma JoinCons(p: string, rest: seq<string>, sep: char)
    requires |rest| >= 1
    ensures Join([p] + rest, [sep]) == p + [sep] + Join(rest, [sep])
  {
    assert ([p] + rest)[1..] == rest;
  }

  lemma {:induction false} SplitNoSep(s: string, sep: char)
    requires sep !in s
    ensures Split(s, sep) == [s]
  {
    if s != [] {
      assert sep !in s[1..] by {
        forall k | 0 <= k < |s[1..]| ensures s[1..][k] != sep { assert s[1..][k] == s[k + 1]; }
      }
      SplitNoSep(s[1..], sep);
      assert [s[0]] + s[1..] == s;
    }
  }

  /** Position after the last non-whitespace character of `s[..j]`. */
  function TrimEnd(s: string, j: nat): (r: nat)
    requires j <= |s|
    ensures r <= j
    ensures forall k :: r <= k < j ==> IsSpace(s[k])
    ensures r == 0 || !IsSpace(s[r - 1])
  {
    if j > 0 && IsSpace(s[j - 1]) then TrimEnd(s, j - 1) else j
  }

  /** `s.strip()` */
  function Strip(s: string): (r: string)
    ensures r == [] || (!IsSpace(r[0]) && !IsSpace(r[|r| - 1]))
  {
    WsEndSpec(s, 0);
    var a := WsEnd(s, 0);
    var b := TrimEnd(s, |s|);
    if b <= a then [] else s[a..b]
  }

  /** Stripping only removes leading and trailing whitespace: the result is a
      slice of `s` surrounded by whitespace, and it is empty exactly for blank `s`. */
  lemma StripIsSlice(s: string)
    ensures exists a, b :: 0 <= a <= b <= |s| && Strip(s) == s[a..b] && AllSpace(s[..a]) && AllSpace(s[b..])
    ensures Strip(s) == [] <==> AllSpace(s)
  {
    var a := WsEnd(s, 0);
    var b := TrimEnd(s, |s|);
    WsEndSpec(s, 0);
    if b <= a {
      assert AllSpace(s) by {
        forall k | 0 <= k < |s| ensures IsSpace(s[k]) {
          assert s[k] == s[0..a][k];
        }
      }
      assert Strip(s) == s[0..0];
      assert AllSpace(s[0..]) by { assert s[0..] == s; }
    } else {
      assert s[..a] == s[0..a];
      assert AllSpace(s[b..]);
    }
  }

  /** ASCII letters lowered, everything else kept (`str.lower()` on ASCII). */
  function LowerChar(c: char): char {
    if 'A' <= c <= 'Z' then (c as int + 32) as char else c
  }

  /** `s.lower()` on the identifier alphabet. */
  function Lower(s: string): (r: string)
    ensures |r| == |s|
    ensures forall i :: 0 <= i < |s| ==> r[i] == LowerChar(s[i])
  {
    if s == [] then [] else [LowerChar(s[0])] + Lower(s[1..])
  }

  /** `s.count(c)` for a single character. */
  function CountChar(s: string, c: char): nat
  {
    if s == [] then 0 else (if s[0] == c then 1 else 0) + CountChar(s[1..], c)
  }

  /** Counting is additive over appending one character. */
  lemma {:induction false} CountCharSnoc(s: string, d: char, c: char)
    ensures CountChar(s + [d], c) == CountChar(s, c) + (if d == c then 1 else 0)
  {
    if s != [] {
      assert (s + [d])[1..] == s[1..] + [d];
      CountCharSnoc(s[1..], d, c);
    }
  }

  /** `s.count("</")`: the two characters cannot overlap with themselves, so
      this is the number of positions where `</` starts. */
  function CountCloseOpen(s: string): (r: nat)
    ensures r <= CountChar(s, '<')
  {
    if |s| < 2 then (if s == [] then 0 else CountCloseOpen(s[1..]))
    else (if s[0] == '<' && s[1] == '/' then 1 else 0) + CountCloseOpen(s[1..])
  }

  function DigitChar(d: nat): (c: char)
    requires d < 10
    ensures IsDigit(c)
  {
    ('0' as int + d) as char
  }

  /** `str(n)` for a natural number. */
  function NatToString(n: nat): (r: string)
    ensures |r| >= 1
    ensures forall i :: 0 <= i < |r| ==> IsDigit(r[i])
  {
    if n < 10 then [DigitChar(n)] else NatToString(n / 10) + [DigitChar(n % 10)]
  }

  /** Decimal formatting is injective. */
  lemma {:induction false} NatToStringInjective(m: nat, n: nat)
    requires NatToString(m) == NatToString(n)
    ensures m == n
  {
    var sm, sn := NatToString(m), NatToString(n);
    if m < 10 && n < 10 {
    } else if m >= 10 && n >= 10 {
      assert sm[|sm| - 1] == DigitChar(m % 10);
      assert sn[|sn| - 1] == DigitChar(n % 10);
      assert sm[..|sm| - 1] == NatToString(m / 10);
      assert sn[..|sn| - 1] == NatToString(n / 10);
      NatToStringInjective(m / 10, n / 10);
    }
  }
}
