/** Python's ordering of `str` values (code point by code point, a proper
    prefix first) and `sorted()` of a set of strings. */
module Ordering {

  /** `a < b` on Python strings. */
  function Less(a: string, b: string): bool
  {
    if a == [] then b != []
    else if b == [] then false
    else if a[0] != b[0] then a[0] < b[0]
    else Less(a[1..], b[1..])
  }

  lemma {:induction false} LessAsymmetric(a: string, b: string)
    requires Less(a, b)
    ensures a != b && !Less(b, a)
  {
    if a != [] && b != [] && a[0] == b[0] {
      LessAsymmetric(a[1..], b[1..]);
    }
  }

  lemma {:induction false} LessTransitive(a: string, b: string, c: string)
    requires Less(a, b) && Less(b, c)
    ensures Less(a, c)
  {
    if a != [] && b != [] && c != [] && a[0] == b[0] && b[0] == c[0] {
      LessTransitive(a[1..], b[1..], c[1..]);
    }
  }

  lemma {:induction false} LessTotal(a: string, b: string)
    requires a != b
    ensures Less(a, b) || Less(b, a)
  {
    if a != [] && b != [] && a[0] == b[0] {
      assert a == [a[0]] + a[1..] && b == [b[0]] + b[1..];
      LessTotal(a[1..], b[1..]);
    }
  }

  predicate IsLeast(m: string, s: set<string>) {
    m in s && forall x :: x in s && x != m ==> Less(m, x)
  }

  lemma {:induction false} LeastExists(s: set<string>)
    requires s != {}
    ensures exists m :: IsLeast(m, s)
    decreases |s|
  {
    var x :| x in s;
    if s != {x} {
      LeastExists(s - {x});
      var m :| IsLeast(m, s - {x});
      if Less(m, x) {
        assert IsLeast(m, s);
      } else {
        LessTotal(m, x);
        forall y | y in s && y != x ensures Less(x, y) {
          if y != m { LessTransitive(x, m, y); }
        }
        assert IsLeast(x, s);
      }
    } else {
      assert IsLeast(x, s);
    }
  }

  lemma LeastUnique(s: set<string>)
    ensures forall m1, m2 :: IsLeast(m1, s) && IsLeast(m2, s) ==> m1 == m2
  {
    forall m1, m2 | IsLeast(m1, s) && IsLeast(m2, s) ensures m1 == m2 {
      if m1 != m2 { LessAsymmetric(m1, m2); }
    }
  }

  /** The least element of a non-empty set. */
  function Least(s: set<string>): (m: string)
    requires s != {}
    ensures IsLeast(m, s)
  {
    LeastExists(s);
    LeastUnique(s);
    var m :| IsLeast(m, s); m
  }

  predicate StrictlyIncreasing(xs: seq<string>) {
    forall i, j :: 0 <= i < j < |xs| ==> Less(xs[i], xs[j])
  }

  /** `sorted(s)` for a set of strings. */
  function SortedSet(s: set<string>): (xs: seq<string>)
    decreases |s|
  {
    if s == {} then [] else var m := Least(s); [m] + SortedSet(s - {m})
  }

  /** `sorted()` lists every element of the set exactly once, in increasing order. */
  lemma {:induction false} SortedSetSpec(s: set<string>)
    ensures StrictlyIncreasing(SortedSet(s))
    ensures |SortedSet(s)| == |s|
    ensures forall x :: x in SortedSet(s) <==> x in s
    decreases |s|
  {
    if s != {} {
      var m := Least(s);
      SortedSetSpec(s - {m});
      var xs := SortedSet(s);
      assert xs == [m] + SortedSet(s - {m});
      forall i, j | 0 <= i < j < |xs| ensures Less(xs[i], xs[j]) {
        if i == 0 {
          assert xs[j] in s - {m};
        } else {
          assert xs[i] == SortedSet(s - {m})[i - 1];
          assert xs[j] == SortedSet(s - {m})[j - 1];
        }
      }
    }
  }

  /** Strictly increasing sequences have no repeated element. */
  lemma StrictlyIncreasingDistinct(xs: seq<string>, i: nat, j: nat)
    requires StrictlyIncreasing(xs)
    requires i < |xs| && j < |xs| && i != j
    ensures xs[i] != xs[j]
  {
    if i < j { LessAsymmetric(xs[i], xs[j]); } else { LessAsymmetric(xs[j], xs[i]); }
  }
}
