/** The reference graph between type definitions: a type refers to every
    name `X` that appears as an attribute value `tns:X` anywhere inside its
    definition, whichever attribute holds it. */
module TypeGraph {
  import opened XmlTree

  const TnsPrefix: string := "tns:"

  /** `value.startswith("tns:")` */
  predicate IsRef(v: string) {
    |TnsPrefix| <= |v| && v[..|TnsPrefix|] == TnsPrefix
  }

  /** The names referred to by the attributes of one element. */
  function AttrRefs(e: Element): set<string> {
    set v | v in e.attrib.Values && IsRef(v) :: v[|TnsPrefix|..]
  }

  /** The names referred to by a list of elements. */
  function RefsIn(xs: seq<Element>): set<string> {
    if xs == [] then {} else AttrRefs(xs[0]) + RefsIn(xs[1..])
  }

  /** What a type definition refers to: the references of the element and of
      all its descendants. */
  function Refs(e: Element): set<string> {
    RefsIn(Iter(e))
  }

  lemma {:induction false} RefsInConcat(a: seq<Element>, b: seq<Element>)
    ensures RefsIn(a + b) == RefsIn(a) + RefsIn(b)
  {
    if a == [] {
      assert a + b == b;
    } else {
      assert (a + b)[1..] == a[1..] + b;
      RefsInConcat(a[1..], b);
    }
  }

  /** An element's references are those of its own attributes and those of
      its children, taken one child after another. */
  lemma RefsSplit(e: Element)
    ensures Refs(e) == AttrRefs(e) + RefsIn(IterSeq(e.children))
  {
    assert RefsIn([e]) == AttrRefs(e);
    RefsInConcat([e], IterSeq(e.children));
  }

  /** The references of the first `i + 1` children. */
  lemma RefsChildrenStep(cs: seq<Element>, i: nat)
    requires i < |cs|
    ensures RefsIn(IterSeq(cs[..i + 1])) == RefsIn(IterSeq(cs[..i])) + Refs(cs[i])
  {
    assert cs[..i + 1] == cs[..i] + [cs[i]];
    IterSeqSnoc(cs[..i], cs[i]);
    RefsInConcat(IterSeq(cs[..i]), Iter(cs[i]));
  }

  lemma {:induction false} RefsInMember(xs: seq<Element>, r: string)
    ensures r in RefsIn(xs) <==> exists i :: 0 <= i < |xs| && r in AttrRefs(xs[i])
  {
    if xs != [] {
      RefsInMember(xs[1..], r);
      if r in RefsIn(xs[1..]) {
        var i :| 0 <= i < |xs[1..]| && r in AttrRefs(xs[1..][i]);
        assert r in AttrRefs(xs[i + 1]);
      }
      if exists i :: 0 <= i < |xs| && r in AttrRefs(xs[i]) {
        var i :| 0 <= i < |xs| && r in AttrRefs(xs[i]);
        if i > 0 { assert xs[1..][i - 1] == xs[i]; }
      }
    }
  }

  /** `r` is referred to by `e` exactly when some attribute value `tns:r`
      occurs on `e` or on one of its descendants. */
  lemma RefsMember(e: Element, r: string)
    ensures r in Refs(e) <==> exists i, v :: 0 <= i < |Iter(e)| && v in Iter(e)[i].attrib.Values && IsRef(v) && r == v[|TnsPrefix|..]
  {
    RefsInMember(Iter(e), r);
    if r in Refs(e) {
      var i :| 0 <= i < |Iter(e)| && r in AttrRefs(Iter(e)[i]);
      var v :| v in Iter(e)[i].attrib.Values && IsRef(v) && r == v[|TnsPrefix|..];
    }
    if exists i, v :: 0 <= i < |Iter(e)| && v in Iter(e)[i].attrib.Values && IsRef(v) && r == v[|TnsPrefix|..] {
      var i, v :| 0 <= i < |Iter(e)| && v in Iter(e)[i].attrib.Values && IsRef(v) && r == v[|TnsPrefix|..];
      assert r in AttrRefs(Iter(e)[i]);
      assert exists k :: 0 <= k < |Iter(e)| && r in AttrRefs(Iter(e)[k]);
    }
  }

  // ---------------------------------------------------------------------
  // Reachability

  /** `x` is a known type whose definition refers to `y`. */
  ghost predicate Edge(table: map<string, Element>, x: string, y: string) {
    x in table && y in Refs(table[x])
  }

  ghost predicate IsPath(table: map<string, Element>, p: seq<string>) {
    |p| >= 1 && forall i :: 0 <= i < |p| - 1 ==> Edge(table, p[i], p[i + 1])
  }

  /** `y` is reachable from `x` by following references of known types; a
      name missing from the table is reachable but leads nowhere. */
  ghost predicate Reaches(table: map<string, Element>, x: string, y: string) {
    exists p :: IsPath(table, p) && p[0] == x && p[|p| - 1] == y
  }

  lemma ReachesRefl(table: map<string, Element>, x: string)
    ensures Reaches(table, x, x)
  {
    assert IsPath(table, [x]);
  }

  lemma ReachesStep(table: map<string, Element>, x: string, y: string, z: string)
    requires Edge(table, x, y) && Reaches(table, y, z)
    ensures Reaches(table, x, z)
  {
    var p :| IsPath(table, p) && p[0] == y && p[|p| - 1] == z;
    var q := [x] + p;
    forall i | 0 <= i < |q| - 1 ensures Edge(table, q[i], q[i + 1]) {
      if i > 0 { assert q[i] == p[i - 1] && q[i + 1] == p[i]; }
    }
    assert IsPath(table, q);
  }

  /** A path none of whose nodes after the first is in `marks`. */
  ghost predicate AvoidingPath(table: map<string, Element>, marks: set<string>, p: seq<string>) {
    IsPath(table, p) && forall i :: 1 <= i < |p| ==> p[i] !in marks
  }

  /** `y` is reachable from `x` without passing through or ending at a name
      of `marks`. */
  ghost predicate ReachesAvoiding(table: map<string, Element>, marks: set<string>, x: string, y: string) {
    exists p :: AvoidingPath(table, marks, p) && p[0] == x && p[|p| - 1] == y
  }

  lemma AvoidingReaches(table: map<string, Element>, marks: set<string>, x: string, y: string)
    requires ReachesAvoiding(table, marks, x, y)
    ensures Reaches(table, x, y)
  {
    var p :| AvoidingPath(table, marks, p) && p[0] == x && p[|p| - 1] == y;
    assert IsPath(table, p);
  }

  /** A reference to an unmarked name is reached avoiding the marks. */
  lemma ReachesAvoidingEdge(table: map<string, Element>, marks: set<string>, x: string, y: string)
    requires Edge(table, x, y) && y !in marks
    ensures ReachesAvoiding(table, marks, x, y)
  {
    assert AvoidingPath(table, marks, [x, y]);
  }

  /** A step to an unmarked name, followed by a path that avoids a larger
      set of marks. */
  lemma ReachesAvoidingStep(table: map<string, Element>, marks: set<string>, marks2: set<string>, x: string, y: string, z: string)
    requires Edge(table, x, y) && y !in marks && marks <= marks2
    requires ReachesAvoiding(table, marks2, y, z)
    ensures ReachesAvoiding(table, marks, x, z)
  {
    var p :| AvoidingPath(table, marks2, p) && p[0] == y && p[|p| - 1] == z;
    var q := [x] + p;
    forall i | 0 <= i < |q| - 1 ensures Edge(table, q[i], q[i + 1]) {
      if i > 0 { assert q[i] == p[i - 1] && q[i + 1] == p[i]; }
    }
    forall i | 1 <= i < |q| ensures q[i] !in marks {
      assert q[i] == p[i - 1];
    }
    assert AvoidingPath(table, marks, q);
  }

  /** Every known type in `s` has all its references in `s`: adding the
      references of its members adds nothing. */
  ghost predicate Closed(table: map<string, Element>, s: set<string>) {
    forall t :: t in s && t in table ==> Refs(table[t]) <= s
  }

  /** `x` is reachable from one of the roots. */
  ghost predicate ReachedFrom(table: map<string, Element>, roots: set<string>, x: string) {
    exists r :: r in roots && Reaches(table, r, x)
  }

  /** Every name that can be reached at all: a root or a name some known
      type refers to. */
  ghost function Universe(table: map<string, Element>, roots: set<string>): set<string> {
    roots + (set t, y | t in table.Keys && y in Refs(table[t]) :: y)
  }

  /** The reference closure of `roots`: the roots and every name reachable
      from them, names missing from the table included. */
  ghost function Reachable(table: map<string, Element>, roots: set<string>): set<string> {
    set x | x in Universe(table, roots) && ReachedFrom(table, roots, x)
  }

  lemma ReachesInUniverse(table: map<string, Element>, roots: set<string>, x: string)
    requires ReachedFrom(table, roots, x)
    ensures x in Universe(table, roots)
  {
    var r :| r in roots && Reaches(table, r, x);
    var p :| IsPath(table, p) && p[0] == r && p[|p| - 1] == x;
    if |p| > 1 {
      assert Edge(table, p[|p| - 2], p[|p| - 1]);
    }
  }

  /** Membership in the closure is reachability from a root. */
  lemma ReachableMember(table: map<string, Element>, roots: set<string>, x: string)
    ensures x in Reachable(table, roots) <==> ReachedFrom(table, roots, x)
  {
    if ReachedFrom(table, roots, x) {
      ReachesInUniverse(table, roots, x);
    }
  }

  /** A closed set holds everything reachable from its members. */
  lemma {:induction false} ClosedPath(table: map<string, Element>, s: set<string>, p: seq<string>)
    requires Closed(table, s) && IsPath(table, p) && p[0] in s
    ensures p[|p| - 1] in s
    decreases |p|
  {
    if |p| > 1 {
      assert Edge(table, p[0], p[1]);
      var q := p[1..];
      assert IsPath(table, q) by {
        forall i | 0 <= i < |q| - 1 ensures Edge(table, q[i], q[i + 1]) {
          assert q[i] == p[i + 1] && q[i + 1] == p[i + 2];
        }
      }
      ClosedPath(table, s, q);
    }
  }

  /** The closure is the least closed set that holds the roots. */
  lemma ReachableLeast(table: map<string, Element>, roots: set<string>, s: set<string>)
    requires roots <= s && Closed(table, s)
    ensures Reachable(table, roots) <= s
  {
    forall x | x in Reachable(table, roots) ensures x in s {
      var r :| r in roots && Reaches(table, r, x);
      var p :| IsPath(table, p) && p[0] == r && p[|p| - 1] == x;
      ClosedPath(table, s, p);
    }
  }

  /** The closure holds the roots and is closed: following the references of
      its known members adds nothing, so it is a fixed point. */
  lemma ReachableClosed(table: map<string, Element>, roots: set<string>)
    ensures roots <= Reachable(table, roots)
    ensures Closed(table, Reachable(table, roots))
  {
    var c := Reachable(table, roots);
    forall r | r in roots ensures r in c {
      ReachesRefl(table, r);
      ReachableMember(table, roots, r);
    }
    forall t, y | t in c && t in table && y in Refs(table[t]) ensures y in c {
      ReachableMember(table, roots, t);
      var r :| r in roots && Reaches(table, r, t);
      ReachesSnoc(table, r, t, y);
      ReachableMember(table, roots, y);
    }
  }

  lemma ReachesSnoc(table: map<string, Element>, x: string, y: string, z: string)
    requires Reaches(table, x, y) && Edge(table, y, z)
    ensures Reaches(table, x, z)
  {
    var p :| IsPath(table, p) && p[0] == x && p[|p| - 1] == y;
    var q := p + [z];
    forall i | 0 <= i < |q| - 1 ensures Edge(table, q[i], q[i + 1]) {
      if i < |p| - 1 { assert q[i] == p[i] && q[i + 1] == p[i + 1]; }
    }
    assert IsPath(table, q);
  }

  /** A closed set that holds the roots and only names reachable from them
      is the closure. */
  lemma ReachableUnique(table: map<string, Element>, roots: set<string>, s: set<string>)
    requires roots <= s && Closed(table, s)
    requires forall x {:trigger ReachedFrom(table, roots, x)} :: x in s ==> ReachedFrom(table, roots, x)
    ensures s == Reachable(table, roots)
  {
    ReachableLeast(table, roots, s);
    forall x | x in s ensures x in Reachable(table, roots) {
      assert ReachedFrom(table, roots, x);
      ReachableMember(table, roots, x);
    }
  }
}
