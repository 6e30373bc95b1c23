/** `TypeExtractor` (python-scripts/extract_types.py): the table of type
    definitions of a schema and the depth-first search for the types a
    definition depends on. */
module TypeExtraction {
  import opened Wrappers
  import opened XmlTree
  import opened TypeGraph
  import opened Chars
  import opened Strings
  import opened Ordering
  import opened Fragments

  /** `tag.endswith('}complexType') or tag.endswith('}simpleType')` */
  predicate IsTypeTag(tag: string) {
    EndsWith(tag, "}complexType") || EndsWith(tag, "}simpleType")
  }

  /** The name under which `_build_type_cache` enters `e`: its non-empty
      `name` attribute when `e` is a type definition. */
  function TypeNameOf(e: Element): Option<string> {
    if IsTypeTag(e.tag) && "name" in e.attrib && e.attrib["name"] != "" then Some(e.attrib["name"]) else None
  }

  // The cache is described for any naming function `nameOf`; the class
  // uses `TypeNameOf`.

  /** Some element among `xs[..n]` is entered under `k`. */
  ghost predicate Named(nameOf: Element -> Option<string>, xs: seq<Element>, n: nat, k: string)
    requires n <= |xs|
  {
    exists i :: 0 <= i < n && nameOf(xs[i]) == Some(k)
  }

  /** `xs[i]` is the last element among `xs[..n]` entered under `k`. */
  ghost predicate LastNamed(nameOf: Element -> Option<string>, xs: seq<Element>, n: nat, k: string, i: nat) {
    i < n <= |xs| && nameOf(xs[i]) == Some(k) && forall j :: i < j < n ==> nameOf(xs[j]) != Some(k)
  }

  /** `table` is what the loop of `_build_type_cache` leaves after the first
      `n` elements of `xs`, starting from `t0`: its names are those of `t0`
      and those entered from `xs[..n]`; an entered name maps to the last
      element entered under it; any other name keeps its entry of `t0`. */
  ghost predicate IsCache(nameOf: Element -> Option<string>, table: map<string, Element>, t0: map<string, Element>,
                          xs: seq<Element>, n: nat)
    requires n <= |xs|
  {
    && (forall k :: k in table <==> k in t0 || Named(nameOf, xs, n, k))
    && (forall k, i: nat :: k in table && LastNamed(nameOf, xs, n, k, i) ==> table[k] == xs[i])
    && (forall k :: k in table && !Named(nameOf, xs, n, k) ==> table[k] == t0[k])
  }

  /** The table after one more element. */
  function CacheNext(nameOf: Element -> Option<string>, table: map<string, Element>, e: Element): map<string, Element> {
    match nameOf(e)
    case Some(k) => table[k := e]
    case None => table
  }

  lemma LastNamedBefore(nameOf: Element -> Option<string>, xs: seq<Element>, n: nat, k: string, i: nat)
    requires n < |xs| && LastNamed(nameOf, xs, n + 1, k, i) && i < n
    ensures LastNamed(nameOf, xs, n, k, i)
  {
  }

  /** One step of the loop of `_build_type_cache` keeps the description. */
  lemma CacheStep(nameOf: Element -> Option<string>, table: map<string, Element>, t0: map<string, Element>,
                  xs: seq<Element>, n: nat)
    requires n < |xs| && IsCache(nameOf, table, t0, xs, n)
    ensures IsCache(nameOf, CacheNext(nameOf, table, xs[n]), t0, xs, n + 1)
  {
    var next := CacheNext(nameOf, table, xs[n]);
    forall k ensures Named(nameOf, xs, n + 1, k) <==> Named(nameOf, xs, n, k) || nameOf(xs[n]) == Some(k) {
      if Named(nameOf, xs, n + 1, k) {
        var i :| 0 <= i < n + 1 && nameOf(xs[i]) == Some(k);
      }
    }
    forall k, i: nat | k in next && LastNamed(nameOf, xs, n + 1, k, i) ensures next[k] == xs[i] {
      if i < n {
        LastNamedBefore(nameOf, xs, n, k, i);
      }
    }
  }

  /** What one call of `find_dependencies(n)` guarantees, with `f0` the marks
      before the call and `f` after it, and `d` its result:
      - a name already marked, or missing from the table, gives nothing and
        changes nothing;
      - otherwise the marks grow by the name and by the known names of the
        result;
      - the result never holds the name nor anything marked before;
      - every type the call marks has all its references among the old
        marks, the name and the result;
      - every name in the result is reachable from the name without
        passing through an old mark. */
  ghost predicate SearchPost(table: map<string, Element>, f0: set<string>, n: string, f: set<string>, d: set<string>) {
    && f <= table.Keys
    && (n in f0 || n !in table ==> d == {} && f == f0)
    && (n !in f0 && n in table ==> f == f0 + {n} + (d * table.Keys))
    && n !in d && d !! f0
    && (forall t :: t in f - f0 && t in table ==> Refs(table[t]) <= f0 + {n} + d)
    && (forall x :: x in d ==> ReachesAvoiding(table, f0, n, x))
  }

  /** The result of one call of `find_dependencies(n)` with marks `f0`:
      nothing for a marked or unknown name; otherwise every name other than
      `n` that is reachable from `n` without passing through or ending at a
      name marked before the call, names missing from the table included. */
  ghost predicate SearchResult(table: map<string, Element>, f0: set<string>, n: string, d: set<string>) {
    && (n in f0 || n !in table ==> d == {})
    && (n !in f0 && n in table ==>
          forall x :: x in d <==> x != n && x !in f0 && ReachesAvoiding(table, f0, n, x))
  }

  /** The state of the loop over the references of `n` (entered with marks
      `f0`): like `SearchPost` for the name but only for the types marked so
      far below it. */
  ghost predicate SearchLoop(table: map<string, Element>, f0: set<string>, n: string, f: set<string>, d: set<string>) {
    && f <= table.Keys
    && f == f0 + {n} + (d * table.Keys)
    && n !in d && d !! f0
    && (forall t :: t in f - f0 - {n} && t in table ==> Refs(table[t]) <= f0 + {n} + d)
    && (forall x :: x in d ==> ReachesAvoiding(table, f0, n, x))
  }

  /** Descending into an unmarked reference `r` of `n` keeps the loop state. */
  lemma SearchDescend(table: map<string, Element>, f0: set<string>, n: string, f: set<string>, d: set<string>,
                      r: string, f2: set<string>, sub: set<string>)
    requires n in table && r in Refs(table[n]) && r !in f
    requires SearchLoop(table, f0, n, f, d)
    requires SearchPost(table, f, r, f2, sub)
    ensures SearchLoop(table, f0, n, f2, d + {r} + sub)
  {
    var d2 := d + {r} + sub;
    assert Edge(table, n, r);
    forall x | x in d2 ensures ReachesAvoiding(table, f0, n, x) {
      if x == r {
        ReachesAvoidingEdge(table, f0, n, r);
      } else if x in sub {
        ReachesAvoidingStep(table, f0, f, n, r, x);
      }
    }
    forall t | t in f2 - f0 - {n} && t in table ensures Refs(table[t]) <= f0 + {n} + d2 {
      if t !in f {
        assert Refs(table[t]) <= f + {r} + sub;
      }
    }
  }

  /** Once every reference of `n` has been looked at, the call's guarantee holds. */
  lemma SearchDone(table: map<string, Element>, f0: set<string>, n: string, f: set<string>, d: set<string>)
    requires n in table && n !in f0
    requires SearchLoop(table, f0, n, f, d)
    requires Refs(table[n]) <= f0 + {n} + d
    ensures SearchPost(table, f0, n, f, d)
  {
  }

  /** Every node of a path from `n` that avoids the old marks is `n` or in
      the result. */
  lemma {:induction false} AvoidingPathInside(table: map<string, Element>, f0: set<string>, n: string, f: set<string>,
                                              d: set<string>, p: seq<string>, k: nat)
    requires SearchPost(table, f0, n, f, d) && n in table && n !in f0
    requires AvoidingPath(table, f0, p) && p[0] == n && k < |p|
    ensures p[k] == n || p[k] in d
    decreases k
  {
    if k > 0 {
      AvoidingPathInside(table, f0, n, f, d, p, k - 1);
      var t := p[k - 1];
      assert Edge(table, t, p[k]);
      assert t !in f0;
      assert t in f - f0;
      assert p[k] in f0 + {n} + d;
    }
  }

  /** What one call guarantees fixes its result exactly. */
  lemma SearchExact(table: map<string, Element>, f0: set<string>, n: string, f: set<string>, d: set<string>)
    requires SearchPost(table, f0, n, f, d)
    ensures SearchResult(table, f0, n, d)
  {
    if n !in f0 && n in table {
      forall x | x != n && x !in f0 && ReachesAvoiding(table, f0, n, x) ensures x in d {
        var p :| AvoidingPath(table, f0, p) && p[0] == n && p[|p| - 1] == x;
        AvoidingPathInside(table, f0, n, f, d, p, |p| - 1);
      }
    }
  }

  /** A name missing from the table that the search can reach from an
      unmarked known name without passing an old mark is in the result, at
      any depth; a name marked by an earlier call never is.  This follows
      directly from `SearchResult`, which `SearchExact` establishes for every
      finished search, so it needs no proof of its own. */
  lemma MissingRefReported(table: map<string, Element>, f0: set<string>, n: string, d: set<string>, m: string)
    requires SearchResult(table, f0, n, d) && n in table && n !in f0
    ensures m !in table && m !in f0 && ReachesAvoiding(table, f0, n, m) ==> m in d
    ensures m in f0 ==> m !in d
  {
  }

  class TypeExtractor {
    const schema: Element
    var typeDefinitions: map<string, Element>
    var foundDependencies: set<string>

    /** Only known types are ever marked as found. */
    ghost predicate Valid()
      reads this
    {
      foundDependencies <= typeDefinitions.Keys
    }

    /** `__init__` once the schema element has been found: empty caches, then
        `_build_type_cache`. */
    constructor (schema: Element)
      ensures this.schema == schema && foundDependencies == {}
      ensures IsCache(TypeNameOf, typeDefinitions, map[], Iter(schema), |Iter(schema)|)
      ensures Valid()
    {
      this.schema := schema;
      typeDefinitions := map[];
      foundDependencies := {};
      new;
      BuildTypeCache();
    }

    /** `_build_type_cache`: every named type definition under the schema is
        entered under its name; a later definition of a name replaces an
        earlier one, and entries of other names stay. */
    method BuildTypeCache()
      requires Valid()
      modifies this`typeDefinitions
      ensures Valid()
      ensures IsCache(TypeNameOf, typeDefinitions, old(typeDefinitions), Iter(schema), |Iter(schema)|)
    {
      var elems := Iter(schema);
      ghost var t0 := typeDefinitions;
      for n := 0 to |elems|
        invariant foundDependencies <= t0.Keys <= typeDefinitions.Keys
        invariant IsCache(TypeNameOf, typeDefinitions, t0, elems, n)
      {
        CacheStep(TypeNameOf, typeDefinitions, t0, elems, n);
        var elem := elems[n];
        if IsTypeTag(elem.tag) && "name" in elem.attrib {
          var name := elem.attrib["name"];
          if name != "" {
            typeDefinitions := typeDefinitions[name := elem];
          }
        }
      }
    }

    /** `_extract_type_references`: the names `X` of all attribute values
        `tns:X` on the element and its descendants. */
    method ExtractTypeReferences(element: Element) returns (references: set<string>)
      ensures references == Refs(element)
      decreases element
    {
      references := {};
      var values := element.attrib.Values;
      var todo := values;
      while todo != {}
        invariant todo <= values
        invariant references == set v | v in values - todo && IsRef(v) :: v[|TnsPrefix|..]
        decreases |todo|
      {
        var v :| v in todo;
        todo := todo - {v};
        if IsRef(v) {
          references := references + {v[|TnsPrefix|..]};
        }
      }
      assert references == AttrRefs(element);
      var children := element.children;
      for i := 0 to |children|
        invariant references == AttrRefs(element) + RefsIn(IterSeq(children[..i]))
      {
        var sub := ExtractTypeReferences(children[i]);
        references := references + sub;
        RefsChildrenStep(children, i);
      }
      assert children[..|children|] == children;
      RefsSplit(element);
    }

    /** `find_dependencies`: a depth-first search over the references that
        marks each known type it enters in `foundDependencies`, a set kept
        across calls; `SearchPost` states what one call guarantees.  A
        referenced name missing from the table ends up in the result, because
        it is added before the recursive call that gives nothing for it. */
    method FindDependencies(typeName: string) returns (dependencies: set<string>)
      requires Valid()
      modifies this`foundDependencies
      ensures Valid()
      ensures SearchPost(typeDefinitions, old(foundDependencies), typeName, foundDependencies, dependencies)
      ensures SearchResult(typeDefinitions, old(foundDependencies), typeName, dependencies)
      decreases |typeDefinitions.Keys - foundDependencies|
    {
      if typeName in foundDependencies {
        return {};
      }
      if typeName !in typeDefinitions {
        return {};
      }
      ghost var f0 := foundDependencies;
      foundDependencies := foundDependencies + {typeName};
      dependencies := {};
      var typeDef := typeDefinitions[typeName];
      var references := ExtractTypeReferences(typeDef);
      var todo := references;
      while todo != {}
        invariant todo <= references
        invariant f0 + {typeName} <= foundDependencies
        invariant SearchLoop(typeDefinitions, f0, typeName, foundDependencies, dependencies)
        invariant references - todo <= f0 + {typeName} + dependencies
        decreases |todo|
      {
        var ref :| ref in todo;
        todo := todo - {ref};
        if ref !in foundDependencies {
          ghost var mid := foundDependencies;
          ghost var d := dependencies;
          dependencies := dependencies + {ref};
          ShrinkingMeasure(typeDefinitions.Keys, f0, mid, typeName);
          var sub := FindDependencies(ref);
          dependencies := dependencies + sub;
          SearchDescend(typeDefinitions, f0, typeName, mid, d, ref, foundDependencies, sub);
        }
      }
      SearchDone(typeDefinitions, f0, typeName, foundDependencies, dependencies);
      SearchExact(typeDefinitions, f0, typeName, foundDependencies, dependencies);
    }

    /** The root loop of `create_output_file_from_types` (lines 160-168):
        clear the marks, then collect each root and its dependencies.  The
        union is the reference closure of the roots, so it depends only on
        the set of roots and not on their order; the marks left behind are
        the known names of that closure. */
    method CollectDependencies(typesList: seq<string>) returns (allDependencies: set<string>)
      requires Valid()
      modifies this`foundDependencies
      ensures Valid()
      ensures allDependencies == Reachable(typeDefinitions, set t | t in typesList)
      ensures foundDependencies == allDependencies * typeDefinitions.Keys
    {
      foundDependencies := {};
      allDependencies := {};
      ghost var roots := set t | t in typesList;
      for i := 0 to |typesList|
        invariant Valid()
        invariant foundDependencies <= allDependencies
        invariant allDependencies * typeDefinitions.Keys <= foundDependencies
        invariant forall t :: t in foundDependencies ==> Refs(typeDefinitions[t]) <= allDependencies
        invariant forall j :: 0 <= j < i ==> typesList[j] in allDependencies
        invariant forall x {:trigger ReachedFrom(typeDefinitions, roots, x)} ::
                    x in allDependencies ==> ReachedFrom(typeDefinitions, roots, x)
      {
        var typeName := typesList[i];
        ghost var marks := foundDependencies;
        var dependencies := FindDependencies(typeName);
        dependencies := dependencies + {typeName};
        allDependencies := allDependencies + dependencies;
        forall x | x in dependencies ensures ReachedFrom(typeDefinitions, roots, x) {
          if x == typeName {
            ReachesRefl(typeDefinitions, typeName);
          } else {
            AvoidingReaches(typeDefinitions, marks, typeName, x);
          }
          assert typeName in roots && Reaches(typeDefinitions, typeName, x);
        }
      }
      ReachableUnique(typeDefinitions, roots, allDependencies);
    }

    /** `get_type_definition_xml`: nothing for an unknown name; otherwise the
        serialized definition re-indented line by line, where `serialize`
        stands for `ET.tostring(elem, encoding='unicode')`. */
    method GetTypeDefinitionXml(typeName: string, serialize: Element -> string) returns (r: Option<string>)
      ensures typeName !in typeDefinitions ==> r == None
      ensures typeName in typeDefinitions ==> r == Some(FragmentText(serialize(typeDefinitions[typeName])))
    {
      if typeName !in typeDefinitions {
        return None;
      }
      var elem := typeDefinitions[typeName];
      var xmlStr := serialize(elem);
      xmlStr := BreakTags(xmlStr);
      var lines := Split(xmlStr, '\n');
      var indentedLines: seq<string> := [];
      for i := 0 to |lines|
        invariant indentedLines == Layout(lines[..i])
      {
        LayoutStep(lines, i);
        var line := lines[i];
        var stripped := Strip(line);
        if stripped == [] {
          continue;
        }
        var indentLevel := Level(line);
        var fullIndent := Indent(indentLevel);
        indentedLines := indentedLines + [fullIndent + stripped];
      }
      assert lines[..|lines|] == lines;
      return Some(Join(indentedLines, "\n"));
    }

    /** `_add_types_to_file`, with `content` the text of the output file and
        `root` its parsed tree: see `SpliceResult`. */
    method AddTypesToFile(content: string, root: Element, dependencies: set<string>, serialize: Element -> string)
      returns (r: Result<string, string>)
      ensures SpliceResult(typeDefinitions, serialize, content, root, dependencies, r)
    {
      var schemaElem := FindSchemaElement(root);
      if schemaElem.Err? {
        return Err(NoSchemaMessage);
      }
      var m := SearchSchemaClose(content);
      SearchSchemaCloseSpec(content);
      if m.None? {
        return Err(NoCloseMessage);
      }
      var names := SortedSet(dependencies);
      var typesXml: seq<string> := [];
      for i := 0 to |names|
        invariant typesXml == Kept(typeDefinitions, serialize, names[..i])
      {
        assert names[..i + 1][..i] == names[..i];
        var typeXml := GetTypeDefinitionXml(names[i], serialize);
        if typeXml.Some? && typeXml.value != [] {
          typesXml := typesXml + [typeXml.value];
        }
      }
      assert names[..|names|] == names;
      var insertPos := m.value.start;
      assert InsertionPoint(content, insertPos, WsEnd(content, insertPos));
      return Ok(content[..insertPos] + Join(typesXml, "\n") + "\n" + content[insertPos..]);
    }

    /** `create_output_file_from_types` for the roots `typesList`, with the
        base file's text and tree given: the fragments of the reference
        closure of the roots are spliced into it, and the known names of the
        closure are left marked. */
    method CreateOutputFromTypes(typesList: seq<string>, baseContent: string, baseRoot: Element, serialize: Element -> string)
      returns (r: Result<string, string>)
      requires Valid()
      modifies this`foundDependencies
      ensures Valid()
      ensures SpliceResult(typeDefinitions, serialize, baseContent, baseRoot, Reachable(typeDefinitions, set t | t in typesList), r)
      ensures foundDependencies == Reachable(typeDefinitions, set t | t in typesList) * typeDefinitions.Keys
    {
      var allDependencies := CollectDependencies(typesList);
      r := AddTypesToFile(baseContent, baseRoot, allDependencies, serialize);
    }
  }

  /** `TypeExtractor(...)` given the parsed metadata tree: an error when the
      tree has no schema element, otherwise an extractor over the first one
      with its type table built and no type marked. */
  method NewTypeExtractor(metadataRoot: Element) returns (r: Result<TypeExtractor, string>)
    ensures r.Err? <==> forall i :: 0 <= i < |Iter(metadataRoot)| ==> !IsSchemaTag(Iter(metadataRoot)[i].tag)
    ensures r.Err? ==> r.error == NoSchemaElementMessage
    ensures r.Ok? ==>
              && fresh(r.value) && r.value.Valid() && r.value.foundDependencies == {}
              && (exists i :: 0 <= i < |Iter(metadataRoot)| && Iter(metadataRoot)[i] == r.value.schema
                   && IsSchemaTag(r.value.schema.tag)
                   && forall j :: 0 <= j < i ==> !IsSchemaTag(Iter(metadataRoot)[j].tag))
              && IsCache(TypeNameOf, r.value.typeDefinitions, map[], Iter(r.value.schema), |Iter(r.value.schema)|)
  {
    var schema := FindSchemaElement(metadataRoot);
    if schema.Err? {
      return Err(schema.error);
    }
    var extractor := new TypeExtractor(schema.value);
    return Ok(extractor);
  }

  const NoSchemaMessage: string := "Could not find xsd:schema element in base.xml"
  const NoCloseMessage: string := "Could not find </xsd:schema> closing tag"

  /** The fragments of the names in order, skipping names missing from the
      table and empty fragments (`if type_xml:`). */
  function Kept(table: map<string, Element>, serialize: Element -> string, names: seq<string>): seq<string>
  {
    if names == [] then []
    else
      var n := names[|names| - 1];
      Kept(table, serialize, names[..|names| - 1])
      + (if n in table && FragmentText(serialize(table[n])) != [] then [FragmentText(serialize(table[n]))] else [])
  }

  lemma {:induction false} KeptConcat(table: map<string, Element>, serialize: Element -> string, a: seq<string>, b: seq<string>)
    ensures Kept(table, serialize, a + b) == Kept(table, serialize, a) + Kept(table, serialize, b)
    decreases |b|
  {
    if b == [] {
      assert a + b == a;
    } else {
      var b0 := b[..|b| - 1];
      assert (a + b)[..|a + b| - 1] == a + b0;
      KeptConcat(table, serialize, a, b0);
    }
  }

  /** A name missing from the table contributes nothing. */
  lemma UnknownSkipped(table: map<string, Element>, serialize: Element -> string, a: seq<string>, n: string, b: seq<string>)
    requires n !in table
    ensures Kept(table, serialize, a + [n] + b) == Kept(table, serialize, a + b)
  {
    KeptConcat(table, serialize, a + [n], b);
    KeptConcat(table, serialize, a, [n]);
    KeptConcat(table, serialize, a, b);
    assert Kept(table, serialize, [n]) == Kept(table, serialize, []) by { assert [n][..0] == []; }
  }

  /** Every kept fragment is that of a known name of the list. */
  lemma {:induction false} KeptKnown(table: map<string, Element>, serialize: Element -> string, names: seq<string>)
    ensures |Kept(table, serialize, names)| <= |names|
    ensures forall x :: x in Kept(table, serialize, names) ==>
              exists n :: n in names && n in table && x == FragmentText(serialize(table[n]))
  {
    if names != [] {
      var init := names[..|names| - 1];
      KeptKnown(table, serialize, init);
      forall x | x in Kept(table, serialize, names)
        ensures exists n :: n in names && n in table && x == FragmentText(serialize(table[n]))
      {
        if x in Kept(table, serialize, init) {
          var n :| n in init && n in table && x == FragmentText(serialize(table[n]));
          assert n in names;
        } else {
          assert names[|names| - 1] in names;
        }
      }
    }
  }

  /** What `_add_types_to_file` gives: an error when the tree has no schema
      element, another when the text has no `</xsd:schema>`; otherwise the
      text with the fragments of the known names, in sorted order, joined by
      line breaks and followed by one, inserted at the start of the
      whitespace run before the first `</xsd:schema>`. */
  ghost predicate SpliceResult(table: map<string, Element>, serialize: Element -> string, content: string,
                               root: Element, deps: set<string>, r: Result<string, string>)
  {
    var noSchema := forall i :: 0 <= i < |Iter(root)| ==> !IsSchemaTag(Iter(root)[i].tag);
    var noClose := forall q :: 0 <= q <= |content| ==> !LitAt(content, q, SchemaClose);
    && (noSchema ==> r == Err(NoSchemaMessage))
    && (!noSchema && noClose ==> r == Err(NoCloseMessage))
    && (!noSchema && !noClose ==>
          exists p: nat, q: nat :: InsertionPoint(content, p, q)
                         && r == Ok(content[..p] + Join(Kept(table, serialize, SortedSet(deps)), "\n") + "\n" + content[p..]))
  }

  /** The measure of the search shrinks once the entered name is marked. */
  lemma ShrinkingMeasure(keys: set<string>, f0: set<string>, mid: set<string>, n: string)
    requires n in keys && n !in f0 && f0 + {n} <= mid
    ensures |keys - mid| < |keys - f0|
  {
    var a, b := keys - mid, keys - f0;
    assert a <= b && n in b && n !in a;
    assert b == a + (b - a);
    assert n in b - a;
  }
}
