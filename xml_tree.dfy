/** The parsed XML tree of `xml.etree.ElementTree`, as far as the type
    extractor looks at it: a tag (`{namespace}local` for a namespaced
    element), the attribute dictionary and the child elements.  Text and
    tails are not used. */
module XmlTree {
  import opened Wrappers

  datatype Element = Element(tag: string, attrib: map<string, string>, children: seq<Element>)

  /** `e.iter()`: the element and all its descendants in document order. */
  function Iter(e: Element): (xs: seq<Element>)
    ensures |xs| >= 1 && xs[0] == e
    decreases e, 1
  {
    [e] + IterSeq(e.children)
  }

  /** The `iter()` of a list of siblings, one after the other. */
  function IterSeq(cs: seq<Element>): seq<Element>
    decreases cs, 0
  {
    if cs == [] then [] else Iter(cs[0]) + IterSeq(cs[1..])
  }

  /** Iterating a list of siblings and then one more sibling. */
  lemma {:induction false} IterSeqSnoc(cs: seq<Element>, c: Element)
    ensures IterSeq(cs + [c]) == IterSeq(cs) + Iter(c)
  {
    if cs == [] {
      assert [c][1..] == [];
    } else {
      assert (cs + [c])[1..] == cs[1..] + [c];
      IterSeqSnoc(cs[1..], c);
    }
  }

  /** An element is visited by a sibling list exactly when it is visited by
      one of the siblings. */
  lemma {:induction false} IterSeqMember(cs: seq<Element>, x: Element)
    ensures x in IterSeq(cs) <==> exists i :: 0 <= i < |cs| && x in Iter(cs[i])
  {
    if cs != [] {
      IterSeqMember(cs[1..], x);
      if x in IterSeq(cs[1..]) {
        var i :| 0 <= i < |cs[1..]| && x in Iter(cs[1..][i]);
        assert x in Iter(cs[i + 1]);
      }
      if exists i :: 0 <= i < |cs| && x in Iter(cs[i]) {
        var i :| 0 <= i < |cs| && x in Iter(cs[i]);
        if i > 0 { assert cs[1..][i - 1] == cs[i]; }
      }
    }
  }

  /** `s.endswith(suffix)`, compared from the last character backwards. */
  predicate EndsWith(s: string, suffix: string)
    decreases |suffix|
  {
    |suffix| <= |s| && (suffix == [] || (s[|s| - 1] == suffix[|suffix| - 1] && EndsWith(s[..|s| - 1], suffix[..|suffix| - 1])))
  }

  /** ...which is: the last `|suffix|` characters of `s` are `suffix`. */
  lemma {:induction false} EndsWithSlice(s: string, suffix: string)
    ensures EndsWith(s, suffix) <==> |suffix| <= |s| && s[|s| - |suffix|..] == suffix
    decreases |suffix|
  {
    if suffix != [] && |suffix| <= |s| {
      var s1, t1 := s[..|s| - 1], suffix[..|suffix| - 1];
      EndsWithSlice(s1, t1);
      assert s[|s| - |suffix|..] == s1[|s1| - |t1|..] + [s[|s| - 1]];
      assert suffix == t1 + [suffix[|suffix| - 1]];
    }
  }

  /** `tag.endswith('}schema') or tag == 'schema'` */
  predicate IsSchemaTag(tag: string) {
    EndsWith(tag, "}schema") || tag == "schema"
  }

  /** The `ValueError` text of `_find_schema_element`. */
  const NoSchemaElementMessage: string := "Could not find xsd:schema element in metadata.xml"

  /** `_find_schema_element`: the first element, in document order, whose tag
      names a schema; an error when there is none. */
  method FindSchemaElement(root: Element) returns (r: Result<Element, string>)
    ensures r.Err? <==> forall i :: 0 <= i < |Iter(root)| ==> !IsSchemaTag(Iter(root)[i].tag)
    ensures r.Err? ==> r.error == NoSchemaElementMessage
    ensures r.Ok? ==> exists i :: 0 <= i < |Iter(root)| && Iter(root)[i] == r.value
                        && IsSchemaTag(r.value.tag)
                        && forall j :: 0 <= j < i ==> !IsSchemaTag(Iter(root)[j].tag)
  {
    var elems := Iter(root);
    for i := 0 to |elems|
      invariant forall j :: 0 <= j < i ==> !IsSchemaTag(elems[j].tag)
    {
      if IsSchemaTag(elems[i].tag) {
        assert 0 <= i < |Iter(root)| && IsSchemaTag(Iter(root)[i].tag);
        assert !(forall k :: 0 <= k < |Iter(root)| ==> !IsSchemaTag(Iter(root)[k].tag));
        return Ok(elems[i]);
      }
    }
    return Err(NoSchemaElementMessage);
  }
}
