/** The text side of python-scripts/extract_types.py: the line-based
    re-indentation of a serialized type definition in
    `get_type_definition_xml`, and the search for the place before
    `</xsd:schema>` where `_add_types_to_file` inserts the fragments. */
module Fragments {
  import opened Chars
  import opened Strings
  import opened Wrappers
  import ClassDecl

  // ---------------------------------------------------------------------
  // `xml_str.replace('><', '>\n<')`

  /** Every `><` gets a line break between its two characters; the scan
      resumes after the pair, which cannot overlap itself. */
  function BreakTags(s: string): string
  {
    if |s| >= 2 && s[0] == '>' && s[1] == '<' then ">\n<" + BreakTags(s[2..])
    else if s == [] then []
    else [s[0]] + BreakTags(s[1..])
  }

  lemma BreakTagsFirst(s: string)
    requires s != []
    ensures BreakTags(s) != [] && BreakTags(s)[0] == s[0]
  {
  }

  /** No `><` is left. */
  lemma {:induction false} BreakTagsNoPair(s: string)
    ensures forall i :: 0 <= i < |BreakTags(s)| - 1 ==> !(BreakTags(s)[i] == '>' && BreakTags(s)[i + 1] == '<')
  {
    var r := BreakTags(s);
    if |s| >= 2 && s[0] == '>' && s[1] == '<' {
      BreakTagsNoPair(s[2..]);
      var rest := BreakTags(s[2..]);
      forall i | 0 <= i < |r| - 1 ensures !(r[i] == '>' && r[i + 1] == '<') {
        if i >= 3 { assert r[i] == rest[i - 3] && r[i + 1] == rest[i - 2]; }
        else if i == 2 { assert r[i] == '<'; }
      }
    } else if s != [] {
      BreakTagsNoPair(s[1..]);
      var rest := BreakTags(s[1..]);
      forall i | 0 <= i < |r| - 1 ensures !(r[i] == '>' && r[i + 1] == '<') {
        if i >= 1 {
          assert r[i] == rest[i - 1] && r[i + 1] == rest[i];
        } else if s[0] == '>' {
          BreakTagsFirst(s[1..]);
          assert r[1] == s[1];
        }
      }
    }
  }

  /** `s` with its line breaks taken out. */
  function NoBreaks(s: string): string
  {
    if s == [] then [] else (if s[0] == '\n' then [] else [s[0]]) + NoBreaks(s[1..])
  }

  lemma {:induction false} NoBreaksConcat(a: string, b: string)
    ensures NoBreaks(a + b) == NoBreaks(a) + NoBreaks(b)
  {
    if a == [] {
      assert a + b == b;
    } else {
      assert (a + b)[1..] == a[1..] + b;
      NoBreaksConcat(a[1..], b);
    }
  }

  /** The rewrite only inserts line breaks: without them it is the input. */
  lemma {:induction false} BreakTagsOnlyBreaks(s: string)
    ensures NoBreaks(BreakTags(s)) == NoBreaks(s)
  {
    if |s| >= 2 && s[0] == '>' && s[1] == '<' {
      BreakTagsOnlyBreaks(s[2..]);
      NoBreaksConcat(">\n<", BreakTags(s[2..]));
      assert s == "><" + s[2..];
      NoBreaksConcat("><", s[2..]);
    } else if s != [] {
      BreakTagsOnlyBreaks(s[1..]);
      NoBreaksConcat([s[0]], BreakTags(s[1..]));
      assert s == [s[0]] + s[1..];
      NoBreaksConcat([s[0]], s[1..]);
    }
  }

  // ---------------------------------------------------------------------
  // Indentation of one line

  predicate StartsWith(s: string, prefix: string) {
    |prefix| <= |s| && s[..|prefix|] == prefix
  }

  /** `s.endswith(suffix)` */
  predicate EndsWithText(s: string, suffix: string) {
    |suffix| <= |s| && s[|s| - |suffix|..] == suffix
  }

  /** The nesting level the heuristic gives a non-blank line: `<` minus
      `</` (minus one more for a closing tag, floored at zero). */
  function Level(line: string): nat
  {
    var t := Strip(line);
    var opens := CountChar(line, '<') - CountCloseOpen(line);
    if StartsWith(t, "</") then (if opens - 1 > 0 then opens - 1 else 0)
    else if StartsWith(t, "<") && !EndsWithText(t, "/>") && '>' !in t[1..] then opens
    else if opens > 0 then opens else 0
  }

  function Spaces(n: nat): (r: string)
    ensures |r| == n && AllSpace(r)
    ensures forall i :: 0 <= i < n ==> r[i] == ' '
  {
    if n == 0 then [] else [' '] + Spaces(n - 1)
  }

  /** `'    ' + '     ' * level` */
  function Indent(level: nat): string
  {
    "    " + Spaces(5 * level)
  }

  /** A line's output, or nothing for a blank line. */
  function IndentLine(line: string): Option<string>
  {
    var t := Strip(line);
    if t == [] then None else Some(Indent(Level(line)) + t)
  }

  /** The lines `get_type_definition_xml` keeps, in order. */
  function Layout(lines: seq<string>): seq<string>
  {
    if lines == [] then []
    else
      var last := lines[|lines| - 1];
      Layout(lines[..|lines| - 1]) + (match IndentLine(last) case Some(x) => [x] case None => [])
  }

  /** Laying out one more line appends its indented form, unless it is blank. */
  lemma LayoutStep(lines: seq<string>, i: nat)
    requires i < |lines|
    ensures Layout(lines[..i + 1]) == Layout(lines[..i]) + (if Strip(lines[i]) == [] then [] else [Indent(Level(lines[i])) + Strip(lines[i])])
  {
    assert lines[..i + 1][..i] == lines[..i];
    assert lines[..i + 1][i] == lines[i];
  }

  /** The non-blank lines among `lines`, in order. */
  function NonBlank(lines: seq<string>): seq<string>
  {
    if lines == [] then []
    else
      var last := lines[|lines| - 1];
      NonBlank(lines[..|lines| - 1]) + (if Strip(last) == [] then [] else [last])
  }

  /** The output holds one line per non-blank input line, in the same order:
      4 + 5·k spaces, with k that line's level, then the stripped line. */
  lemma {:induction false} LayoutShape(lines: seq<string>)
    ensures |Layout(lines)| == |NonBlank(lines)|
    ensures forall i :: 0 <= i < |Layout(lines)| ==>
              Layout(lines)[i] == Indent(Level(NonBlank(lines)[i])) + Strip(NonBlank(lines)[i])
              && Strip(NonBlank(lines)[i]) != []
  {
    if lines != [] {
      var init, last := lines[..|lines| - 1], lines[|lines| - 1];
      LayoutShape(init);
      if Strip(last) != [] {
        var l, nb := Layout(init), NonBlank(init);
        assert Layout(lines) == l + [Indent(Level(last)) + Strip(last)];
        assert NonBlank(lines) == nb + [last];
        forall i | 0 <= i < |Layout(lines)|
          ensures Layout(lines)[i] == Indent(Level(NonBlank(lines)[i])) + Strip(NonBlank(lines)[i])
          ensures Strip(NonBlank(lines)[i]) != []
        {
          if i < |l| {
            assert Layout(lines)[i] == l[i] && NonBlank(lines)[i] == nb[i];
          }
        }
      }
    }
  }

  /** The indentation is whitespace only: stripping an output line gives back
      the stripped input line. */
  lemma StripIndented(level: nat, t: string)
    requires t != [] && Strip(t) == t
    ensures Strip(Indent(level) + t) == t
    ensures WsEnd(Indent(level) + t, 0) == 4 + 5 * level
  {
    var x := Indent(level) + t;
    var n := 4 + 5 * level;
    assert |Indent(level)| == n;
    assert !IsSpace(t[0]) && !IsSpace(t[|t| - 1]);
    forall i | 0 <= i < n ensures IsSpace(x[i]) {
      if i < 4 { assert x[i] == ' '; } else { assert x[i] == Spaces(5 * level)[i - 4]; }
    }
    WsEndFrom(x, 0, n);
    assert x[|x| - 1] == t[|t| - 1];
    assert x[n..|x|] == t;
  }

  lemma {:induction false} WsEndFrom(s: string, i: nat, n: nat)
    requires i <= n < |s| && !IsSpace(s[n])
    requires forall k :: i <= k < n ==> IsSpace(s[k])
    ensures WsEnd(s, i) == n
    decreases n - i
  {
    if i < n {
      WsEndFrom(s, i + 1, n);
    }
  }

  /** A closing tag alone on its line gets no extra indentation. */
  lemma LoneClosingTag(line: string)
    requires StartsWith(Strip(line), "</") && CountChar(line, '<') == 1
    ensures Level(line) == 0
  {
  }

  /** The test for a lone opening tag makes no difference to the level: both
      of the last two branches give the count of `<` that do not start `</`. */
  lemma LevelOfNonClosing(line: string)
    requires !StartsWith(Strip(line), "</")
    ensures Level(line) == CountChar(line, '<') - CountCloseOpen(line)
  {
  }

  /** The whole fragment: the pieces between line breaks after the tag
      rewrite, re-indented, joined by line breaks. */
  function FragmentText(xml: string): string
  {
    Join(Layout(Split(BreakTags(xml), '\n')), "\n")
  }

  lemma IndentNoBreak(level: nat)
    ensures '\n' !in Indent(level)
  {
    var x := Indent(level);
    forall k | 0 <= k < |x| ensures x[k] != '\n' {
      if k >= 4 { assert x[k] == Spaces(5 * level)[k - 4]; }
    }
  }

  lemma StripNoBreak(line: string)
    requires '\n' !in line
    ensures '\n' !in Strip(line)
  {
    var t := Strip(line);
    StripIsSlice(line);
    var a, b :| 0 <= a <= b <= |line| && t == line[a..b];
    forall k | 0 <= k < |t| ensures t[k] != '\n' { assert t[k] == line[a + k]; }
  }

  /** A line without a line break is laid out without one. */
  lemma IndentLineNoBreak(line: string)
    requires '\n' !in line
    ensures IndentLine(line).Some? ==> '\n' !in IndentLine(line).value
  {
    var t := Strip(line);
    if t != [] {
      StripNoBreak(line);
      IndentNoBreak(Level(line));
      var x := Indent(Level(line));
      assert '\n' !in x + t;
    }
  }

  /** No output line holds a line break. */
  lemma {:induction false} LayoutNoBreak(lines: seq<string>)
    requires forall i :: 0 <= i < |lines| ==> '\n' !in lines[i]
    ensures forall i :: 0 <= i < |Layout(lines)| ==> '\n' !in Layout(lines)[i]
  {
    if lines != [] {
      var init := lines[..|lines| - 1];
      assert forall i :: 0 <= i < |init| ==> init[i] == lines[i];
      LayoutNoBreak(init);
      IndentLineNoBreak(lines[|lines| - 1]);
    }
  }

  /** Splitting the fragment at line breaks gives back exactly the laid-out
      lines (an empty fragment when every line was blank). */
  lemma FragmentLines(xml: string)
    ensures Layout(Split(BreakTags(xml), '\n')) == [] ==> FragmentText(xml) == []
    ensures Layout(Split(BreakTags(xml), '\n')) != [] ==>
              Split(FragmentText(xml), '\n') == Layout(Split(BreakTags(xml), '\n'))
  {
    var lines := Split(BreakTags(xml), '\n');
    LayoutNoBreak(lines);
    if Layout(lines) != [] {
      SplitJoin(Layout(lines), '\n');
    }
  }

  // ---------------------------------------------------------------------
  // `re.search(r'(\s*)</xsd:schema>', content)`

  const SchemaClose: string := "</xsd:schema>"

  function SchemaCloseAt(s: string, q: nat): Option<nat> {
    if LitAt(s, q, SchemaClose) then Some(q) else None
  }

  function SearchSchemaClose(s: string): Option<ClassDecl.Found> {
    ClassDecl.SearchFrom(s, (q: nat) => SchemaCloseAt(s, q), 0)
  }

  /** `p` is where the match starts: the beginning of the whitespace run
      that ends at `q`, the first `</xsd:schema>` of the text. */
  predicate InsertionPoint(s: string, p: nat, q: nat) {
    && p <= q <= |s|
    && AllSpace(s[p..q])
    && LitAt(s, q, SchemaClose)
    && (forall k :: 0 <= k < q ==> !LitAt(s, k, SchemaClose))
    && (p == 0 || !IsSpace(s[p - 1]))
  }

  /** There is a match exactly when the closing tag occurs, and then it
      starts at the whitespace run before its first occurrence. */
  lemma SearchSchemaCloseSpec(s: string)
    ensures SearchSchemaClose(s).None? <==> forall q :: 0 <= q <= |s| ==> !LitAt(s, q, SchemaClose)
    ensures SearchSchemaClose(s).Some? ==>
              InsertionPoint(s, SearchSchemaClose(s).value.start, WsEnd(s, SearchSchemaClose(s).value.start))
  {
    var core := (q: nat) => SchemaCloseAt(s, q);
    forall q | 0 <= q < |s| && IsSpace(s[q]) ensures core(q).None? {
      assert !LitAt(s, q, SchemaClose) by {
        if q + |SchemaClose| <= |s| { assert s[q..q + |SchemaClose|][0] == s[q]; }
      }
    }
    if SearchSchemaClose(s).None? {
      ClassDecl.SearchFromNone(s, core, 0);
      forall q | 0 <= q <= |s| ensures !LitAt(s, q, SchemaClose) {
        assert core(q).None?;
      }
    } else {
      var f := SearchSchemaClose(s).value;
      ClassDecl.SearchFromSome(s, core, 0, f);
      var j := WsEnd(s, f.start);
      assert core(j) == Some(f.brace);
      forall k | 0 <= k < j ensures !LitAt(s, k, SchemaClose) {
        assert core(k).None?;
      }
    }
  }
}
