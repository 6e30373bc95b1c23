# Apex metadata tooling: class removal, type extraction and test-class generation

This project models the three Python scripts that maintain a generated Apex
metadata client. It proves properties of each model.

- **`python-scripts/remove_metadata_core_classes.py`** works on an Apex class file.
  - It finds the span of a `public class Name { ... }` declaration by counting
    braces from its `{` and then running on to the end of that line.
  - It deletes the spans of several classes, taking them in descending order
    of start.
  - It lists the inner class names of a file.
  - It renames a class in three ordered regular-expression passes.
- **`python-scripts/extract_types.py`** works on an XML schema.
  - It reads the type definitions under the schema element into a table.
  - It follows `tns:` references depth-first, keeping a visited set that is
    shared across roots.
  - It re-indents the serialized XML of each definition.
  - It splices the definitions into a base file just before `</xsd:schema>`.
- **`python-scripts/generate_test_class.py`** works on an Apex class file.
  - It splits the class declarations into the main class and the inner classes.
  - It writes a test class that instantiates the main class, then the inner
    classes in sorted order, twenty per test method.

Both class-declaration regular expressions are written as scanners over ASCII
word characters and whitespace (module `ClassDecl`). Each `re.sub` pass is a
scan from left to right driven by a matcher function (module `Rename`). The
XML tree is a datatype `Element(tag, attrib, children)` (module `XmlTree`).
`TypeExtractor` is a class. Its fields `typeDefinitions` and
`foundDependencies` are updated in place by its methods. One search's result is
pinned down by `SearchResult`: the names reachable from the root along a path
that avoids the names marked before the call. The union over all roots is
proved equal to the reference closure `Reachable` (module `TypeGraph`).

Python's `str` ordering, `sorted()` of a set, `split`, `join`, `strip`,
`lower` and `str(n)` live in modules `Ordering` and `Strings`. `Wrappers`
holds `Option` and `Result`: a script's `sys.exit` or `raise` becomes an
`Err` carrying the message the script prints.

## Model

| member | source | states |
|---|---|---|
| Chars.WsEnd | python-scripts/remove_metadata_core_classes.py:66 | the greedy `\s*` run from `i` ends between `i` and the end of the text |
| Chars.WsEndSpec | python-scripts/remove_metadata_core_classes.py:66 | the run is all whitespace and maximal: it stops at the end of the text or at a non-whitespace character |
| Chars.WordEnd | python-scripts/remove_metadata_core_classes.py:199 | the run of `[A-Za-z0-9_]` from `i` ends between `i` and the end of the text |
| Chars.WordEndSpec | python-scripts/remove_metadata_core_classes.py:199 | that run is all word characters and maximal |
| Chars.WordEndCovers | python-scripts/remove_metadata_core_classes.py:199 | every character before the end of the run is a word character |
| Chars.WsEndInside | python-scripts/remove_metadata_core_classes.py:66 | a search that starts inside a whitespace run reaches the same run end |
| Strings.Split | python-scripts/extract_types.py:117 | `split('\n')` gives at least one piece, and no piece holds the separator |
| Strings.JoinSplit | python-scripts/extract_types.py:117 | joining the pieces of a split with the same separator gives back the text |
| Strings.SplitJoin | python-scripts/extract_types.py:141 | splitting a join of separator-free pieces gives back the pieces |
| Strings.Strip | python-scripts/extract_types.py:122 | `strip()` leaves no whitespace at either end |
| Strings.StripIsSlice | python-scripts/extract_types.py:122-124 | the stripped text is a slice with only whitespace around it, and it is empty exactly when the line is blank |
| Strings.Lower | python-scripts/generate_test_class.py:124 | `lower()` keeps the length and lowers each ASCII letter in place |
| Strings.CountCloseOpen | python-scripts/extract_types.py:129 | `count('</')` never exceeds `count('<')` |
| Strings.NatToString | python-scripts/generate_test_class.py:112 | `str(i)` is a non-empty run of digits |
| Strings.NatToStringInjective | python-scripts/generate_test_class.py:112 | different numbers give different decimal strings |
| Ordering.LessAsymmetric | python-scripts/generate_test_class.py:73 | string `<` is irreflexive and asymmetric |
| Ordering.LessTransitive | python-scripts/generate_test_class.py:73 | string `<` is transitive |
| Ordering.LessTotal | python-scripts/generate_test_class.py:73 | any two different strings are ordered one way or the other |
| Ordering.Least | python-scripts/generate_test_class.py:73 | a non-empty set has a least element under string `<` |
| Ordering.SortedSetSpec | python-scripts/generate_test_class.py:73 | `sorted(set)` is strictly increasing and lists exactly the set's elements, each once |
| Ordering.StrictlyIncreasingDistinct | python-scripts/extract_types.py:213 | a sorted list of a set repeats no element |
| XmlTree.Iter | python-scripts/extract_types.py:48 | `iter()` starts with the element itself |
| XmlTree.IterSeqMember | python-scripts/extract_types.py:72-73 | an element is visited under a list of children exactly when it is visited under one of them |
| XmlTree.EndsWithSlice | python-scripts/extract_types.py:49 | `endswith(suffix)` holds exactly when the last characters of the text are the suffix |
| XmlTree.FindSchemaElement | python-scripts/extract_types.py:46-51 | an error exactly when no element in document order has a tag `schema` or ending in `}schema`, with the source's message; otherwise the first such element |
| TypeGraph.RefsInConcat | python-scripts/extract_types.py:72-73 | the references of two runs of elements are the union of their references |
| TypeGraph.RefsMember | python-scripts/extract_types.py:61-75 | `r` is referred to exactly when some attribute value `tns:r`, under any attribute name, is on the element or a descendant |
| TypeGraph.Refs | python-scripts/extract_types.py:61-75 | definition: the names after `tns:` in any attribute value of every element of the subtree |
| TypeGraph.ReachesStep | python-scripts/extract_types.py:96-99 | following a reference of a known type extends reachability |
| TypeGraph.ReachableMember | python-scripts/extract_types.py:160-167 | a name is in the closure exactly when it is reachable from a root |
| TypeGraph.ClosedPath | python-scripts/extract_types.py:96-99 | a set closed under references holds the end of every path that starts in it |
| TypeGraph.AvoidingReaches | python-scripts/extract_types.py:96-99 | a path that avoids the marks is a path of the reference graph |
| TypeGraph.ReachesAvoidingEdge | python-scripts/extract_types.py:96-99 | a reference to an unmarked name is a path that avoids the marks |
| TypeGraph.ReachesAvoidingStep | python-scripts/extract_types.py:96-99 | an edge to an unmarked name followed by a path avoiding a larger set of marks is a path avoiding the marks |
| TypeGraph.ReachableLeast | python-scripts/extract_types.py:160-167 | the closure lies inside every closed set that holds the roots |
| TypeGraph.ReachableClosed | python-scripts/extract_types.py:160-167 | the closure holds the roots and is closed, so it is a fixed point of adding references |
| TypeGraph.ReachableUnique | python-scripts/extract_types.py:160-167 | a closed set of roots and names reachable from them is the closure |
| TypeGraph.Reachable | python-scripts/extract_types.py:160-167 | definition: the names reachable from some root, the roots included |
| TypeExtraction.CacheStep | python-scripts/extract_types.py:55-59 | one element of the cache loop keeps the table description: names entered so far, the last element under each name, other entries kept |
| TypeExtraction.IsCache | python-scripts/extract_types.py:53-59 | definition: what the cache loop leaves after the first `n` elements: the names of the start table and the names entered, each entered name mapping to the last element entered under it |
| TypeExtraction.TypeExtractor.constructor | python-scripts/extract_types.py:19-37 | no type is marked, and the table holds exactly the non-empty `name`s of the type definitions under the schema, each mapped to its last definition |
| TypeExtraction.TypeExtractor.BuildTypeCache | python-scripts/extract_types.py:53-59 | the table holds the old names and every non-empty name of a `}complexType` or `}simpleType` element; a later duplicate replaces an earlier one |
| TypeExtraction.TypeExtractor.ExtractTypeReferences | python-scripts/extract_types.py:61-75 | the result is exactly the `tns:` references of the element and its descendants |
| TypeExtraction.TypeExtractor.FindDependencies | python-scripts/extract_types.py:77-101 | a marked or unknown name gives nothing and marks nothing; otherwise the name is marked along with the known names of the result; the result never holds the name or an earlier mark; it is exactly the names other than the name and the earlier marks that the name reaches along a path through no earlier mark (`SearchResult`); the marks stay within the table, so the search terminates on `|keys - found|` |
| TypeExtraction.MissingRefReported | python-scripts/extract_types.py:95-99 | a name missing from the table, reached from the name at any depth along a path through no earlier mark, is in the result; a name marked by an earlier root never is |
| TypeExtraction.SearchResult | python-scripts/extract_types.py:77-101 | definition: nothing for a marked or unknown name, otherwise the names reachable along paths avoiding the earlier marks |
| TypeExtraction.SearchExact | python-scripts/extract_types.py:77-101 | the state a finished search leaves fixes its result: it is exactly `SearchResult` |
| TypeExtraction.AvoidingPathInside | python-scripts/extract_types.py:93-99 | every node of a path from the name that avoids earlier marks is the name or in the result, since every marked name had all its references visited |
| TypeExtraction.ShrinkingMeasure | python-scripts/extract_types.py:86 | marking the entered name shrinks the unmarked part of the table |
| TypeExtraction.SearchDescend | python-scripts/extract_types.py:96-99 | descending into an unmarked reference keeps the loop state of the search |
| TypeExtraction.SearchDone | python-scripts/extract_types.py:101 | after all references have been seen, the call's guarantee holds |
| TypeExtraction.TypeExtractor.CollectDependencies | python-scripts/extract_types.py:160-167 | after clearing the marks, the union over the roots is the reference closure of the set of roots, and it does not depend on their order; the marks left are exactly the known names of that closure |
| TypeExtraction.NewTypeExtractor | python-scripts/extract_types.py:26-37 | an error, with the `ValueError` message of `_find_schema_element`, exactly when the tree has no schema element; otherwise an extractor over the first one, with its table built |
| TypeExtraction.TypeExtractor.GetTypeDefinitionXml | python-scripts/extract_types.py:103-141 | `None` for an unknown name; otherwise the re-indented fragment of that definition's serialization |
| TypeExtraction.TypeExtractor.AddTypesToFile | python-scripts/extract_types.py:184-224 | an error without a schema element, another without `</xsd:schema>`; otherwise the text with the non-empty fragments of the known names, in sorted order and joined by line breaks, inserted at the start of the whitespace run before the first `</xsd:schema>` |
| TypeExtraction.TypeExtractor.CreateOutputFromTypes | python-scripts/extract_types.py:160-175 | the base file comes out spliced with the fragments of the reference closure of the roots, and the marks left are exactly the known names of that closure |
| TypeExtraction.KeptConcat | python-scripts/extract_types.py:213-216 | the kept fragments of two runs of names are those of each run, one after the other |
| TypeExtraction.UnknownSkipped | python-scripts/extract_types.py:214-216 | a name missing from the table contributes no fragment |
| TypeExtraction.KeptKnown | python-scripts/extract_types.py:213-216 | every kept fragment is that of a known name of the list, and there are no more fragments than names |
| TypeExtraction.Kept | python-scripts/extract_types.py:212-216 | definition: the non-empty fragments of the known names, in the order of the names |
| Fragments.BreakTagsFirst | python-scripts/extract_types.py:114 | the rewrite keeps the first character |
| Fragments.BreakTagsNoPair | python-scripts/extract_types.py:114 | after `replace('><', '>\n<')` no `><` is left |
| Fragments.BreakTagsOnlyBreaks | python-scripts/extract_types.py:114 | the rewrite only inserts line breaks: with them taken out it is the input |
| Fragments.BreakTags | python-scripts/extract_types.py:114 | definition: every `><` is split by a line break |
| Fragments.Spaces | python-scripts/extract_types.py:138 | `n` spaces |
| Fragments.LayoutStep | python-scripts/extract_types.py:121-139 | one more line appends its indented, stripped form, unless it is blank |
| Fragments.LayoutShape | python-scripts/extract_types.py:121-139 | one output line per non-blank input line, in order, each made of 4 spaces, 5 times the line's level in spaces, and the stripped line |
| Fragments.Layout | python-scripts/extract_types.py:121-139 | definition: blank lines dropped, each other line stripped and indented by its level |
| Fragments.StripIndented | python-scripts/extract_types.py:138-139 | the indentation is whitespace only: stripping an output line gives back the piece, and its indent is `4 + 5*level` long |
| Fragments.LoneClosingTag | python-scripts/extract_types.py:127-129 | a closing tag alone on its line gets level 0 |
| Fragments.LevelOfNonClosing | python-scripts/extract_types.py:130-135 | for a line that is not a closing tag, both remaining branches give `count('<') - count('</')` |
| Fragments.Level | python-scripts/extract_types.py:127-135 | definition: the nesting level of a line: `<` minus `</`, one less for a closing tag, never below zero |
| Fragments.LayoutNoBreak | python-scripts/extract_types.py:117-139 | no output line holds a line break |
| Fragments.FragmentLines | python-scripts/extract_types.py:141 | splitting the fragment at line breaks gives back exactly the laid-out lines, and an empty layout gives an empty fragment |
| Fragments.FragmentText | python-scripts/extract_types.py:114-141 | definition: the fragment text of a serialized definition: break tags, lay out the lines, join them |
| Fragments.SearchSchemaCloseSpec | python-scripts/extract_types.py:205-219 | no match exactly when the text has no `</xsd:schema>`; otherwise the match starts at the whitespace run before the first one |
| ClassDecl.KeywordsAt | python-scripts/remove_metadata_core_classes.py:31 | `public\s+class\s+` matches only at a `public`, and ends inside the text at a non-empty whitespace run |
| ClassDecl.KeywordsNotAtSpace | python-scripts/remove_metadata_core_classes.py:66 | nothing matches at a whitespace character |
| ClassDecl.LineDeclAt | python-scripts/remove_metadata_core_classes.py:31 | a match of the line-anchored pattern starts at a line start and has a non-empty name inside the match |
| ClassDecl.ScanFrom | python-scripts/remove_metadata_core_classes.py:33 | every reported match lies inside the text after the starting point |
| ClassDecl.ScanSound | python-scripts/remove_metadata_core_classes.py:33 | every reported match is a genuine match at its start, and the matches are disjoint and in order |
| ClassDecl.ScanComplete | python-scripts/remove_metadata_core_classes.py:33 | every position where the pattern matches is covered by a reported match |
| ClassDecl.ScanFirst | python-scripts/remove_metadata_core_classes.py:33 | nothing matches before the first reported match |
| ClassDecl.DeclMatches | python-scripts/generate_test_class.py:31 | every match has its name inside the text |
| ClassDecl.DeclMatchesSpec | python-scripts/generate_test_class.py:29-31 | `finditer` reports genuine, disjoint, ordered declarations, and misses none |
| ClassDecl.NameBraceFrom | python-scripts/remove_metadata_core_classes.py:66 | a match of `\s+NAME\s*\{` ends at a `{` inside the text |
| ClassDecl.NamedDeclAt | python-scripts/remove_metadata_core_classes.py:66 | `public class NAME {` matches only at a `public`, and its `{` lies beyond the keywords |
| ClassDecl.SearchFrom | python-scripts/remove_metadata_core_classes.py:68 | a reported start lies between the search start and the end of the text |
| ClassDecl.SearchFromNone | python-scripts/remove_metadata_core_classes.py:66-68 | a search that finds nothing means CORE matches at no position from the search start on |
| ClassDecl.SearchFromSome | python-scripts/remove_metadata_core_classes.py:66-68 | a search that finds a match reports the first CORE match at or after the search start, with the whole whitespace run before it |
| ClassDecl.SearchFromSpec | python-scripts/remove_metadata_core_classes.py:66-68 | `re.search` for `(\s*)CORE` fails exactly when CORE matches nowhere; otherwise it starts at the whitespace run before the first CORE match |
| ClassDecl.SearchNamedDeclNone | python-scripts/remove_metadata_core_classes.py:66-70 | no match exactly when the text has no `public class NAME {` |
| ClassDecl.SearchNamedDeclSome | python-scripts/remove_metadata_core_classes.py:66-77 | a match starts at the whitespace run before the first declaration, preceded by a non-whitespace character or nothing, and reports that declaration's `{` |
| ClassDecl.SearchNamedDeclBrace | python-scripts/remove_metadata_core_classes.py:77 | the reported `{` lies inside the text |
| ClassRemoval.DepthSnoc | python-scripts/remove_metadata_core_classes.py:80-84 | one more character changes the brace depth by its own `{` or `}` |
| ClassRemoval.CloseUnique | python-scripts/remove_metadata_core_classes.py:85 | at most one `}` brings the depth back to 0 first |
| ClassRemoval.CloseExists | python-scripts/remove_metadata_core_classes.py:79-88 | once the depth counted from `{` reaches 0 or below, a closing `}` exists |
| ClassRemoval.CloseBalanced | python-scripts/remove_metadata_core_classes.py:76-88 | the text from `{` to the closing `}` is balanced: as many `{` as `}`, and no proper non-empty prefix has depth 0 |
| ClassRemoval.LineBreakAtSpec | python-scripts/remove_metadata_core_classes.py:91-92 | the rest of the line holds no `\r` or `\n` and stops at one or at the end of the text |
| ClassRemoval.LineEndSpec | python-scripts/remove_metadata_core_classes.py:90-98 | the span runs on through the rest of the line, then at most one `\r`, then at most one `\n` |
| ClassRemoval.SkipToLineEnd | python-scripts/remove_metadata_core_classes.py:90-98 | the two scans after the close brace stop at the end of its line, as `LineEnd` describes |
| ClassRemoval.FindClassBoundaries | python-scripts/remove_metadata_core_classes.py:54-103 | the scanner returns the span `Boundaries` describes, and `(-1, -1)` when there is none |
| ClassRemoval.BoundariesAtClose | python-scripts/remove_metadata_core_classes.py:85-100 | once the close brace is known, the span runs from the match start to the end of that brace's line |
| ClassRemoval.BoundariesNeverClosed | python-scripts/remove_metadata_core_classes.py:79-103 | braces that never return to depth 0 give no span |
| ClassRemoval.BoundariesNone | python-scripts/remove_metadata_core_classes.py:66-70 | no span exactly when there is no declaration, or when the braces after its `{` never return to depth 0 |
| ClassRemoval.BoundariesFound | python-scripts/remove_metadata_core_classes.py:66-100 | a span starts at the match start, with `start < { < } < end <= len`, balanced braces between `{` and `}`, and the end at the end of the `}` line |
| ClassRemoval.Boundaries | python-scripts/remove_metadata_core_classes.py:54-103 | definition: the span of the first declaration, from the whitespace run before it through the balancing close brace to the end of that line; nothing when there is no declaration or its braces never close |
| ClassRemoval.PlanSpec | python-scripts/remove_metadata_core_classes.py:120-126 | each planned entry is the span of a requested name, and every requested name with a span is planned |
| ClassRemoval.Plan | python-scripts/remove_metadata_core_classes.py:120-126 | definition: one entry per requested name whose span is found, in the order visited |
| ClassRemoval.Insert | python-scripts/remove_metadata_core_classes.py:129 | an insertion step adds exactly one entry |
| ClassRemoval.InsertDescending | python-scripts/remove_metadata_core_classes.py:129 | inserting into a list in descending order of start keeps it in that order |
| ClassRemoval.SortByStartDesc | python-scripts/remove_metadata_core_classes.py:129 | sorting gives a permutation in descending order of start |
| ClassRemoval.Cut | python-scripts/remove_metadata_core_classes.py:136 | definition: the text with `[start, end)` taken out |
| ClassRemoval.ApplyRemovals | python-scripts/remove_metadata_core_classes.py:135-137 | definition: the spans cut one after another, in the order given |
| ClassRemoval.RemoveClassesFromContent | python-scripts/remove_metadata_core_classes.py:106-139 | for distinct names, as the source's set argument gives, the result is the original with the sorted spans deleted one after another, and the removed names are the sorted entries' names |
| ClassRemoval.KeptUncovered | python-scripts/remove_metadata_core_classes.py:136 | uncovered characters are kept in order |
| ClassRemoval.KeptCovered | python-scripts/remove_metadata_core_classes.py:136 | covered characters are dropped |
| ClassRemoval.RemovalsAppend | python-scripts/remove_metadata_core_classes.py:135-136 | deleting spans of a prefix leaves what follows the prefix alone |
| ClassRemoval.FirstSpanCoverage | python-scripts/remove_metadata_core_classes.py:135-136 | the first span, which starts last, is the only one covering positions from its start on |
| ClassRemoval.RemovalsKeep | python-scripts/remove_metadata_core_classes.py:129-137 | deleting separated spans in descending order of start deletes exactly the covered characters and keeps all others in order |
| ClassRemoval.RemovalsLength | python-scripts/remove_metadata_core_classes.py:135-137 | the result is shorter by exactly the total span length |
| ClassRemoval.DisjointSeparated | python-scripts/remove_metadata_core_classes.py:129 | disjoint spans in descending order of start are separated |
| ClassRemoval.RemoveDisjoint | python-scripts/remove_metadata_core_classes.py:129-137 | for disjoint found spans, the result is the original with exactly those spans deleted, and its length is the original's minus their total length |
| ClassRemoval.SortedPlanSpec | python-scripts/remove_metadata_core_classes.py:120-129 | every entry of the sorted plan is the span of a requested name |
| ClassRemoval.RemovedNames | python-scripts/remove_metadata_core_classes.py:120-137 | `removed_classes` holds exactly the requested names whose span is found |
| ClassRemoval.RemovedOrder | python-scripts/remove_metadata_core_classes.py:129-137 | `removed_classes` is in descending order of span start |
| ClassRemoval.NothingFound | python-scripts/remove_metadata_core_classes.py:120-137 | when no requested name is found, the content is untouched and nothing is removed |
| ClassRemoval.FoundNames | python-scripts/remove_metadata_core_classes.py:120-123 | definition: the requested names whose span is found, in their order |
| ClassRemoval.PlanFound | python-scripts/remove_metadata_core_classes.py:120-137 | names that are not found do not matter: the plan, the modified content and the removed list equal those of the found names alone, and the found names are exactly the requested names with a span |
| ClassRemoval.ExtractClassNames | python-scripts/remove_metadata_core_classes.py:31-41 | the result is the set of names of all declaration matches except the first |
| Rename.SubSkip | python-scripts/remove_metadata_core_classes.py:190-209 | where nothing matches, `re.sub` copies the text |
| Rename.SubAtMatch | python-scripts/remove_metadata_core_classes.py:190-209 | at a match, `re.sub` emits the replacement and goes on after the match |
| Rename.RenameDeclaration | python-scripts/remove_metadata_core_classes.py:190-195 | definition: pass 1 as a scan, matching `^public class OLD\s*\{` at line starts |
| Rename.RenameDeclarationFirst | python-scripts/remove_metadata_core_classes.py:190-195 | the first line-initial `public class OLD ... {` becomes `public class NEW {`, and the text before it is kept |
| Rename.DeclRewriteHere | python-scripts/remove_metadata_core_classes.py:191-192 | a declaration head matches through its `{` and is replaced by `public class NEW {` |
| Rename.RenameDeclarationNone | python-scripts/remove_metadata_core_classes.py:190-195 | without such a line the first pass changes nothing |
| Rename.QualifiedNext | python-scripts/remove_metadata_core_classes.py:199 | each token of the second pass makes progress |
| Rename.InsideRun | python-scripts/remove_metadata_core_classes.py:199 | there is no `\b` inside a run of word characters |
| Rename.NoMatchInsideWord | python-scripts/remove_metadata_core_classes.py:198-202 | a word run that is not part of a match is copied whole |
| Rename.QualifiedStep | python-scripts/remove_metadata_core_classes.py:198-202 | one token of the second pass: the scan emits that token's piece and goes on at the next token |
| Rename.RenameQualifiedWords | python-scripts/remove_metadata_core_classes.py:198-202 | the second pass equals its token-by-token reading |
| Rename.RenameQualified | python-scripts/remove_metadata_core_classes.py:198-202 | definition: pass 2 as a scan, matching `\bOLD\.` and an identifier |
| Rename.WordRunIsName | python-scripts/remove_metadata_core_classes.py:199 | OLD at `p` followed by a non-word character: the word run from `p` ends right after OLD |
| Rename.QualifiedRewrittenAt | python-scripts/remove_metadata_core_classes.py:198-202 | in the token-by-token reading from position `p`, `OLD.Ident` at `p` followed by a non-word character becomes `NEW.Ident` and the reading resumes after the identifier |
| Rename.QualifiedRewritten | python-scripts/remove_metadata_core_classes.py:198-202 | the same, read from the start of `OLD` in `x + OLD.Ident + y` where `y` does not start with a word character |
| Rename.QualifiedWordsPrefix | python-scripts/remove_metadata_core_classes.py:198-202 | a stretch that ends at a non-word character and holds no whole-word OLD is copied unchanged by pass 2 read token by token |
| Rename.QualifiedWordsLeft | python-scripts/remove_metadata_core_classes.py:198-202 | a leading part that ends with a non-word character, or is empty, and holds no whole-word OLD is copied unchanged |
| Rename.RenameQualifiedRewrites | python-scripts/remove_metadata_core_classes.py:198-202 | on the whole text `x + OLD.Ident + y`, where `x` ends with a non-word character or is empty, holds no whole-word OLD, and `y` does not start with a word character, pass 2 copies `x`, writes `NEW.Ident` and goes on after the identifier |
| Rename.WordNext | python-scripts/remove_metadata_core_classes.py:206 | each token of the third pass makes progress |
| Rename.RunIsWholeWord | python-scripts/remove_metadata_core_classes.py:206 | a maximal word run that spells OLD is a whole-word occurrence |
| Rename.WholeWordIsRun | python-scripts/remove_metadata_core_classes.py:206 | a whole-word occurrence at the start of a maximal word run is that run |
| Rename.WordStep | python-scripts/remove_metadata_core_classes.py:205-209 | one token of the third pass: the scan emits that token's piece and goes on at the next token |
| Rename.RenameWholeWordsWords | python-scripts/remove_metadata_core_classes.py:205-209 | the third pass equals its token-by-token reading, in which each maximal identifier equal to OLD, and only such an identifier, becomes NEW, so `OldX` and `Old_X` are untouched |
| Rename.RenameWholeWords | python-scripts/remove_metadata_core_classes.py:205-209 | definition: pass 3 as a scan, matching `\bOLD\b` |
| Rename.WholeWordInLeft | python-scripts/remove_metadata_core_classes.py:206 | an occurrence that ends in the left part is an occurrence of the left part |
| Rename.WholeWordInRight | python-scripts/remove_metadata_core_classes.py:206 | an occurrence that starts in the right part is an occurrence of the right part |
| Rename.NoWholeWordAcross | python-scripts/remove_metadata_core_classes.py:206 | no whole-word occurrence straddles a point with a non-word character next to it |
| Rename.ConcatNoWholeWord | python-scripts/remove_metadata_core_classes.py:206 | at such a point, two texts without a whole-word OLD make one without it |
| Rename.RunNoWholeWord | python-scripts/remove_metadata_core_classes.py:206 | a word run other than OLD holds no whole-word OLD |
| Rename.WordPieceClean | python-scripts/remove_metadata_core_classes.py:205-209 | no piece of the third pass holds a whole-word OLD, provided NEW holds none |
| Rename.WholeWordsGone | python-scripts/remove_metadata_core_classes.py:205-209 | after the third pass no whole-word OLD is left, provided NEW holds none |
| Rename.WholeWordsIdentity | python-scripts/remove_metadata_core_classes.py:205-209 | text without a whole-word OLD passes through the third pass unchanged |
| Rename.QualifiedWordsIdentity | python-scripts/remove_metadata_core_classes.py:198-202 | text without a whole-word OLD passes through the second pass unchanged |
| Rename.ReplaceClassReferences | python-scripts/remove_metadata_core_classes.py:177-211 | definition: the three passes in order |
| Rename.NoOldWordLeft | python-scripts/remove_metadata_core_classes.py:177-211 | after `replace_class_references` no whole-word OLD remains, provided NEW holds none |
| Rename.DeclHeadIsWholeWord | python-scripts/remove_metadata_core_classes.py:191 | the name in a declaration head is a whole-word occurrence |
| Rename.ReplaceIdentity | python-scripts/remove_metadata_core_classes.py:177-211 | text without a whole-word OLD, such as one with only `OldX` or `Old_X`, comes back unchanged |
| TestClassGen.FirstMatchLeftmost | python-scripts/generate_test_class.py:38 | the first match is the leftmost position where the pattern matches |
| TestClassGen.ExtractAllClassNames | python-scripts/generate_test_class.py:14-55 | an error saying no classes were found exactly when no declaration matches; otherwise the main class is the name of the leftmost declaration, and the inner set is the names of all later matches |
| TestClassGen.ChunksFromSpec | python-scripts/generate_test_class.py:77-78 | the chunks from a start concatenate to the rest of the list, and their number and sizes are right |
| TestClassGen.ChunksSpec | python-scripts/generate_test_class.py:73-78 | the chunks concatenate to the sorted names; each holds 1 to 20 names, all but the last exactly 20; there are `ceil(n/20)` of them |
| TestClassGen.Chunks | python-scripts/generate_test_class.py:77-78 | definition: consecutive slices of twenty, the last one shorter |
| TestClassGen.MethodNamesDistinct | python-scripts/generate_test_class.py:111-112 | different chunk numbers give different method names |
| TestClassGen.MethodNameNotMain | python-scripts/generate_test_class.py:99 | no chunk method is named `testMainClass` |
| TestClassGen.MethodName | python-scripts/generate_test_class.py:112 | definition: `coverGeneratedCodeTypes` for the first chunk, with the index appended from the second on |
| TestClassGen.ChunkMethods | python-scripts/generate_test_class.py:111-130 | one method per chunk |
| TestClassGen.AppendInstantiations | python-scripts/generate_test_class.py:123-125 | the inner loop appends the two lines of every class of the chunk, in order |
| TestClassGen.AppendChunkMethod | python-scripts/generate_test_class.py:112-130 | one pass of the outer loop appends the rendered method of that chunk |
| TestClassGen.AppendChunkMethods | python-scripts/generate_test_class.py:111-130 | the outer loop appends the methods of all chunks, numbered from 1 |
| TestClassGen.GenerateTestClassContent | python-scripts/generate_test_class.py:58-134 | the text built piece by piece is the header, the optional setup block, the main-class test, the chunk methods and the closing brace |
| TestClassGen.RenderAllTestMethods | python-scripts/generate_test_class.py:97-130 | the methods are `testMainClass`, then the chunk methods |
| TestClassGen.ChunkMethodNames | python-scripts/generate_test_class.py:111-112 | chunk `k` is named `MethodName(k)`, and the names are all different and differ from `testMainClass` |
| TestClassGen.TestMethodNames | python-scripts/generate_test_class.py:97-112 | `testMainClass` comes first, then `coverGeneratedCodeTypes`, `coverGeneratedCodeTypes2`, and so on; all names differ; there are `(n+19)//20 + 1` of them, the count reported at line 205 |
| TestClassGen.ChunkMethodBodies | python-scripts/generate_test_class.py:102-125 | the main test instantiates the main class, and method `k` holds the instantiation lines of chunk `k` |
| TestClassGen.InstantiationOrder | python-scripts/generate_test_class.py:73-78 | taken chunk by chunk, the instantiation lines are those of the sorted inner classes, so each class gets its lines exactly once, in increasing order of name |
| TestClassGen.TestClassFrame | python-scripts/generate_test_class.py:80-84 | the text starts with `//Generated test class for MAIN`, declares `public class TEST {` after the annotation line, and ends with `}\n` |
| TestClassGen.TestClassSetup | python-scripts/generate_test_class.py:86-94 | with `include_setup` the `@TestSetup` block comes right after the header, and the rest is the text generated without it |
| TestClassGen.TestClassText | python-scripts/generate_test_class.py:80-132 | definition: the header, the optional setup block, the test methods and the closing brace |

## Left out

- File I/O is not modelled: `open`, `read`, `write`, `shutil.copy2`, `os.makedirs` and `os.path.exists`. The operations take the file text, and the parsed tree where one is used, as inputs.
- `argparse`, `print` logging and traceback handling are not modelled. `sys.exit` and `raise` become `Err` results carrying the message text.
- The file path in an error message is not modelled. For example, `Error: No classes found in {file_path}` becomes `No classes found`.
- `ET.parse` is not modelled: the tree is given as an `Element`.
- `ET.tostring` is a function parameter `serialize`, so nothing is claimed about its output.
- `clean_formatting` (`python-scripts/remove_metadata_core_classes.py:142-174`) is not modelled. Its result depends on details of Python's regular-expression engine: lazy matching with DOTALL, and chained substitutions whose matches overlap.
- Nested spans are not modelled. When a requested class lies inside another requested class, deleting in descending order of start corrupts the outer span. The source makes no promise for that case, so `RemoveDisjoint` takes disjointness as a precondition.
- `get_types_list`, the hard-coded paths and the summary counts of the `main` functions are not modelled. The count formula at `generate_test_class.py:205` is covered by `TestClassGen.TestMethodNames`.
- The iteration order of a Python `set` is an input, not modelled.
  - `remove_classes_from_content` takes the requested names as a sequence.
  - The loops over attribute values and references pick elements by `:|`.
  - The union over all roots does not depend on the order of `types_list`. One search's result does: it is fixed by the marks the earlier roots left (`SearchResult`), but not by the order in which a set is iterated.
- The new class name is copied literally by all three passes. `re.sub` also reads its replacement as a template: backslash escapes and group references such as `\g<0>` are expanded, and a bad escape raises an error. That processing is not modelled, so every proved fact about the passes holds for a new name without a backslash.
- Rename.RenameDeclarationFirst: holds for a new name without a backslash; template processing of the replacement is not modelled.
- Rename.RenameWholeWordsWords: holds for a new name without a backslash; template processing of the replacement is not modelled.
- Rename.WholeWordsGone: holds for a new name without a backslash; template processing of the replacement is not modelled.
- Rename.NoOldWordLeft: holds for a new name without a backslash; template processing of the replacement is not modelled.
- Rename.ReplaceIdentity: holds for a new name without a backslash; template processing of the replacement is not modelled.
- Rename.RenameQualifiedRewrites: holds for a new name without a backslash; template processing of the replacement is not modelled.
- `\s` is Python's whitespace set. `\w`, `\b` and `str.lower()` cover ASCII only. Non-ASCII identifier characters are not modelled.
- `TestClassGen.TestMethodNames`: "`testMainClass` occurs exactly once" is proved as "its method name is distinct from every other method name", not as a count of occurrences in the text. Per-character facts about the long template literals are out of reach.
- `TestClassGen.TestClassSetup`: "`@TestSetup` appears if and only if `include_setup` is set" is stated structurally. With the flag, the block sits right after the header and the rest is the text without the flag. The absence of `@TestSetup` in the other template literals is not proved.
- The `--classes-per-method` option is parsed but never passed on. The chunk size is the constant `ClassesPerMethod = 20`, as in the source.
- The default test class name and the output file name are not modelled.
