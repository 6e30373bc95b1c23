/** The test-class generator of python-scripts/generate_test_class.py: it
    reads the class declarations of an Apex file and writes a test class that
    instantiates the main class and, twenty at a time, every inner class. */
module TestClassGen {
  import opened Wrappers
  import opened Strings
  import opened Ordering
  import opened ClassDecl
  import opened Chars

  // ---------------------------------------------------------------------
  // extract_all_class_names

  /** The main class of a file and the set of its inner classes. */
  datatype ClassNames = ClassNames(main: string, inner: set<string>)

  /** The script prints this (with the file name) and exits. */
  const NoClassesMessage: string := "No classes found"

  /** The first match of `re.finditer` is the leftmost position where the
      declaration pattern matches at all. */
  lemma FirstMatchLeftmost(s: string)
    requires DeclMatches(s) != []
    ensures forall q :: 0 <= q < DeclMatches(s)[0].start ==> LineDeclAt(s, q).None?
  {
    forall q | 0 <= q < DeclMatches(s)[0].start ensures LineDeclAt(s, q).None? {
      ScanFirst(s, LineDecl, 0, q);
    }
  }

  /** `extract_all_class_names` on the text of the file: an error when no
      declaration matches; otherwise the name of the leftmost declaration
      and the set of names of all later matches. */
  method ExtractAllClassNames(content: string) returns (r: Result<ClassNames, string>)
    ensures r.Err? <==> forall q :: 0 <= q <= |content| ==> LineDeclAt(content, q).None?
    ensures r.Err? ==> r.error == NoClassesMessage
    ensures r.Ok? ==> exists p :: 0 <= p <= |content| && LineDeclAt(content, p).Some?
                        && r.value.main == MatchName(content, LineDeclAt(content, p).value)
                        && forall q :: 0 <= q < p ==> LineDeclAt(content, q).None?
    ensures r.Ok? ==> r.value.inner == InnerNames(content, DeclMatches(content))
  {
    var matches := DeclMatches(content);
    DeclMatchesSpec(content);
    if |matches| == 0 {
      return Err(NoClassesMessage);
    }
    FirstMatchLeftmost(content);
    var mainClassName := MatchName(content, matches[0]);
    var innerClasses: set<string> := {};
    InnerUpToEnds(content, matches);
    for i := 1 to |matches|
      invariant innerClasses == InnerUpTo(content, matches, i)
    {
      InnerUpToStep(content, matches, i);
      innerClasses := innerClasses + {MatchName(content, matches[i])};
    }
    assert LineDeclAt(content, matches[0].start) == Some(matches[0]);
    return Ok(ClassNames(mainClassName, innerClasses));
  }

  // ---------------------------------------------------------------------
  // Chunking

  /** Fixed at 20 in the script; the `--classes-per-method` option is never
      passed on. */
  const ClassesPerMethod: nat := 20

  function Min(a: nat, b: nat): nat { if a <= b then a else b }

  /** `[xs[i:i + 20] for i in range(start, len(xs), 20)]` */
  function ChunksFrom(xs: seq<string>, start: nat): seq<seq<string>>
    decreases |xs| - start
  {
    if start >= |xs| then []
    else [xs[start..Min(start + ClassesPerMethod, |xs|)]] + ChunksFrom(xs, start + ClassesPerMethod)
  }

  function Chunks(xs: seq<string>): seq<seq<string>> {
    ChunksFrom(xs, 0)
  }

  /** The chunks one after the other. */
  function Flatten(css: seq<seq<string>>): seq<string> {
    if css == [] then [] else css[0] + Flatten(css[1..])
  }

  lemma {:induction false} ChunksFromSpec(xs: seq<string>, start: nat)
    requires start <= |xs|
    ensures Flatten(ChunksFrom(xs, start)) == xs[start..]
    ensures |ChunksFrom(xs, start)| == (|xs| - start + ClassesPerMethod - 1) / ClassesPerMethod
    ensures forall k :: 0 <= k < |ChunksFrom(xs, start)| ==>
              1 <= |ChunksFrom(xs, start)[k]| <= ClassesPerMethod
              && (k < |ChunksFrom(xs, start)| - 1 ==> |ChunksFrom(xs, start)[k]| == ClassesPerMethod)
    decreases |xs| - start
  {
    if start < |xs| {
      var e := Min(start + ClassesPerMethod, |xs|);
      var rest := ChunksFrom(xs, e);
      if e < |xs| {
        ChunksFromSpec(xs, e);
        assert ChunksFrom(xs, start) == [xs[start..e]] + rest;
        assert xs[start..] == xs[start..e] + xs[e..];
        forall k | 1 <= k < |ChunksFrom(xs, start)| ensures ChunksFrom(xs, start)[k] == rest[k - 1] {}
      } else {
        assert ChunksFrom(xs, start + ClassesPerMethod) == [];
        assert ChunksFrom(xs, start) == [xs[start..e]];
        assert Flatten([xs[start..e]]) == xs[start..e] + Flatten([]);
      }
    }
  }

  /** The chunks of a list, concatenated, are the list; each holds one to
      twenty names and all but the last exactly twenty; there are
      `ceil(n / 20)` of them. */
  lemma ChunksSpec(xs: seq<string>)
    ensures Flatten(Chunks(xs)) == xs
    ensures |Chunks(xs)| == (|xs| + 19) / 20
    ensures forall k :: 0 <= k < |Chunks(xs)| ==>
              1 <= |Chunks(xs)[k]| <= 20 && (k < |Chunks(xs)| - 1 ==> |Chunks(xs)[k]| == 20)
  {
    ChunksFromSpec(xs, 0);
    assert xs[0..] == xs;
  }

  // ---------------------------------------------------------------------
  // Method names

  const CoverPrefix: string := "coverGeneratedCodeTypes"
  const MainTestName: string := "testMainClass"

  /** The name of the test method of chunk `i`, counting from 1. */
  function MethodName(i: nat): string {
    if i > 1 then CoverPrefix + NatToString(i) else CoverPrefix
  }

  /** Different chunks get different method names. */
  lemma MethodNamesDistinct(i: nat, j: nat)
    requires 1 <= i && 1 <= j && i != j
    ensures MethodName(i) != MethodName(j)
  {
    if i > 1 && j > 1 {
      if MethodName(i) == MethodName(j) {
        assert MethodName(i)[|CoverPrefix|..] == NatToString(i);
        assert MethodName(j)[|CoverPrefix|..] == NatToString(j);
        NatToStringInjective(i, j);
      }
    } else {
      assert |MethodName(i)| != |MethodName(j)|;
    }
  }

  /** No chunk method is called like the main-class test. */
  lemma MethodNameNotMain(i: nat)
    ensures MethodName(i) != MainTestName
  {
    assert MethodName(i)[0] == 'c';
    assert MainTestName[0] == 't';
  }

  // ---------------------------------------------------------------------
  // Concatenating generated pieces

  /** The pieces `f(x)` for the elements `x` of `xs`, one after the other. */
  function ConcatMap<T>(f: T -> string, xs: seq<T>): string {
    if xs == [] then [] else ConcatMap(f, xs[..|xs| - 1]) + f(xs[|xs| - 1])
  }

  lemma ConcatMapSnoc<T>(f: T -> string, xs: seq<T>, i: nat)
    requires i < |xs|
    ensures ConcatMap(f, xs[..i + 1]) == ConcatMap(f, xs[..i]) + f(xs[i])
  {
    assert xs[..i + 1][..i] == xs[..i];
  }

  lemma {:induction false} ConcatMapConcat<T>(f: T -> string, a: seq<T>, b: seq<T>)
    ensures ConcatMap(f, a + b) == ConcatMap(f, a) + ConcatMap(f, b)
    decreases |b|
  {
    if b == [] {
      assert a + b == a;
    } else {
      assert (a + b)[..|a + b| - 1] == a + b[..|b| - 1];
      ConcatMapConcat(f, a, b[..|b| - 1]);
    }
  }

  /** Appending the piece of one more element to a text that ends with the
      pieces of the elements before it. */
  lemma ConcatMapStep<T>(prefix: string, before: string, after: string, f: T -> string, xs: seq<T>, i: nat)
    requires i < |xs|
    requires before == prefix + ConcatMap(f, xs[..i])
    requires after == before + f(xs[i])
    ensures after == prefix + ConcatMap(f, xs[..i + 1])
  {
    ConcatMapSnoc(f, xs, i);
    assert prefix + ConcatMap(f, xs[..i]) + f(xs[i]) == prefix + (ConcatMap(f, xs[..i]) + f(xs[i]));
  }

  /** The pieces of a list of lists, one list after the other. */
  function FlatConcatMap(f: string -> string, xss: seq<seq<string>>): string {
    if xss == [] then [] else ConcatMap(f, xss[0]) + FlatConcatMap(f, xss[1..])
  }

  lemma {:induction false} FlatConcatMapFlatten(f: string -> string, xss: seq<seq<string>>)
    ensures FlatConcatMap(f, xss) == ConcatMap(f, Flatten(xss))
  {
    if xss != [] {
      FlatConcatMapFlatten(f, xss[1..]);
      ConcatMapConcat(f, xss[0], Flatten(xss[1..]));
    }
  }

  /** Where the parts of a four-part text lie. */
  lemma Parts(a: string, b: string, c: string, d: string)
    ensures (a + b + c + d)[..|a|] == a
    ensures (a + b + c + d)[|a|..|a| + |b|] == b
    ensures (a + b + c + d)[|a|..] == b + c + d
    ensures (a + b + c + d)[|a + b + c|..] == d
  {
    assert a + b + c + d == a + (b + c + d);
    assert a + b + c + d == (a + b + c) + d;
  }

  /** Regrouping appended text, stated once for any strings. */
  lemma AppendRegroup(a: string, b: string, c: string, d: string, e: string)
    ensures a + b + c + d + e == a + (b + (c + d) + e)
  {
    assert a + b + c + d + e == a + (b + c + d + e);
  }

  lemma AppendEmpty(a: string)
    ensures a + [] == a
  {
  }

  lemma AppendEmptyLeft(a: string)
    ensures [] + a == a
  {
  }

  // ---------------------------------------------------------------------
  // The generated text

  /** One generated `@IsTest` method: its name and the statements between
      `Test.startTest();` and `Test.stopTest();`. */
  datatype TestMethod = TestMethod(name: string, body: string)

  const OpenStart: string := "\n    @IsTest\n    private static void "
  const OpenEnd: string := "() {\n        Test.startTest();\n\n"

  function MethodOpen(name: string): string {
    OpenStart + name + OpenEnd
  }

  const MethodClose: string := "\n        Test.stopTest();\n    }\n"

  function Render(m: TestMethod): string {
    MethodOpen(m.name) + m.body + MethodClose
  }

  /** The methods one after the other. */
  function RenderAll(ms: seq<TestMethod>): string {
    ConcatMap(Render, ms)
  }

  const MainIntro: string := "        // Test main class instantiation\n        "
  const MainNew: string := " mainInstance = new "
  const MainAssert: string := "();\n        System.assertNotEquals(null, mainInstance, 'Main class should be instantiated');\n"

  function MainTestBody(mainClass: string): string {
    MainIntro + mainClass + MainNew + mainClass + MainAssert
  }

  /** `Main.C cInstance = new Main.C();` for inner class `C`. */
  const LineIndent: string := "        "
  const InstanceNew: string := "Instance = new "
  const CallEnd: string := "();\n"
  const AssertStart: string := "        System.assertNotEquals(null, "
  const AssertMiddle: string := "Instance, '"
  const AssertEnd: string := " should be instantiated');\n"

  function NewLine(mainClass: string, c: string): string {
    LineIndent + mainClass + "." + c + " " + Lower(c) + InstanceNew + mainClass + "." + c + CallEnd
  }

  function AssertLine(c: string): string {
    AssertStart + Lower(c) + AssertMiddle + c + AssertEnd
  }

  /** The two lines written for inner class `c`. */
  function ClassLines(mainClass: string): string -> string {
    (c: string) => NewLine(mainClass, c) + AssertLine(c)
  }

  /** The two lines of every class of `cs`, in the order of `cs`. */
  function Instantiations(mainClass: string, cs: seq<string>): string {
    ConcatMap(ClassLines(mainClass), cs)
  }

  const ChunkIntro: string := "        // Test inner class instantiations\n"

  /** The chunk methods, numbered from 1. */
  function ChunkMethods(mainClass: string, chunks: seq<seq<string>>): (ms: seq<TestMethod>)
    ensures |ms| == |chunks|
  {
    seq(|chunks|, k requires 0 <= k < |chunks| => TestMethod(MethodName(k + 1), ChunkIntro + Instantiations(mainClass, chunks[k])))
  }

  /** Every test method of the class, in order. */
  function TestMethods(mainClass: string, innerClasses: set<string>): seq<TestMethod> {
    [TestMethod(MainTestName, MainTestBody(mainClass))] + ChunkMethods(mainClass, Chunks(SortedSet(innerClasses)))
  }

  const CommentStart: string := "//Generated test class for "
  const ClassAnnotation: string := "\n@IsTest\n"
  const ClassStart: string := "public class "
  const ClassOpen: string := " {\n"

  function FirstLine(mainClass: string): string {
    CommentStart + mainClass + "\n"
  }

  function ClassLine(testClass: string): string {
    ClassStart + testClass + ClassOpen
  }

  function Header(mainClass: string, testClass: string): string {
    FirstLine(mainClass) + ClassAnnotation + ClassLine(testClass)
  }

  const SetupBlock: string :=
    "\n    @TestSetup\n    static void setupTestData() {\n        // Add any test data setup here if needed\n        // Use TestDataFactory methods for creating test records\n    }\n"

  const ClassEnd: string := "}\n"

  /** The whole file that `generate_test_class_content` returns. */
  function TestClassText(mainClass: string, innerClasses: set<string>, testClass: string, includeSetup: bool): string {
    Header(mainClass, testClass) + (if includeSetup then SetupBlock else []) + RenderAll(TestMethods(mainClass, innerClasses)) + ClassEnd
  }

  /** The inner loop of `generate_test_class_content`: the two lines of
      every class of the chunk, appended to `content`. */
  method AppendInstantiations(content: string, mainClass: string, chunk: seq<string>) returns (r: string)
    ensures r == content + Instantiations(mainClass, chunk)
  {
    r := content;
    for j := 0 to |chunk|
      invariant r == content + Instantiations(mainClass, chunk[..j])
    {
      ghost var before := r;
      r := r + NewLine(mainClass, chunk[j]);
      r := r + AssertLine(chunk[j]);
      AppendAssoc(before, NewLine(mainClass, chunk[j]), AssertLine(chunk[j]));
      ConcatMapStep(content, before, r, ClassLines(mainClass), chunk, j);
    }
    assert chunk[..|chunk|] == chunk;
  }

  /** One pass of the outer loop of `generate_test_class_content`: the
      method of chunk number `index`. */
  method AppendChunkMethod(content: string, mainClass: string, index: nat, chunk: seq<string>) returns (r: string)
    ensures r == content + Render(TestMethod(MethodName(index), ChunkIntro + Instantiations(mainClass, chunk)))
  {
    var name := MethodName(index);
    r := content + MethodOpen(name) + ChunkIntro;
    r := AppendInstantiations(r, mainClass, chunk);
    r := r + MethodClose;
    AppendRegroup(content, MethodOpen(name), ChunkIntro, Instantiations(mainClass, chunk), MethodClose);
  }

  /** The outer loop of `generate_test_class_content`: the methods of all
      chunks, numbered from 1, appended to `content`. */
  method AppendChunkMethods(content: string, mainClass: string, classChunks: seq<seq<string>>) returns (r: string)
    ensures r == content + RenderAll(ChunkMethods(mainClass, classChunks))
  {
    ghost var methods := ChunkMethods(mainClass, classChunks);
    r := content;
    AppendEmpty(content);
    for i := 0 to |classChunks|
      invariant r == content + RenderAll(methods[..i])
    {
      ghost var before := r;
      r := AppendChunkMethod(r, mainClass, i + 1, classChunks[i]);
      assert methods[i] == TestMethod(MethodName(i + 1), ChunkIntro + Instantiations(mainClass, classChunks[i]));
      ConcatMapStep(content, before, r, Render, methods, i);
    }
    assert methods[..|classChunks|] == methods;
  }

  /** `generate_test_class_content`, building the text piece by piece. */
  method GenerateTestClassContent(mainClass: string, innerClasses: set<string>, testClass: string, includeSetup: bool)
    returns (content: string)
    ensures content == TestClassText(mainClass, innerClasses, testClass, includeSetup)
  {
    var sortedClasses := SortedSet(innerClasses);
    var classChunks := Chunks(sortedClasses);
    content := Header(mainClass, testClass);
    if includeSetup {
      content := content + SetupBlock;
    }
    ghost var prefix := content;
    AppendEmpty(Header(mainClass, testClass));
    assert prefix == Header(mainClass, testClass) + (if includeSetup then SetupBlock else []);
    ghost var mainTest := TestMethod(MainTestName, MainTestBody(mainClass));
    content := content + MethodOpen(MainTestName) + MainTestBody(mainClass) + MethodClose;
    AppendAssoc4(prefix, MethodOpen(MainTestName), MainTestBody(mainClass), MethodClose);
    assert content == prefix + Render(mainTest);
    content := AppendChunkMethods(content, mainClass, classChunks);
    RenderAllTestMethods(mainClass, innerClasses);
    AppendAssoc(prefix, Render(mainTest), RenderAll(ChunkMethods(mainClass, classChunks)));
    content := content + ClassEnd;
  }

  /** The rendering of all test methods: `testMainClass`, then the chunks. */
  lemma RenderAllTestMethods(mainClass: string, innerClasses: set<string>)
    ensures RenderAll(TestMethods(mainClass, innerClasses))
            == Render(TestMethod(MainTestName, MainTestBody(mainClass))) + RenderAll(ChunkMethods(mainClass, Chunks(SortedSet(innerClasses))))
  {
    var first := [TestMethod(MainTestName, MainTestBody(mainClass))];
    ConcatMapConcat(Render, first, ChunkMethods(mainClass, Chunks(SortedSet(innerClasses))));
    assert first[..0] == [];
    assert ConcatMap(Render, first) == ConcatMap(Render, []) + Render(first[0]);
    AppendEmptyLeft(Render(first[0]));
  }

  // ---------------------------------------------------------------------
  // What the generated class contains

  lemma ChunkMethodName(mainClass: string, chunks: seq<seq<string>>, k: nat)
    requires k < |chunks|
    ensures ChunkMethods(mainClass, chunks)[k].name == MethodName(k + 1)
  {
  }

  /** The chunk methods are named after their numbers, all differently,
      and none like the main-class test. */
  lemma ChunkMethodNames(mainClass: string, chunks: seq<seq<string>>)
    ensures forall k :: 0 <= k < |chunks| ==> ChunkMethods(mainClass, chunks)[k].name == MethodName(k + 1)
    ensures forall k, l :: 0 <= k < l < |chunks| ==> ChunkMethods(mainClass, chunks)[k].name != ChunkMethods(mainClass, chunks)[l].name
    ensures forall k :: 0 <= k < |chunks| ==> ChunkMethods(mainClass, chunks)[k].name != MainTestName
  {
    var ms := ChunkMethods(mainClass, chunks);
    forall k | 0 <= k < |chunks| ensures ms[k].name == MethodName(k + 1) {
      ChunkMethodName(mainClass, chunks, k);
    }
    forall k, l | 0 <= k < l < |chunks| ensures ms[k].name != ms[l].name {
      MethodNamesDistinct(k + 1, l + 1);
    }
    forall k | 0 <= k < |chunks| ensures ms[k].name != MainTestName {
      MethodNameNotMain(k + 1);
    }
  }

  /** The test methods: `testMainClass` first, then one method per chunk
      named `coverGeneratedCodeTypes`, `coverGeneratedCodeTypes2`, ...; all
      names differ, so `testMainClass` is declared exactly once; and there
      are `(n + 19) // 20 + 1` of them, the count the script reports. */
  lemma TestMethodNames(mainClass: string, innerClasses: set<string>)
    ensures var ms := TestMethods(mainClass, innerClasses);
            && |ms| == (|innerClasses| + 19) / 20 + 1
            && ms[0].name == MainTestName
            && (forall k :: 1 <= k < |ms| ==> ms[k].name == MethodName(k))
            && (forall k, l :: 0 <= k < l < |ms| ==> ms[k].name != ms[l].name)
  {
    var xs := SortedSet(innerClasses);
    var chunks := Chunks(xs);
    var cm := ChunkMethods(mainClass, chunks);
    assert |xs| == |innerClasses| by { SortedSetSpec(innerClasses); }
    assert |chunks| == (|xs| + 19) / 20 by { ChunksSpec(xs); }
    ChunkMethodNames(mainClass, chunks);
    MethodListNames(TestMethod(MainTestName, MainTestBody(mainClass)), cm);
  }

  /** The main test followed by chunk methods named in order has the names
      in order, all different. */
  lemma MethodListNames(m0: TestMethod, cm: seq<TestMethod>)
    requires m0.name == MainTestName
    requires forall k :: 0 <= k < |cm| ==> cm[k].name == MethodName(k + 1)
    requires forall k, l :: 0 <= k < l < |cm| ==> cm[k].name != cm[l].name
    requires forall k :: 0 <= k < |cm| ==> cm[k].name != MainTestName
    ensures var ms := [m0] + cm;
            && (forall k :: 1 <= k < |ms| ==> ms[k].name == MethodName(k))
            && (forall k, l :: 0 <= k < l < |ms| ==> ms[k].name != ms[l].name)
  {
    var ms := [m0] + cm;
    forall k | 1 <= k < |ms| ensures ms[k].name == MethodName(k) {
      assert ms[k] == cm[k - 1];
    }
    forall k, l | 0 <= k < l < |ms| ensures ms[k].name != ms[l].name {
      assert ms[l] == cm[l - 1];
      if k > 0 {
        assert ms[k] == cm[k - 1];
      }
    }
  }

  /** The instantiation lines of a run of chunks, one chunk after the other. */
  function ChunkedInstantiations(mainClass: string, chunks: seq<seq<string>>): string {
    FlatConcatMap(ClassLines(mainClass), chunks)
  }

  /** After `testMainClass`, method `k` holds the instantiation lines of
      chunk `k`. */
  lemma ChunkMethodBodies(mainClass: string, innerClasses: set<string>)
    ensures var ms := TestMethods(mainClass, innerClasses);
            && ms[0].body == MainTestBody(mainClass)
            && forall k :: 1 <= k < |ms| ==>
                 ms[k].body == ChunkIntro + Instantiations(mainClass, Chunks(SortedSet(innerClasses))[k - 1])
  {
    var ms := TestMethods(mainClass, innerClasses);
    var chunks := Chunks(SortedSet(innerClasses));
    forall k | 1 <= k < |ms|
      ensures ms[k].body == ChunkIntro + Instantiations(mainClass, chunks[k - 1])
    {
      assert ms[k] == ChunkMethods(mainClass, chunks)[k - 1];
    }
  }

  /** Taken chunk by chunk, the instantiation lines of the chunk methods are
      those of the sorted inner classes: every inner class gets its two
      lines exactly once, in increasing order of name. */
  lemma InstantiationOrder(mainClass: string, innerClasses: set<string>)
    ensures var chunks := Chunks(SortedSet(innerClasses));
            ChunkedInstantiations(mainClass, chunks) == Instantiations(mainClass, SortedSet(innerClasses))
    ensures StrictlyIncreasing(SortedSet(innerClasses))
    ensures forall c :: c in SortedSet(innerClasses) <==> c in innerClasses
  {
    var xs := SortedSet(innerClasses);
    ChunksSpec(xs);
    FlatConcatMapFlatten(ClassLines(mainClass), Chunks(xs));
    SortedSetSpec(innerClasses);
  }

  /** Where the pieces of a generated file lie, for any pieces. */
  lemma FrameParts(text: string, h1: string, h2: string, h3: string, s: string, r: string, e: string)
    requires text == h1 + h2 + h3 + s + r + e
    ensures LitAt(text, 0, h1)
    ensures LitAt(text, |h1| + |h2|, h3)
    ensures LitAt(text, |text| - |e|, e)
  {
    assert text == h1 + (h2 + h3 + s + r + e);
    assert text == h1 + h2 + (h3 + (s + r + e));
    assert text == (h1 + h2 + h3 + s + r) + e;
  }

  /** The file starts with the comment line naming the main class,
      declares the test class right after it and ends with the closing
      brace. */
  lemma TestClassFrame(mainClass: string, innerClasses: set<string>, testClass: string, includeSetup: bool)
    ensures var text := TestClassText(mainClass, innerClasses, testClass, includeSetup);
            && LitAt(text, 0, FirstLine(mainClass))
            && LitAt(text, |FirstLine(mainClass)| + |ClassAnnotation|, ClassLine(testClass))
            && LitAt(text, |text| - |ClassEnd|, ClassEnd)
  {
    var setup := if includeSetup then SetupBlock else [];
    var body := RenderAll(TestMethods(mainClass, innerClasses));
    FrameParts(TestClassText(mainClass, innerClasses, testClass, includeSetup),
               FirstLine(mainClass), ClassAnnotation, ClassLine(testClass), setup, body, ClassEnd);
  }

  /** Inserting a block after a header, for any pieces. */
  lemma SpliceParts(h: string, s: string, r: string, e: string)
    ensures LitAt(h + s + r + e, |h|, s)
    ensures h + s + r + e == h + s + (h + [] + r + e)[|h|..]
  {
    assert h + s + r + e == h + (s + r + e);
    assert h + [] + r + e == h + (r + e);
    assert (h + (r + e))[|h|..] == r + e;
    assert h + s + r + e == h + s + (r + e);
  }

  /** With `include_setup` the `@TestSetup` block comes right after the
      header, and the rest is the file generated without it. */
  lemma TestClassSetup(mainClass: string, innerClasses: set<string>, testClass: string)
    ensures var text := TestClassText(mainClass, innerClasses, testClass, true);
            var h := Header(mainClass, testClass);
            && LitAt(text, |h|, SetupBlock)
            && text == h + SetupBlock + TestClassText(mainClass, innerClasses, testClass, false)[|h|..]
  {
    SpliceParts(Header(mainClass, testClass), SetupBlock, RenderAll(TestMethods(mainClass, innerClasses)), ClassEnd);
  }
}
