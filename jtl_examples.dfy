/** The documents of the unit tests in `src/lib.rs`, and what `parse` and `parse_env`
    give for them. */
module JtlExamples {
  import opened Text
  import opened Bindings
  import opened JtlCommon
  import opened JtlElement
  import opened JtlDocument
  import opened JtlDocumentFacts
  import opened JtlEnv
  import AttrScan

  const FooLine := ">>>foo=bar;"
  const ElementAttrs := "element_id key=\"value\""
  const ElementId := "element_id"
  const ElementContent := EnvRefPrefix + "foo"
  /** `>element_id key="value">element_id>$env:foo` */
  const ElementDecl := ">" + ElementAttrs + ">" + ElementId + ">" + ElementContent
  const ElementLine := ElementDecl + ";"

  /** The sample document of the tests. */
  const SampleText := Doctype + "\n" + (EnvMarker + "\n" + (FooLine + "\n" + (BeginMarker + "\n"
    + (ElementLine + "\n" + EndMarker))))
  const SampleLines := [Doctype, EnvMarker, FooLine, BeginMarker, ElementLine, EndMarker]

  /** The sample's element record under an environment binding `foo` to `bar`. */
  const SampleRecord := MakeRecord([Binding("key", "value")], "element_id", "bar")

  // ---------------------------------------------------------------------------
  // The sample, line by line.

  /** A line of the sample text: no line feed, and no `\r` at its end. */
  predicate PlainLine(a: string) {
    a != [] && '\n' !in a && a[|a| - 1] != '\r'
  }

  lemma SampleLinesPlain()
    ensures PlainLine(Doctype) && PlainLine(EnvMarker) && PlainLine(FooLine)
    ensures PlainLine(BeginMarker) && PlainLine(EndMarker)
  {
  }

  lemma ElementLinePlain()
    ensures PlainLine(ElementLine)
  {
  }

  /** Plain lines joined by line feeds are read back as those lines. */
  lemma {:induction false} LinesOfJoined(ls: seq<string>)
    requires |ls| >= 1 && forall k :: 0 <= k < |ls| ==> PlainLine(ls[k])
    ensures Lines(Join(ls, '\n')) == ls
    decreases |ls|
  {
    if |ls| == 1 {
      LinesOne(ls[0]);
    } else {
      LinesOfJoined(ls[1..]);
      assert Join(ls, '\n') == ls[0] + "\n" + Join(ls[1..], '\n');
      LinesCons(ls[0], Join(ls[1..], '\n'));
    }
  }

  lemma SampleTextJoined()
    ensures SampleText == Join(SampleLines, '\n')
  {
    var ls := SampleLines;
    assert Join(ls[5..], '\n') == EndMarker;
    assert Join(ls[4..], '\n') == ElementLine + "\n" + EndMarker;
    assert Join(ls[3..], '\n') == BeginMarker + "\n" + Join(ls[4..], '\n');
    assert Join(ls[2..], '\n') == FooLine + "\n" + Join(ls[3..], '\n');
    assert Join(ls[1..], '\n') == EnvMarker + "\n" + Join(ls[2..], '\n');
    assert Join(ls, '\n') == Doctype + "\n" + Join(ls[1..], '\n');
  }

  lemma SampleTextLines()
    ensures Lines(SampleText) == SampleLines
  {
    SampleLinesPlain();
    ElementLinePlain();
    SampleTextJoined();
    LinesOfJoined(SampleLines);
  }

  lemma SampleHasDoctype()
    ensures HasDoctype(SampleLines)
  {
    assert StartsWith(SampleLines[0][0..], Doctype);
  }

  lemma TrimFooBar()
    ensures Trim("foo") == "foo" && Trim("bar") == "bar"
  {
  }

  /** `foo=bar` binds `foo` to `bar`. */
  lemma FooBinding()
    ensures EnvBinding("foo=bar") == Some(Binding("foo", "bar"))
  {
    assert "foo=bar" == "foo" + "=" + "bar";
    EnvBindingSplitsAtFirstEquals("foo", "bar");
    TrimFooBar();
  }

  lemma FooLineTrim()
    ensures Trim(FooLine) == FooLine
  {
  }

  lemma FooLineSplit()
    ensures Split(FooLine, ';') == [">>>foo=bar", ""]
  {
    assert FooLine == ">>>foo=bar" + [';'] + "";
    SplitAt(">>>foo=bar", ';', "");
    SplitNone("", ';');
  }

  lemma FooDecl()
    ensures var d := Trim(">>>foo=bar");
      d == ">>>foo=bar" && d != [] && !StartsWith(d, LineComment)
      && StartsWith(d, EnvDeclPrefix) && d[3..] == "foo=bar"
  {
    assert ">>>foo=bar"[1] == '>';
  }

  // ---------------------------------------------------------------------------
  // parse_env on the sample.

  lemma EnvLineDoctype(env: Env)
    ensures EnvLine(false, env, Doctype) == Some((false, env))
  {
    assert Trim(Doctype) == Doctype;
  }

  lemma EnvLineMarker(env: Env)
    ensures EnvLine(false, env, EnvMarker) == Some((true, env))
  {
    assert Trim(EnvMarker) == EnvMarker;
    assert EnvMarker[0] == '>' && EnvMarker[1] == '>';
  }

  lemma FooLineKind()
    ensures !IsSkipped(FooLine) && FooLine != EnvMarker && FooLine != BeginMarker && FooLine != EndMarker
    ensures StartsWith(FooLine, EnvDeclPrefix)
  {
    assert FooLine[1] == '>' && FooLine[3] == 'f';
  }

  /** A binding declaration followed by the empty piece after its `;`. */
  lemma EnvDeclsBindingThenEmpty(env: Env, d: string, b: Binding)
    requires Trim(d) == d && StartsWith(d, EnvDeclPrefix) && EnvBinding(d[3..]) == Some(b)
    ensures EnvDecls(env, [d, ""]) == env[b.name := b.value]
  {
    var e := env[b.name := b.value];
    BindMakes(env, d[3..], b);
    assert [d, ""][1..] == [""];
    assert EnvDecls(env, [d, ""]) == EnvDecls(e, [""]);
    assert Trim("") == "" && !StartsWith("", EnvDeclPrefix);
    assert EnvDecls(e, [""]) == EnvDecls(e, []);
  }

  lemma EnvDeclsFoo(env: Env)
    ensures EnvDecls(env, [">>>foo=bar", ""]) == env["foo" := "bar"]
  {
    FooDecl();
    FooBinding();
    EnvDeclsBindingThenEmpty(env, ">>>foo=bar", Binding("foo", "bar"));
  }

  lemma EnvLineFoo(env: Env)
    ensures EnvLine(true, env, FooLine) == Some((true, env["foo" := "bar"]))
  {
    FooLineTrim();
    FooLineKind();
    FooLineSplit();
    EnvDeclsFoo(env);
  }

  lemma EnvLineBegin(env: Env)
    ensures EnvLine(true, env, BeginMarker) == None
  {
    assert Trim(BeginMarker) == BeginMarker;
    assert BeginMarker[0] == '>' && BeginMarker[1] == '>';
  }

  lemma EnvSample()
    ensures EnvLines(false, map[], SampleLines) == map["foo" := "bar"]
  {
    var ls := SampleLines;
    var m: Env := map[];
    EnvLineDoctype(m);
    EnvLineMarker(m);
    EnvLineFoo(m);
    EnvLineBegin(m["foo" := "bar"]);
    assert EnvLines(false, m, ls) == EnvLines(false, m, ls[1..]);
    assert EnvLines(false, m, ls[1..]) == EnvLines(true, m, ls[2..]);
    assert EnvLines(true, m, ls[2..]) == EnvLines(true, m["foo" := "bar"], ls[3..]);
    assert EnvLines(true, m["foo" := "bar"], ls[3..]) == m["foo" := "bar"];
  }

  /** `test_parse_env`: `parse_env` on the sample binds `foo` to `bar`, and only that. */
  lemma TestParseEnv()
    ensures ParseEnvSpec(SampleText) == Ok(map["foo" := "bar"])
  {
    SampleTextLines();
    SampleHasDoctype();
    EnvSample();
  }

  // ---------------------------------------------------------------------------
  // parse on the sample.

  lemma DoctypeLine()
    ensures Trim(Doctype) == Doctype
    ensures !IsSkipped(Doctype) && Doctype != EnvMarker && Doctype != BeginMarker && Doctype != EndMarker
  {
  }

  lemma DoctypeSplit()
    ensures Split(Doctype, ';') == [Doctype]
  {
    SplitNone(Doctype, ';');
  }

  /** Outside both sections the doctype line is inert. */
  lemma LineStepDoctype(st: Scan)
    requires !st.inEnv && !st.inBody
    ensures LineStep(st, Doctype) == Ok(st)
  {
    DoctypeLine();
    DoctypeSplit();
    IdleIgnoresDecls(st, [Doctype]);
  }

  /** The marker lines, unpadded. */
  lemma LineStepMarkers(st: Scan)
    ensures LineStep(st, EnvMarker) == Ok(st.(inEnv := true))
    ensures LineStep(st, BeginMarker) == Ok(st.(inEnv := false, inBody := true))
    ensures LineStep(st, EndMarker) == Ok(st.(inBody := false))
  {
    MarkerLines(st, "", "");
    assert "" + EnvMarker + "" == EnvMarker;
    assert "" + BeginMarker + "" == BeginMarker;
    assert "" + EndMarker + "" == EndMarker;
  }

  /** In environment mode, a binding declaration followed by the empty piece after its `;`. */
  lemma DeclsBindingThenEmpty(st: Scan, d: string, b: Binding)
    requires st.inEnv
    requires Trim(d) == d && d != [] && !StartsWith(d, LineComment) && StartsWith(d, EnvDeclPrefix)
    requires EnvBinding(d[3..]) == Some(b)
    ensures DeclsRun(st, [d, ""]) == Ok(st.(env := st.env[b.name := b.value]))
  {
    var next := st.(env := st.env[b.name := b.value]);
    BindMakes(st.env, d[3..], b);
    assert DeclStep(st, d) == Ok(next);
    assert [d, ""][1..] == [""];
    assert Trim("") == "";
    assert DeclStep(next, "") == Ok(next);
    assert DeclsRun(next, [""]) == DeclsRun(next, []);
  }

  lemma LineStepFoo(st: Scan)
    requires st.inEnv
    ensures LineStep(st, FooLine) == Ok(st.(env := st.env["foo" := "bar"]))
  {
    FooLineTrim();
    FooLineKind();
    FooLineSplit();
    FooDecl();
    FooBinding();
    DeclsBindingThenEmpty(st, ">>>foo=bar", Binding("foo", "bar"));
  }

  /** What follows the attributes holds no `=`. */
  lemma ElementTailPlain()
    ensures '=' !in ">" + ElementId + ">" + ElementContent
  {
  }

  /** The attribute part, character by character where the pattern needs it. */
  lemma ElementAttrsShape()
    ensures var a := ElementAttrs;
      |a| == 22 && a[10] == ' ' && '=' !in a[..11]
      && AttrScan.MatchAt(a, 11, 14, 21) && a[11..14] == "key" && a[16..21] == "value"
  {
  }

  /** The attribute pattern matches `key="value"` in the sample declaration, and only there. */
  lemma SampleCaptures()
    ensures AttrScan.Captures(ElementDecl[1..]) == [Binding("key", "value")]
  {
    var tail := ">" + ElementId + ">" + ElementContent;
    assert ElementDecl[1..] == ElementAttrs + tail;
    ElementAttrsShape();
    ElementTailPlain();
    AttrScan.CapturesOneThenPlain(ElementAttrs, tail, 11, 14, 21);
  }

  lemma ElementDeclShaped()
    ensures Shaped(ElementDecl, ElementAttrs, ElementId, ElementContent, false)
    ensures ElementId != [] && ElementContent != []
  {
    assert ElementDecl + "" == ElementDecl;
  }

  /** `$env:foo` is the value of `foo` when it is bound, and itself otherwise. */
  lemma SubstituteFoo(env: Env)
    ensures Substitute(ElementContent, env) == if "foo" in env then env["foo"] else ElementContent
  {
    assert Repeat(EnvRefPrefix, 1) == EnvRefPrefix + "";
    assert ElementContent == Repeat(EnvRefPrefix, 1) + "foo";
    SubstituteSpec(1, "foo", env);
  }

  /** The sample's element declaration, parsed under `env`. */
  lemma ElementDeclParses(env: Env)
    ensures BodyElement(ElementDecl, env)
      == Ok(MakeRecord([Binding("key", "value")], ElementId, Substitute(ElementContent, env)))
  {
    ElementDeclShaped();
    SampleCaptures();
    ElementAccepts(ElementDecl, ElementAttrs, ElementId, ElementContent, false, env);
    assert Utf8Len(ElementDecl) >= |ElementDecl| >= 5;
  }

  lemma ElementLineShape()
    ensures Trim(ElementDecl) == ElementDecl && Trim(ElementLine) == ElementLine
    ensures !IsSkipped(ElementLine) && ElementLine != EnvMarker && ElementLine != BeginMarker
    ensures ElementLine != EndMarker
    ensures ElementDecl != [] && !StartsWith(ElementDecl, LineComment) && StartsWith(ElementDecl, ">")
  {
    assert ElementLine[0] == '>' && ElementLine[1] == 'e';
    assert ElementDecl[1] == 'e';
  }

  lemma ElementLineSplit()
    ensures Split(ElementLine, ';') == [ElementDecl, ""]
  {
    assert ';' !in ElementDecl;
    assert ElementLine == ElementDecl + [';'] + "";
    SplitAt(ElementDecl, ';', "");
    SplitNone("", ';');
  }

  /** In the body, an element declaration followed by the empty piece after its `;`. */
  lemma DeclsElementThenEmpty(st: Scan, d: string, rec: Record)
    requires !st.inEnv && st.inBody
    requires Trim(d) == d && d != [] && !StartsWith(d, LineComment) && StartsWith(d, ">")
    requires BodyElement(d, st.env) == Ok(rec)
    ensures DeclsRun(st, [d, ""]) == Ok(st.(out := st.out + [rec]))
  {
    var next := st.(out := st.out + [rec]);
    assert DeclStep(st, d) == Ok(next);
    assert [d, ""][1..] == [""];
    assert Trim("") == "";
    assert DeclStep(next, "") == Ok(next);
    assert DeclsRun(next, [""]) == DeclsRun(next, []);
  }

  lemma LineStepElement(st: Scan)
    requires !st.inEnv && st.inBody
    ensures LineStep(st, ElementLine) == Ok(st.(out := st.out
      + [MakeRecord([Binding("key", "value")], ElementId, Substitute(ElementContent, st.env))]))
  {
    ElementLineShape();
    ElementLineSplit();
    ElementDeclParses(st.env);
    DeclsElementThenEmpty(st, ElementDecl,
      MakeRecord([Binding("key", "value")], ElementId, Substitute(ElementContent, st.env)));
  }

  /** The element line under the sample's environment gives the sample record. */
  lemma LineStepSampleElement(st: Scan)
    requires !st.inEnv && st.inBody && st.env == map["foo" := "bar"]
    ensures LineStep(st, ElementLine) == Ok(st.(out := st.out + [SampleRecord]))
  {
    LineStepElement(st);
    SubstituteFoo(st.env);
    var attrs := [Binding("key", "value")];
    var content := Substitute(ElementContent, st.env);
    assert content == "bar" && ElementId == "element_id";
    assert MakeRecord(attrs, ElementId, content) == SampleRecord;
  }

  /** One successful line step, then the rest of the lines. */
  lemma LinesRunCons(st: Scan, line: string, rest: seq<string>, next: Scan)
    requires LineStep(st, line) == Ok(next)
    ensures LinesRun(st, [line] + rest) == LinesRun(next, rest)
  {
    assert ([line] + rest)[0] == line && ([line] + rest)[1..] == rest;
  }

  const SampleEnv: Env := map["foo" := "bar"]

  /** From the body on, under the sample's environment. */
  lemma SampleRunFromElement(st: Scan)
    requires !st.inEnv && st.inBody && st.env == SampleEnv
    ensures LinesRun(st, [ElementLine, EndMarker]) == Ok(st.(inBody := false, out := st.out + [SampleRecord]))
  {
    var next := st.(out := st.out + [SampleRecord]);
    LineStepSampleElement(st);
    LinesRunCons(st, ElementLine, [EndMarker], next);
    LineStepMarkers(next);
    LinesRunCons(next, EndMarker, [], next.(inBody := false));
  }

  /** From the environment section on. */
  lemma SampleRunFromFoo(st: Scan)
    requires st.inEnv && !st.inBody && st.env == map[]
    ensures LinesRun(st, [FooLine, BeginMarker, ElementLine, EndMarker])
      == Ok(st.(inEnv := false, env := SampleEnv, out := st.out + [SampleRecord]))
  {
    var bound := st.(env := SampleEnv);
    var body := bound.(inEnv := false, inBody := true);
    LineStepFoo(st);
    LinesRunCons(st, FooLine, [BeginMarker, ElementLine, EndMarker], bound);
    LineStepMarkers(bound);
    LinesRunCons(bound, BeginMarker, [ElementLine, EndMarker], body);
    SampleRunFromElement(body);
  }

  /** The scan of the sample: the environment section binds `foo`, the body yields
      one record, and both flags end cleared. */
  lemma SampleRun(st: Scan)
    requires !st.inEnv && !st.inBody && st.env == map[]
    ensures LinesRun(st, SampleLines) == Ok(st.(env := SampleEnv, out := st.out + [SampleRecord]))
  {
    var env := st.(inEnv := true);
    LineStepDoctype(st);
    LinesRunCons(st, Doctype, [EnvMarker, FooLine, BeginMarker, ElementLine, EndMarker], st);
    LineStepMarkers(st);
    LinesRunCons(st, EnvMarker, [FooLine, BeginMarker, ElementLine, EndMarker], env);
    SampleRunFromFoo(env);
  }

  lemma SampleParse()
    ensures ParseLines(SampleLines) == Ok([SampleRecord])
  {
    SampleHasDoctype();
    SampleRun(Initial);
    assert Initial.out + [SampleRecord] == [SampleRecord];
  }

  lemma SampleRecordFields()
    ensures SampleRecord["key"] == "value" && SampleRecord["KEY"] == "element_id"
    ensures SampleRecord["Content"] == "bar" && SampleRecord["Contents"] == "bar"
  {
    RecordShape([Binding("key", "value")], "element_id", "bar");
    assert !IsReserved("key");
  }

  /** `test_parse`: the sample gives one record whose `key` is `value`, whose `KEY` is
      the id, and whose `Content` and `Contents` are the value of `foo`. */
  lemma TestParse()
    ensures ParseSpec(SampleText) == Ok([SampleRecord])
    ensures SampleRecord["key"] == "value" && SampleRecord["KEY"] == "element_id"
    ensures SampleRecord["Content"] == "bar" && SampleRecord["Contents"] == "bar"
  {
    SampleTextLines();
    SampleParse();
    SampleRecordFields();
  }

  // ---------------------------------------------------------------------------
  // The two failing documents.

  const MissingFirstLine := "No DOCTYPE here"

  /** The document of `test_missing_doctype`: the sample with another first line. */
  const MissingText := MissingFirstLine + "\n" + (EnvMarker + "\n" + (FooLine + "\n" + (BeginMarker + "\n"
    + (ElementLine + "\n" + EndMarker))))

  lemma MissingFirstLineShape()
    ensures PlainLine(MissingFirstLine) && '=' !in MissingFirstLine
  {
  }

  lemma MissingTextFirstLine()
    ensures |Lines(MissingText)| > 0 && Lines(MissingText)[0] == MissingFirstLine
  {
    var rest := EnvMarker + "\n" + (FooLine + "\n" + (BeginMarker + "\n" + (ElementLine + "\n" + EndMarker)));
    MissingFirstLineShape();
    LinesCons(MissingFirstLine, rest);
  }

  lemma MissingFirstLineNoDoctype()
    ensures !Contains(MissingFirstLine, Doctype)
  {
    MissingFirstLineShape();
    if Contains(MissingFirstLine, Doctype) {
      ContainsChars(MissingFirstLine, Doctype, 7);
    }
  }

  /** `test_missing_doctype`: the error and its message. */
  lemma TestMissingDoctype()
    ensures ParseSpec(MissingText) == Err(MissingDoctype)
    ensures Message(ParseSpec(MissingText).error) == "invalid JTL document: missing DOCTYPE"
  {
    MissingTextFirstLine();
    MissingFirstLineNoDoctype();
    ParseDoctype(Lines(MissingText));
  }

  const ShortLine := ">a;"
  const ShortLines := [Doctype, BeginMarker, ShortLine, EndMarker]

  /** The document of `test_element_too_short`. */
  const ShortText := Doctype + "\n" + (BeginMarker + "\n" + (ShortLine + "\n" + EndMarker))

  lemma ShortLineShape()
    ensures PlainLine(ShortLine) && Trim(ShortLine) == ShortLine && Trim(">a") == ">a"
    ensures !IsSkipped(ShortLine) && ShortLine != EnvMarker && ShortLine != BeginMarker
    ensures ShortLine != EndMarker
    ensures ">a" != [] && !StartsWith(">a", LineComment) && StartsWith(">a", ">")
    ensures Utf8Len(">a") == 2
  {
  }

  lemma ShortLinePlain()
    ensures PlainLine(ShortLine)
  {
  }

  lemma ShortTextJoined()
    ensures ShortText == Join(ShortLines, '\n')
  {
    var ls := ShortLines;
    assert Join(ls[3..], '\n') == EndMarker;
    assert Join(ls[2..], '\n') == ShortLine + "\n" + EndMarker;
    assert Join(ls[1..], '\n') == BeginMarker + "\n" + Join(ls[2..], '\n');
    assert Join(ls, '\n') == Doctype + "\n" + Join(ls[1..], '\n');
  }

  lemma ShortTextLines()
    ensures Lines(ShortText) == ShortLines
  {
    SampleLinesPlain();
    ShortLinePlain();
    ShortTextJoined();
    LinesOfJoined(ShortLines);
  }

  /** In the body, a declaration of fewer than five bytes ends the scan. */
  lemma LineStepShort(st: Scan)
    requires !st.inEnv && st.inBody
    ensures LineStep(st, ShortLine) == Err(TooShort)
  {
    ShortLineShape();
    assert ShortLine == ">a" + [';'] + "";
    SplitAt(">a", ';', "");
    SplitNone("", ';');
    assert DeclStep(st, ">a") == Err(TooShort);
  }

  /** The scan of the short document stops at its element line. */
  lemma ShortRun(st: Scan)
    requires !st.inEnv && !st.inBody
    ensures LinesRun(st, ShortLines) == Err(TooShort)
  {
    var body := st.(inBody := true);
    LineStepDoctype(st);
    LinesRunCons(st, Doctype, [BeginMarker, ShortLine, EndMarker], st);
    LineStepMarkers(st);
    LinesRunCons(st, BeginMarker, [ShortLine, EndMarker], body);
    LineStepShort(body);
    assert [ShortLine, EndMarker] == [ShortLine] + [EndMarker];
  }

  lemma ShortParse()
    ensures ParseLines(ShortLines) == Err(TooShort)
  {
    assert StartsWith(ShortLines[0][0..], Doctype);
    ShortRun(Initial);
  }

  /** `test_element_too_short`: the error and its message. */
  lemma TestElementTooShort()
    ensures ParseSpec(ShortText) == Err(TooShort)
    ensures Message(ParseSpec(ShortText).error) == "invalid element format: too short"
  {
    ShortTextLines();
    ShortParse();
  }
}
