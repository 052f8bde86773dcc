/** What `parse` promises: the doctype gate, inert skipped lines, the marker lines and
    their effect on the two flags, and the independent two-phase view of the scan that
    first routes declarations and then parses the element declarations in order. */
module JtlDocumentFacts {
  import opened Text
  import opened Bindings
  import opened JtlCommon
  import opened JtlElement
  import opened JtlDocument

  // ---------------------------------------------------------------------------
  // Running the scan over consecutive stretches of lines.

  /** Scanning `a + b` is scanning `a` and then, when that succeeds, `b`. */
  lemma {:induction false} LinesRunAppend(st: Scan, a: seq<string>, b: seq<string>)
    ensures LinesRun(st, a + b) == (var mid :- LinesRun(st, a); LinesRun(mid, b))
    decreases |a|
  {
    if a == [] {
      assert a + b == b;
    } else {
      assert (a + b)[0] == a[0] && (a + b)[1..] == a[1..] + b;
      match LineStep(st, a[0])
      case Err(_) =>
      case Ok(next) => LinesRunAppend(next, a[1..], b);
    }
  }

  // ---------------------------------------------------------------------------
  // Skipped lines.

  /** A line that is empty or a comment after trimming can be added anywhere after the
      first line without changing what `parse` returns. */
  lemma SkippedLineIgnored(a: seq<string>, line: string, b: seq<string>)
    requires |a| >= 1 && IsSkipped(Trim(line))
    ensures ParseLines(a + [line] + b) == ParseLines(a + b)
  {
    assert (a + [line] + b)[0] == a[0] && (a + b)[0] == a[0];
    assert a + [line] + b == a + ([line] + b);
    LinesRunAppend(Initial, a, [line] + b);
    LinesRunAppend(Initial, a, b);
    assert ([line] + b)[0] == line && ([line] + b)[1..] == b;
  }

  // ---------------------------------------------------------------------------
  // Markers and the two flags.

  /** The three marker lines, with any surrounding whitespace, set the flags as the
      scan goes: `>>>ENV;` sets the environment flag, `>>>BEGIN;` clears it and sets the
      body flag, `>>>END;` clears the body flag; nothing else changes. */
  lemma MarkerLines(st: Scan, pre: string, post: string)
    requires AllWhitespace(pre) && AllWhitespace(post)
    ensures LineStep(st, pre + EnvMarker + post) == Ok(st.(inEnv := true))
    ensures LineStep(st, pre + BeginMarker + post) == Ok(st.(inEnv := false, inBody := true))
    ensures LineStep(st, pre + EndMarker + post) == Ok(st.(inBody := false))
  {
    assert EnvMarker[0] == '>' && EnvMarker[1] == '>';
    assert BeginMarker[0] == '>' && BeginMarker[1] == '>';
    assert EndMarker[0] == '>' && EndMarker[1] == '>';
    TrimPadded(pre, EnvMarker, post);
    TrimPadded(pre, BeginMarker, post);
    TrimPadded(pre, EndMarker, post);
  }

  /** Declarations never change the flags. */
  lemma {:induction false} DeclsRunKeepsFlags(st: Scan, decls: seq<string>)
    ensures DeclsRun(st, decls).Ok? ==>
      DeclsRun(st, decls).value.inEnv == st.inEnv && DeclsRun(st, decls).value.inBody == st.inBody
    decreases |decls|
  {
    if decls != [] {
      match DeclStep(st, decls[0])
      case Err(_) =>
      case Ok(next) => DeclsRunKeepsFlags(next, decls[1..]);
    }
  }

  /** Only the exact marker lines (after trimming) change a flag. */
  lemma NonMarkerLineKeepsFlags(st: Scan, raw: string)
    requires Trim(raw) != EnvMarker && Trim(raw) != BeginMarker && Trim(raw) != EndMarker
    ensures LineStep(st, raw).Ok? ==>
      LineStep(st, raw).value.inEnv == st.inEnv && LineStep(st, raw).value.inBody == st.inBody
  {
    DeclsRunKeepsFlags(st, Split(Trim(raw), ';'));
  }

  /** With neither flag set every declaration is ignored. */
  lemma {:induction false} IdleIgnoresDecls(st: Scan, decls: seq<string>)
    requires !st.inEnv && !st.inBody
    ensures DeclsRun(st, decls) == Ok(st)
    decreases |decls|
  {
    if decls != [] {
      IdleIgnoresDecls(st, decls[1..]);
    }
  }

  /** Outside the body declarations cannot fail and add no record. */
  lemma {:induction false} OutsideBodyAddsNothing(st: Scan, decls: seq<string>)
    requires !st.inBody
    ensures DeclsRun(st, decls).Ok? && DeclsRun(st, decls).value.out == st.out
    decreases |decls|
  {
    if decls != [] {
      var next := DeclStep(st, decls[0]);
      assert next.Ok? && next.value.out == st.out && !next.value.inBody;
      OutsideBodyAddsNothing(next.value, decls[1..]);
    }
  }

  // ---------------------------------------------------------------------------
  // Environment declarations.

  /** In environment mode the environment after a line's declarations is the old one
      with the bindings of those declarations inserted in order, so the last binding
      of a name wins; `parse_env` applies this same rule. */
  lemma {:induction false} EnvModeBinds(st: Scan, decls: seq<string>)
    requires st.inEnv
    ensures DeclsRun(st, decls).Ok? ==> DeclsRun(st, decls).value.env == InsertAll(st.env, DeclBindings(decls))
    decreases |decls|
  {
    if decls != [] {
      EnvModeBindsOne(st, decls[0]);
      match DeclStep(st, decls[0])
      case Err(_) =>
      case Ok(next) =>
        EnvModeBinds(next, decls[1..]);
        assert DeclBindings(decls) == DeclBinding(decls[0]) + DeclBindings(decls[1..]);
        if DeclBinding(decls[0]) != [] {
          InsertAllCons(st.env, DeclBinding(decls[0])[0], DeclBindings(decls[1..]));
        } else {
          assert DeclBindings(decls) == DeclBindings(decls[1..]);
        }
    }
  }

  /** One declaration in environment mode makes at most its own binding. */
  lemma EnvModeBindsOne(st: Scan, raw: string)
    requires st.inEnv
    ensures DeclStep(st, raw).Ok? ==> DeclStep(st, raw).value.inEnv
    ensures |DeclBinding(raw)| <= 1
    ensures DeclStep(st, raw).Ok? ==>
      DeclStep(st, raw).value.env == InsertAll(st.env, DeclBinding(raw))
  {
    var decl := Trim(raw);
    if decl == [] || StartsWith(decl, LineComment) {
      assert decl != [] ==> decl[1] == '/';
      assert DeclBinding(raw) == [];
      assert DeclStep(st, raw) == Ok(st);
    } else if StartsWith(decl, EnvDeclPrefix) {
      assert DeclStep(st, raw) == Ok(st.(env := Bind(st.env, decl[3..])));
    } else {
      assert DeclBinding(raw) == [];
      assert DeclStep(st, raw).Ok? ==> DeclStep(st, raw).value.env == st.env;
    }
  }

  // ---------------------------------------------------------------------------
  // The doctype gate.

  /** No element can fail with the doctype error. */
  lemma ElementNeverMissingDoctype(decl: string, env: Env)
    ensures ElementSpec(decl, env) != Err(MissingDoctype)
  {
  }

  lemma {:induction false} DeclsRunNeverMissingDoctype(st: Scan, decls: seq<string>)
    ensures DeclsRun(st, decls) != Err(MissingDoctype)
    decreases |decls|
  {
    if decls != [] {
      ElementNeverMissingDoctype(Trim(decls[0]), st.env);
      match DeclStep(st, decls[0])
      case Err(_) =>
      case Ok(next) => DeclsRunNeverMissingDoctype(next, decls[1..]);
    }
  }

  lemma {:induction false} LinesRunNeverMissingDoctype(st: Scan, lines: seq<string>)
    ensures LinesRun(st, lines) != Err(MissingDoctype)
    decreases |lines|
  {
    if lines != [] {
      DeclsRunNeverMissingDoctype(st, Split(Trim(lines[0]), ';'));
      match LineStep(st, lines[0])
      case Err(_) =>
      case Ok(next) => LinesRunNeverMissingDoctype(next, lines[1..]);
    }
  }

  /** `parse` reports the missing doctype exactly when there is no first line holding
      `DOCTYPE=JTL`, whatever the rest of the document says. */
  lemma ParseDoctype(lines: seq<string>)
    ensures ParseLines(lines) == Err(MissingDoctype) <==> !HasDoctype(lines)
  {
    LinesRunNeverMissingDoctype(Initial, lines);
  }
}
