/** A second description of `parse`, in two phases: first the mode machine routes the
    declarations alone, collecting every element declaration together with the
    environment in force where it stands; then the collected declarations are parsed
    one after another. The main lemma shows that the one-pass scan of `parse` and this
    description agree, so the records come out one per element declaration, in
    document order, and the first failing element decides the error. */
module JtlRouting {
  import opened Text
  import opened JtlCommon
  import opened JtlElement
  import opened Bindings
  import opened JtlDocument
  import AttrScan

  /** The mode machine's state without the records. */
  datatype Mode = Mode(inEnv: bool, inBody: bool, env: Env)

  /** An element declaration (trimmed) with the environment it is parsed under. */
  datatype Item = Item(decl: string, env: Env)

  /** The mode reached and the element declarations met on the way. */
  datatype Routed = Routed(mode: Mode, items: seq<Item>)

  function ModeOf(st: Scan): Mode {
    Mode(st.inEnv, st.inBody, st.env)
  }

  function RouteDecl(m: Mode, raw: string): Routed {
    var decl := Trim(raw);
    if decl == [] || StartsWith(decl, LineComment) then Routed(m, [])
    else if m.inEnv && StartsWith(decl, EnvDeclPrefix) then Routed(m.(env := Bind(m.env, decl[3..])), [])
    else if m.inBody && StartsWith(decl, ">") then Routed(m, [Item(decl, m.env)])
    else Routed(m, [])
  }

  function RouteDecls(m: Mode, decls: seq<string>): Routed
    decreases |decls|
  {
    if decls == [] then Routed(m, [])
    else
      var head := RouteDecl(m, decls[0]);
      var tail := RouteDecls(head.mode, decls[1..]);
      Routed(tail.mode, head.items + tail.items)
  }

  function RouteLine(m: Mode, raw: string): Routed {
    var line := Trim(raw);
    if IsSkipped(line) then Routed(m, [])
    else if line == EnvMarker then Routed(m.(inEnv := true), [])
    else if line == BeginMarker then Routed(m.(inEnv := false, inBody := true), [])
    else if line == EndMarker then Routed(m.(inBody := false), [])
    else RouteDecls(m, Split(line, ';'))
  }

  function RouteLines(m: Mode, lines: seq<string>): Routed
    decreases |lines|
  {
    if lines == [] then Routed(m, [])
    else
      var head := RouteLine(m, lines[0]);
      var tail := RouteLines(head.mode, lines[1..]);
      Routed(tail.mode, head.items + tail.items)
  }

  /** One element declaration parsed: too short below five UTF-8 bytes, otherwise
      `parse_element`. */
  function ElementOf(item: Item): Result<Record> {
    BodyElement(item.decl, item.env)
  }

  /** Each element declaration parsed on its own. */
  function Parsed(items: seq<Item>): (r: seq<Result<Record>>)
    ensures |r| == |items|
  {
    seq(|items|, i requires 0 <= i < |items| => ElementOf(items[i]))
  }

  /** The records of a sequence of outcomes, taken in order; the first failure is the
      result. */
  function Collect(rs: seq<Result<Record>>): Result<seq<Record>>
    decreases |rs|
  {
    if rs == [] then Ok([])
    else
      var rec :- rs[0];
      var recs :- Collect(rs[1..]);
      Ok([rec] + recs)
  }

  /** The element declarations parsed in order; the first failure is the result. */
  function ParseAll(items: seq<Item>): Result<seq<Record>> {
    Collect(Parsed(items))
  }

  /** The scan state after the records of `routed` were appended to `out`. */
  function Combine(out: seq<Record>, routed: Routed): Result<Scan> {
    var recs :- ParseAll(routed.items);
    Ok(Scan(routed.mode.inEnv, routed.mode.inBody, routed.mode.env, out + recs))
  }

  /** The routed view of `parse`: the doctype gate, then the routed element
      declarations parsed in order. */
  function ParseRouted(lines: seq<string>): Result<seq<Record>> {
    if !HasDoctype(lines) then Err(MissingDoctype)
    else ParseAll(RouteLines(Mode(false, false, map[]), lines).items)
  }

  // ---------------------------------------------------------------------------
  // Collecting the outcomes of consecutive stretches.

  lemma AppendAssoc<T>(a: seq<T>, b: seq<T>, c: seq<T>)
    ensures (a + b) + c == a + (b + c)
  {
  }

  lemma ParsedAppend(a: seq<Item>, b: seq<Item>)
    ensures Parsed(a + b) == Parsed(a) + Parsed(b)
  {
    assert forall i :: 0 <= i < |a| ==> (a + b)[i] == a[i];
    assert forall i :: |a| <= i < |a| + |b| ==> (a + b)[i] == b[i - |a|];
  }

  lemma {:induction false} CollectAppend(xs: seq<Result<Record>>, ys: seq<Result<Record>>)
    ensures Collect(xs + ys) == (var x :- Collect(xs); var y :- Collect(ys); Ok(x + y))
    decreases |xs|
  {
    if xs == [] {
      assert xs + ys == ys;
      match Collect(ys)
      case Err(_) =>
      case Ok(y) => assert [] + y == y;
    } else {
      assert (xs + ys)[0] == xs[0] && (xs + ys)[1..] == xs[1..] + ys;
      CollectAppend(xs[1..], ys);
      match Collect(xs[1..])
      case Err(_) =>
      case Ok(x) =>
        match Collect(ys)
        case Err(_) =>
        case Ok(y) =>
          match xs[0]
          case Err(_) =>
          case Ok(r) => assert [r] + (x + y) == ([r] + x) + y;
    }
  }

  /** Parsing `a + b` is parsing `a` and then `b`; the first failure wins. */
  lemma ParseAllAppend(a: seq<Item>, b: seq<Item>)
    ensures ParseAll(a + b) == (var x :- ParseAll(a); var y :- ParseAll(b); Ok(x + y))
  {
    ParsedAppend(a, b);
    CollectAppend(Parsed(a), Parsed(b));
  }

  /** `Collect` succeeds exactly when every outcome is a success, with the records in
      order. */
  lemma {:induction false} CollectOk(rs: seq<Result<Record>>, recs: seq<Record>)
    ensures Collect(rs) == Ok(recs) <==> |recs| == |rs| && forall i :: 0 <= i < |rs| ==> rs[i] == Ok(recs[i])
    decreases |rs|
  {
    if rs != [] && recs != [] {
      CollectOk(rs[1..], recs[1..]);
      assert recs == [recs[0]] + recs[1..];
      if |recs| == |rs| && forall i :: 0 <= i < |rs| ==> rs[i] == Ok(recs[i]) {
        assert forall i :: 0 <= i < |rs| - 1 ==> rs[1..][i] == rs[i + 1] && recs[1..][i] == recs[i + 1];
      }
    }
  }

  /** `Collect` fails with the first failure. */
  lemma {:induction false} CollectFirstError(rs: seq<Result<Record>>, i: nat)
    requires i < |rs| && rs[i].Err?
    requires forall k :: 0 <= k < i ==> rs[k].Ok?
    ensures Collect(rs) == Err(rs[i].error)
    decreases i
  {
    if i > 0 {
      assert forall k :: 0 <= k < i - 1 ==> rs[1..][k] == rs[k + 1];
      CollectFirstError(rs[1..], i - 1);
    }
  }

  /** `ParseAll` succeeds exactly when every element declaration does, with one record
      per declaration, in order. */
  lemma ParseAllOk(items: seq<Item>, recs: seq<Record>)
    ensures ParseAll(items) == Ok(recs)
      <==> |recs| == |items| && forall i :: 0 <= i < |items| ==> ElementOf(items[i]) == Ok(recs[i])
  {
    CollectOk(Parsed(items), recs);
  }

  /** `ParseAll` fails with the error of the first element declaration that fails. */
  lemma ParseAllFirstError(items: seq<Item>, i: nat)
    requires i < |items| && ElementOf(items[i]).Err?
    requires forall k :: 0 <= k < i ==> ElementOf(items[k]).Ok?
    ensures ParseAll(items) == Err(ElementOf(items[i]).error)
  {
    CollectFirstError(Parsed(items), i);
  }

  // ---------------------------------------------------------------------------
  // The one-pass scan agrees with the routed view.

  lemma CombineNone(out: seq<Record>, m: Mode)
    ensures Combine(out, Routed(m, [])) == Ok(Scan(m.inEnv, m.inBody, m.env, out))
  {
    assert Parsed([]) == [];
    assert out + [] == out;
  }

  lemma CollectOne(r: Result<Record>)
    ensures Collect([r]) == (var rec :- r; Ok([rec]))
  {
    assert [r][1..] == [];
    match r
    case Err(_) =>
    case Ok(rec) => assert [rec] + [] == [rec];
  }

  lemma CombineOne(out: seq<Record>, m: Mode, item: Item)
    ensures Combine(out, Routed(m, [item]))
      == (var rec :- ElementOf(item); Ok(Scan(m.inEnv, m.inBody, m.env, out + [rec])))
  {
    assert Parsed([item]) == [ElementOf(item)];
    CollectOne(ElementOf(item));
  }

  lemma DeclStepRouted(st: Scan, raw: string)
    ensures DeclStep(st, raw) == Combine(st.out, RouteDecl(ModeOf(st), raw))
  {
    var decl := Trim(raw);
    var m := ModeOf(st);
    if decl == [] || StartsWith(decl, LineComment) {
      assert RouteDecl(m, raw) == Routed(m, []);
      CombineNone(st.out, m);
    } else if st.inEnv && StartsWith(decl, EnvDeclPrefix) {
      assert RouteDecl(m, raw) == Routed(m.(env := Bind(st.env, decl[3..])), []);
      CombineNone(st.out, m.(env := Bind(st.env, decl[3..])));
    } else if st.inBody && StartsWith(decl, ">") {
      assert RouteDecl(m, raw) == Routed(m, [Item(decl, st.env)]);
      CombineOne(st.out, m, Item(decl, st.env));
    } else {
      assert RouteDecl(m, raw) == Routed(m, []);
      CombineNone(st.out, m);
    }
  }

  lemma {:induction false} DeclsRunRouted(st: Scan, decls: seq<string>)
    ensures DeclsRun(st, decls) == Combine(st.out, RouteDecls(ModeOf(st), decls))
    decreases |decls|
  {
    if decls != [] {
      var head := RouteDecl(ModeOf(st), decls[0]);
      var tail := RouteDecls(head.mode, decls[1..]);
      assert RouteDecls(ModeOf(st), decls) == Routed(tail.mode, head.items + tail.items);
      DeclStepRouted(st, decls[0]);
      ParseAllAppend(head.items, tail.items);
      match ParseAll(head.items)
      case Err(e) =>
        assert DeclStep(st, decls[0]) == Err(e);
      case Ok(x) =>
        var next := Scan(head.mode.inEnv, head.mode.inBody, head.mode.env, st.out + x);
        assert DeclStep(st, decls[0]) == Ok(next);
        assert DeclsRun(st, decls) == DeclsRun(next, decls[1..]);
        assert ModeOf(next) == head.mode;
        DeclsRunRouted(next, decls[1..]);
        match ParseAll(tail.items)
        case Err(_) =>
        case Ok(y) => AppendAssoc(st.out, x, y);
    } else {
      assert st.out + [] == st.out;
    }
  }

  lemma LineStepRouted(st: Scan, raw: string)
    ensures LineStep(st, raw) == Combine(st.out, RouteLine(ModeOf(st), raw))
  {
    var line := Trim(raw);
    if !IsSkipped(line) && line != EnvMarker && line != BeginMarker && line != EndMarker {
      DeclsRunRouted(st, Split(line, ';'));
    } else {
      assert st.out + [] == st.out;
    }
  }

  lemma {:induction false} LinesRunRouted(st: Scan, lines: seq<string>)
    ensures LinesRun(st, lines) == Combine(st.out, RouteLines(ModeOf(st), lines))
    decreases |lines|
  {
    if lines != [] {
      var head := RouteLine(ModeOf(st), lines[0]);
      var tail := RouteLines(head.mode, lines[1..]);
      LineStepRouted(st, lines[0]);
      ParseAllAppend(head.items, tail.items);
      match ParseAll(head.items)
      case Err(_) =>
      case Ok(x) =>
        var next := Scan(head.mode.inEnv, head.mode.inBody, head.mode.env, st.out + x);
        assert ModeOf(next) == head.mode;
        LinesRunRouted(next, lines[1..]);
        match ParseAll(tail.items)
        case Err(_) =>
        case Ok(y) => AppendAssoc(st.out, x, y);
    } else {
      assert st.out + [] == st.out;
    }
  }

  /** `parse` is the routed view: route the declarations, then parse the element
      declarations in order. */
  lemma ParseIsRouted(lines: seq<string>)
    ensures ParseLines(lines) == ParseRouted(lines)
  {
    LinesRunRouted(Initial, lines);
    assert ModeOf(Initial) == Mode(false, false, map[]);
    match ParseAll(RouteLines(Mode(false, false, map[]), lines).items)
    case Err(_) =>
    case Ok(recs) => assert [] + recs == recs;
  }

  /** On success `parse` returns exactly one record per routed element declaration, in
      document order, each the one `parse_element` gives under the environment in force;
      on failure the error is that of the first element declaration that fails. */
  lemma ParseRecords(lines: seq<string>, recs: seq<Record>)
    requires HasDoctype(lines)
    ensures var items := RouteLines(Mode(false, false, map[]), lines).items;
      ParseLines(lines) == Ok(recs)
      <==> |recs| == |items| && forall i :: 0 <= i < |items| ==> ElementOf(items[i]) == Ok(recs[i])
  {
    ParseIsRouted(lines);
    ParseAllOk(RouteLines(Mode(false, false, map[]), lines).items, recs);
  }

  /** A failing element declaration, with every earlier one succeeding, makes `parse`
      fail with its error: elements after it are never looked at. */
  lemma ParseFirstError(lines: seq<string>, i: nat)
    requires HasDoctype(lines)
    requires var items := RouteLines(Mode(false, false, map[]), lines).items;
      i < |items| && ElementOf(items[i]).Err? && forall k :: 0 <= k < i ==> ElementOf(items[k]).Ok?
    ensures ParseLines(lines) == Err(ElementOf(RouteLines(Mode(false, false, map[]), lines).items[i]).error)
  {
    ParseIsRouted(lines);
    ParseAllFirstError(RouteLines(Mode(false, false, map[]), lines).items, i);
  }

  /** Every record `parse` returns carries a non-empty `KEY` and equal `Content` and
      `Contents`. */
  lemma ParsedRecordsShape(lines: seq<string>, recs: seq<Record>)
    requires ParseLines(lines) == Ok(recs)
    ensures forall r :: r in recs ==>
      && "KEY" in r && "Content" in r && "Contents" in r
      && r["KEY"] != [] && r["Content"] == r["Contents"]
  {
    var items := RouteLines(Mode(false, false, map[]), lines).items;
    ParseRecords(lines, recs);
    forall r | r in recs
      ensures "KEY" in r && "Content" in r && "Contents" in r && r["KEY"] != [] && r["Content"] == r["Contents"]
    {
      var i :| 0 <= i < |recs| && recs[i] == r;
      var item := items[i];
      assert ElementSpec(item.decl, item.env) == Ok(r);
      var attrs, id, content, semi := ElementOkIsShaped(item.decl, item.env);
      RecordShape(AttrScan.Captures(item.decl[1..]), id, Substitute(content, item.env));
    }
  }

  // ---------------------------------------------------------------------------
  // What gets routed.

  /** A routed declaration: it starts with `>`. */
  predicate IsElementDecl(item: Item) {
    StartsWith(item.decl, ">")
  }

  /** A line's declarations route only declarations starting with `>`, and none
      outside the body; routing never changes a flag. */
  lemma {:induction false} RouteDeclsElements(m: Mode, decls: seq<string>)
    ensures forall i :: 0 <= i < |RouteDecls(m, decls).items| ==> IsElementDecl(RouteDecls(m, decls).items[i])
    ensures !m.inBody ==> RouteDecls(m, decls).items == []
    ensures RouteDecls(m, decls).mode.inEnv == m.inEnv && RouteDecls(m, decls).mode.inBody == m.inBody
    decreases |decls|
  {
    if decls != [] {
      var head := RouteDecl(m, decls[0]);
      RouteDeclsElements(head.mode, decls[1..]);
    }
  }

  /** Every routed declaration of a document starts with `>`. */
  lemma {:induction false} RouteLinesElements(m: Mode, lines: seq<string>)
    ensures forall i :: 0 <= i < |RouteLines(m, lines).items| ==> IsElementDecl(RouteLines(m, lines).items[i])
    decreases |lines|
  {
    if lines != [] {
      var head := RouteLine(m, lines[0]);
      var line := Trim(lines[0]);
      if !IsSkipped(line) && line != EnvMarker && line != BeginMarker && line != EndMarker {
        RouteDeclsElements(m, Split(line, ';'));
      }
      RouteLinesElements(head.mode, lines[1..]);
    }
  }

  // ---------------------------------------------------------------------------
  // The environment in force.

  /** A trimmed line that holds declarations: not skipped and not a marker. */
  predicate IsDeclLine(line: string) {
    !IsSkipped(line) && line != EnvMarker && line != BeginMarker && line != EndMarker
  }

  /** The bindings one line makes: those of its declarations when it holds
      declarations read in environment mode, none otherwise. */
  function LineBindings(m: Mode, raw: string): seq<Binding> {
    var line := Trim(raw);
    if m.inEnv && IsDeclLine(line) then DeclBindings(Split(line, ';')) else []
  }

  /** The bindings the mode machine makes over `lines`, in document order. */
  function RoutedBindings(m: Mode, lines: seq<string>): seq<Binding>
    decreases |lines|
  {
    if lines == [] then []
    else LineBindings(m, lines[0]) + RoutedBindings(RouteLine(m, lines[0]).mode, lines[1..])
  }

  /** The bindings the first `k` declarations of a line make. */
  function InLineBindings(m: Mode, raw: string, k: nat): seq<Binding> {
    var decls := Split(Trim(raw), ';');
    if m.inEnv && IsDeclLine(Trim(raw)) && k <= |decls| then DeclBindings(decls[..k]) else []
  }

  /** The bindings made before declaration `k` of line `n`: those of the lines before
      it, then those of the line's own earlier declarations. */
  function BindingsBefore(m: Mode, lines: seq<string>, n: nat, k: nat): seq<Binding>
    requires n < |lines|
  {
    RoutedBindings(m, lines[..n]) + InLineBindings(RouteLines(m, lines[..n]).mode, lines[n], k)
  }

  /** One declaration changes only the environment, and only in environment mode,
      where it inserts its own binding. */
  lemma RouteDeclBinds(m: Mode, raw: string)
    ensures RouteDecl(m, raw).mode
      == m.(env := if m.inEnv then InsertAll(m.env, DeclBinding(raw)) else m.env)
  {
    var decl := Trim(raw);
    if m.inEnv && StartsWith(decl, EnvDeclPrefix) {
      assert decl[1] == EnvDeclPrefix[1] != LineComment[1];
      match EnvBinding(decl[3..])
      case None =>
      case Some(b) =>
        assert [b][..0] == [];
        BindMakes(m.env, decl[3..], b);
    } else if StartsWith(decl, EnvDeclPrefix) {
    } else {
      assert DeclBinding(raw) == [];
    }
  }

  /** A line's declarations leave the environment alone outside environment mode
      and insert their bindings, in order, inside it; the flags never change. */
  lemma {:induction false} RouteDeclsBinds(m: Mode, decls: seq<string>)
    ensures RouteDecls(m, decls).mode
      == m.(env := if m.inEnv then InsertAll(m.env, DeclBindings(decls)) else m.env)
    decreases |decls|
  {
    if decls != [] {
      var head := RouteDecl(m, decls[0]);
      RouteDeclBinds(m, decls[0]);
      RouteDeclsBinds(head.mode, decls[1..]);
      InsertAllAppend(m.env, DeclBinding(decls[0]), DeclBindings(decls[1..]));
    }
  }

  /** One line inserts the bindings it makes. */
  lemma RouteLineBinds(m: Mode, raw: string)
    ensures RouteLine(m, raw).mode.env == InsertAll(m.env, LineBindings(m, raw))
  {
    var line := Trim(raw);
    if !IsSkipped(line) && line != EnvMarker && line != BeginMarker && line != EndMarker {
      RouteDeclsBinds(m, Split(line, ';'));
    }
  }

  /** The environment after a document is the starting one with every binding made in
      environment mode inserted in document order, so a later binding of a name
      overwrites an earlier one (`InsertAllLastWins`). */
  lemma {:induction false} RouteLinesBinds(m: Mode, lines: seq<string>)
    ensures RouteLines(m, lines).mode.env == InsertAll(m.env, RoutedBindings(m, lines))
    decreases |lines|
  {
    if lines != [] {
      var head := RouteLine(m, lines[0]);
      RouteLineBinds(m, lines[0]);
      RouteLinesBinds(head.mode, lines[1..]);
      InsertAllAppend(m.env, LineBindings(m, lines[0]), RoutedBindings(head.mode, lines[1..]));
    }
  }

  /** Each declaration routed from a line is declaration `k` of the line, parsed
      under the environment at the line's start with the bindings of the line's
      earlier declarations inserted. */
  lemma {:induction false} RouteDeclsItems(m: Mode, decls: seq<string>, j: nat) returns (k: nat)
    requires j < |RouteDecls(m, decls).items|
    ensures k < |decls|
    ensures RouteDecls(m, decls).items[j]
      == Item(Trim(decls[k]), InsertAll(m.env, if m.inEnv then DeclBindings(decls[..k]) else []))
    decreases |decls|, 1
  {
    if j < |RouteDecl(m, decls[0]).items| {
      k := 0;
      RouteDeclsItemsHead(m, decls, j);
    } else {
      k := RouteDeclsItemsTail(m, decls, j);
    }
  }

  lemma RouteDeclsItemsHead(m: Mode, decls: seq<string>, j: nat)
    requires decls != [] && j < |RouteDecl(m, decls[0]).items|
    ensures j < |RouteDecls(m, decls).items|
    ensures RouteDecls(m, decls).items[j]
      == Item(Trim(decls[0]), InsertAll(m.env, if m.inEnv then DeclBindings(decls[..0]) else []))
  {
    assert decls[..0] == [];
  }

  lemma {:induction false} RouteDeclsItemsTail(m: Mode, decls: seq<string>, j: nat) returns (k: nat)
    requires decls != [] && |RouteDecl(m, decls[0]).items| <= j < |RouteDecls(m, decls).items|
    ensures k < |decls|
    ensures RouteDecls(m, decls).items[j]
      == Item(Trim(decls[k]), InsertAll(m.env, if m.inEnv then DeclBindings(decls[..k]) else []))
    decreases |decls|, 0
  {
    var head := RouteDecl(m, decls[0]);
    RouteDeclBinds(m, decls[0]);
    var k' := RouteDeclsItems(head.mode, decls[1..], j - |head.items|);
    k := k' + 1;
    assert decls[..k][1..] == decls[1..][..k'];
    InsertAllAppend(m.env, DeclBinding(decls[0]), DeclBindings(decls[1..][..k']));
  }

  /** A line that routes anything is a line of declarations. */
  lemma RouteLineDecls(m: Mode, raw: string)
    ensures RouteLine(m, raw).items != [] ==>
      IsDeclLine(Trim(raw)) && RouteLine(m, raw).items == RouteDecls(m, Split(Trim(raw), ';')).items
  {
  }

  /** Routing a document in two parts: the second part starts in the mode the first
      one leaves. */
  lemma {:induction false} RouteLinesAppend(m: Mode, a: seq<string>, b: seq<string>)
    ensures var first := RouteLines(m, a);
      var second := RouteLines(first.mode, b);
      RouteLines(m, a + b) == Routed(second.mode, first.items + second.items)
    decreases |a|
  {
    if a == [] {
      assert a + b == b;
    } else {
      var head := RouteLine(m, a[0]);
      assert (a + b)[0] == a[0] && (a + b)[1..] == a[1..] + b;
      RouteLinesAppend(head.mode, a[1..], b);
      var second := RouteLines(RouteLines(m, a).mode, b);
      AppendAssoc(head.items, RouteLines(head.mode, a[1..]).items, second.items);
    }
  }

  /** The bindings of a document in two parts. */
  lemma {:induction false} RoutedBindingsAppend(m: Mode, a: seq<string>, b: seq<string>)
    ensures RoutedBindings(m, a + b) == RoutedBindings(m, a) + RoutedBindings(RouteLines(m, a).mode, b)
    decreases |a|
  {
    if a == [] {
      assert a + b == b;
    } else {
      var head := RouteLine(m, a[0]);
      assert (a + b)[0] == a[0] && (a + b)[1..] == a[1..] + b;
      RoutedBindingsAppend(head.mode, a[1..], b);
      AppendAssoc(LineBindings(m, a[0]), RoutedBindings(head.mode, a[1..]),
        RoutedBindings(RouteLines(m, a).mode, b));
    }
  }

  /** Routing a single line. */
  lemma RouteLinesOne(m: Mode, line: string)
    ensures RouteLines(m, [line]) == Routed(RouteLine(m, line).mode, RouteLine(m, line).items)
  {
    assert [line][1..] == [];
    assert RouteLine(m, line).items + [] == RouteLine(m, line).items;
  }

  /** Each routed declaration comes from some line `n`: it is one of the declarations
      that line routes, behind those of the lines before it. */
  lemma {:induction false} ItemOrigin(m: Mode, lines: seq<string>, j: nat) returns (n: nat, i: nat)
    requires j < |RouteLines(m, lines).items|
    ensures n < |lines|
    ensures var before := RouteLines(m, lines[..n]);
      j == |before.items| + i && i < |RouteLine(before.mode, lines[n]).items|
    decreases |lines|
  {
    var head := RouteLine(m, lines[0]);
    if j < |head.items| {
      n, i := 0, j;
      assert lines[..0] == [];
    } else {
      var n', i' := ItemOrigin(head.mode, lines[1..], j - |head.items|);
      n, i := n' + 1, i';
      assert lines[..n] == [lines[0]] + lines[1..][..n'];
      assert lines[n] == lines[1..][n'];
      RouteLinesAppend(m, [lines[0]], lines[1..][..n']);
      RouteLinesOne(m, lines[0]);
    }
  }

  /** A declaration routed from `line`, in a document `a + [line] + c`, is declaration
      `k` of the line, parsed under the starting environment with the bindings of `a`
      and of the line's earlier declarations inserted. */
  lemma LineItemEnv(m: Mode, a: seq<string>, line: string, c: seq<string>, i: nat) returns (k: nat)
    requires i < |RouteLine(RouteLines(m, a).mode, line).items|
    ensures var before := RouteLines(m, a);
      && |before.items| + i < |RouteLines(m, a + [line] + c).items|
      && k < |Split(Trim(line), ';')|
      && RouteLines(m, a + [line] + c).items[|before.items| + i]
        == Item(Trim(Split(Trim(line), ';')[k]),
                InsertAll(m.env, RoutedBindings(m, a) + InLineBindings(before.mode, line, k)))
  {
    var before := RouteLines(m, a);
    var at := before.mode;
    assert a + [line] + c == a + ([line] + c);
    RouteLinesAppend(m, a, [line] + c);
    assert ([line] + c)[0] == line && ([line] + c)[1..] == c;
    var routed := RouteLine(at, line);
    assert RouteLines(at, [line] + c).items[i] == routed.items[i];
    RouteLineDecls(at, line);
    k := RouteDeclsItems(at, Split(Trim(line), ';'), i);
    RouteLinesBinds(m, a);
    InsertAllAppend(m.env, RoutedBindings(m, a), InLineBindings(at, line, k));
  }

  /** Each routed declaration of a document is declaration `k` of some line `n`,
      parsed under the starting environment with every binding made before it in
      document order inserted. */
  lemma RouteLinesItems(m: Mode, lines: seq<string>, j: nat) returns (n: nat, k: nat)
    requires j < |RouteLines(m, lines).items|
    ensures n < |lines| && k < |Split(Trim(lines[n]), ';')|
    ensures RouteLines(m, lines).items[j]
      == Item(Trim(Split(Trim(lines[n]), ';')[k]), InsertAll(m.env, BindingsBefore(m, lines, n, k)))
  {
    var i;
    n, i := ItemOrigin(m, lines, j);
    assert lines == lines[..n] + [lines[n]] + lines[n + 1..];
    k := LineItemEnv(m, lines[..n], lines[n], lines[n + 1..], i);
  }

  /** The bindings of a line's declarations are those of its first `k` declarations
      followed by those of the rest. */
  lemma {:induction false} DeclBindingsSplit(decls: seq<string>, k: nat)
    requires k <= |decls|
    ensures DeclBindings(decls) == DeclBindings(decls[..k]) + DeclBindings(decls[k..])
    decreases k
  {
    if k == 0 {
      assert decls[..0] == [] && decls[0..] == decls;
    } else {
      var head := DeclBinding(decls[0]);
      assert decls[..k][1..] == decls[1..][..k - 1];
      assert decls[k..] == decls[1..][k - 1..];
      DeclBindingsSplit(decls[1..], k - 1);
      AppendAssoc(head, DeclBindings(decls[1..][..k - 1]), DeclBindings(decls[1..][k - 1..]));
    }
  }

  /** The bindings made before a declaration are an initial part of the bindings of
      the whole document: earlier bindings are never left out or reordered. */
  lemma BindingsBeforePrefix(m: Mode, lines: seq<string>, n: nat, k: nat)
    requires n < |lines| && k <= |Split(Trim(lines[n]), ';')|
    ensures BindingsBefore(m, lines, n, k) <= RoutedBindings(m, lines)
  {
    var at := RouteLines(m, lines[..n]).mode;
    assert lines == lines[..n] + ([lines[n]] + lines[n + 1..]);
    RoutedBindingsAppend(m, lines[..n], [lines[n]] + lines[n + 1..]);
    assert ([lines[n]] + lines[n + 1..])[0] == lines[n] && ([lines[n]] + lines[n + 1..])[1..] == lines[n + 1..];
    DeclBindingsSplit(Split(Trim(lines[n]), ';'), k);
  }

  /** Every record `parse` returns is the parse of declaration `k` of some line `n`
      under the bindings made before that declaration, inserted in document order:
      a `$env:` reference sees the last binding of its name made before the element. */
  lemma ParseElementEnv(lines: seq<string>, recs: seq<Record>, j: nat) returns (n: nat, k: nat)
    requires ParseLines(lines) == Ok(recs) && j < |recs|
    ensures n < |lines| && k < |Split(Trim(lines[n]), ';')|
    ensures BodyElement(Trim(Split(Trim(lines[n]), ';')[k]),
      InsertAll(map[], BindingsBefore(Mode(false, false, map[]), lines, n, k))) == Ok(recs[j])
  {
    ParseRecords(lines, recs);
    n, k := RouteLinesItems(Mode(false, false, map[]), lines, j);
  }
}
