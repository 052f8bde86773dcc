/** What `parse_env` promises: the doctype gate it shares with `parse`, that it reads
    nothing after the first `>>>BEGIN;` line, that skipped lines are inert, and that the
    environment it returns is the bindings of the environment lines inserted in order,
    so that a later binding of a name overwrites an earlier one. */
module JtlEnvFacts {
  import opened Text
  import opened Bindings
  import opened JtlCommon
  import opened JtlDocument
  import opened JtlDocumentFacts
  import opened JtlEnv

  /** `parse` and `parse_env` reject exactly the same documents for a missing doctype,
      and `parse_env` fails in no other way. */
  lemma ParseEnvDoctype(lines: seq<string>)
    ensures ParseEnvLines(lines).Err? <==> !HasDoctype(lines)
    ensures ParseEnvLines(lines) == Err(MissingDoctype) <==> ParseLines(lines) == Err(MissingDoctype)
  {
    ParseDoctype(lines);
  }

  /** The scan of a line followed by more lines. */
  lemma EnvLinesCons(inEnv: bool, env: Env, line: string, rest: seq<string>)
    ensures EnvLines(inEnv, env, [line] + rest) == match EnvLine(inEnv, env, line)
      case None => env
      case Some(next) => EnvLines(next.0, next.1, rest)
  {
    assert ([line] + rest)[0] == line && ([line] + rest)[1..] == rest;
  }

  /** Nothing after the first `>>>BEGIN;` line (whatever surrounds it) is read. */
  lemma {:induction false} EnvStopsAtBegin(inEnv: bool, env: Env, a: seq<string>, line: string, c: seq<string>)
    requires Trim(line) == BeginMarker
    ensures EnvLines(inEnv, env, a + [line] + c) == EnvLines(inEnv, env, a + [line])
    decreases |a|
  {
    if a == [] {
      assert a + [line] + c == [line] + c && a + [line] == [line] + [];
      assert BeginMarker[0] == '>' && BeginMarker[1] == '>';
      assert EnvLine(inEnv, env, line) == None;
      EnvLinesCons(inEnv, env, line, c);
      EnvLinesCons(inEnv, env, line, []);
    } else {
      assert a + [line] + c == [a[0]] + (a[1..] + [line] + c);
      assert a + [line] == [a[0]] + (a[1..] + [line]);
      EnvLinesCons(inEnv, env, a[0], a[1..] + [line] + c);
      EnvLinesCons(inEnv, env, a[0], a[1..] + [line]);
      match EnvLine(inEnv, env, a[0])
      case None =>
      case Some(next) => EnvStopsAtBegin(next.0, next.1, a[1..], line, c);
    }
  }

  /** A line that is empty or a comment after trimming changes nothing. */
  lemma {:induction false} EnvSkippedLine(inEnv: bool, env: Env, a: seq<string>, line: string, b: seq<string>)
    requires IsSkipped(Trim(line))
    ensures EnvLines(inEnv, env, a + [line] + b) == EnvLines(inEnv, env, a + b)
    decreases |a|
  {
    if a == [] {
      assert a + [line] + b == [line] + b && a + b == b;
      assert EnvLine(inEnv, env, line) == Some((inEnv, env));
      EnvLinesCons(inEnv, env, line, b);
    } else {
      assert a + [line] + b == [a[0]] + (a[1..] + [line] + b);
      assert a + b == [a[0]] + (a[1..] + b);
      EnvLinesCons(inEnv, env, a[0], a[1..] + [line] + b);
      EnvLinesCons(inEnv, env, a[0], a[1..] + b);
      match EnvLine(inEnv, env, a[0])
      case None =>
      case Some(next) => EnvSkippedLine(next.0, next.1, a[1..], line, b);
    }
  }

  /** A skipped line anywhere after the first leaves `parse_env`'s result unchanged. */
  lemma SkippedLineIgnoredByEnv(a: seq<string>, line: string, b: seq<string>)
    requires |a| >= 1 && IsSkipped(Trim(line))
    ensures ParseEnvLines(a + [line] + b) == ParseEnvLines(a + b)
  {
    assert (a + [line] + b)[0] == a[0] && (a + b)[0] == a[0];
    EnvSkippedLine(false, map[], a, line, b);
  }

  /** One environment line binds what its declarations bind, in order: the same rule
      `parse` applies in environment mode. */
  lemma {:induction false} EnvDeclsBinds(env: Env, decls: seq<string>)
    ensures EnvDecls(env, decls) == InsertAll(env, DeclBindings(decls))
    decreases |decls|
  {
    if decls != [] {
      var decl := Trim(decls[0]);
      var next := if StartsWith(decl, EnvDeclPrefix) then Bind(env, decl[3..]) else env;
      EnvDeclsBinds(next, decls[1..]);
      if DeclBinding(decls[0]) != [] {
        InsertAllCons(env, DeclBinding(decls[0])[0], DeclBindings(decls[1..]));
      } else {
        assert DeclBindings(decls) == DeclBindings(decls[1..]);
        assert next == env;
      }
    }
  }

  /** The bindings one line of `parse_env` reads. It takes the same case split as
      `JtlEnv.EnvLine`, and `EnvLineBinds` below holds the two together. */
  function EnvLineBindings(inEnv: bool, raw: string): seq<Binding> {
    var line := Trim(raw);
    if !IsSkipped(line) && line != EnvMarker && line != BeginMarker && inEnv && StartsWith(line, EnvDeclPrefix)
    then DeclBindings(Split(line, ';'))
    else []
  }

  /** The bindings `parse_env` reads, in document order. */
  function EnvBindings(inEnv: bool, lines: seq<string>): seq<Binding>
    decreases |lines|
  {
    if lines == [] then []
    else
      match EnvLine(inEnv, map[], lines[0])
      case None => []
      case Some(next) => EnvLineBindings(inEnv, lines[0]) + EnvBindings(next.0, lines[1..])
  }

  /** One line inserts the bindings it reads; the flag it leaves does not depend on the
      environment. */
  lemma EnvLineBinds(inEnv: bool, env: Env, raw: string)
    ensures EnvLine(inEnv, env, raw).None? <==> EnvLine(inEnv, map[], raw).None?
    ensures EnvLine(inEnv, env, raw).Some? ==>
      EnvLine(inEnv, env, raw).value.0 == EnvLine(inEnv, map[], raw).value.0
      && EnvLine(inEnv, env, raw).value.1 == InsertAll(env, EnvLineBindings(inEnv, raw))
  {
    var line := Trim(raw);
    if !IsSkipped(line) && line != EnvMarker && line != BeginMarker && inEnv && StartsWith(line, EnvDeclPrefix) {
      EnvDeclsBinds(env, Split(line, ';'));
    }
  }

  /** `parse_env` inserts the bindings it reads, in document order. */
  lemma {:induction false} EnvLinesBinds(inEnv: bool, env: Env, lines: seq<string>)
    ensures EnvLines(inEnv, env, lines) == InsertAll(env, EnvBindings(inEnv, lines))
    decreases |lines|
  {
    if lines != [] {
      EnvLineBinds(inEnv, env, lines[0]);
      match EnvLine(inEnv, env, lines[0])
      case None =>
      case Some(next) =>
        var line := EnvLineBindings(inEnv, lines[0]);
        EnvLinesBinds(next.0, next.1, lines[1..]);
        InsertAllAppend(env, line, EnvBindings(next.0, lines[1..]));
    }
  }

  /** On a document with the doctype, a name read by `parse_env` gets the value of its
      last binding. */
  lemma ParseEnvLastWins(lines: seq<string>, j: nat)
    requires HasDoctype(lines)
    requires var bs := EnvBindings(false, lines);
      j < |bs| && forall k :: j < k < |bs| ==> bs[k].name != bs[j].name
    ensures var bs := EnvBindings(false, lines);
      ParseEnvLines(lines).Ok? && bs[j].name in ParseEnvLines(lines).value
      && ParseEnvLines(lines).value[bs[j].name] == bs[j].value
  {
    EnvLinesBinds(false, map[], lines);
    InsertAllLastWins(map[], EnvBindings(false, lines), j);
  }

  /** The names `parse_env` binds are exactly the names of the bindings it reads. */
  lemma ParseEnvKeys(lines: seq<string>)
    requires HasDoctype(lines)
    ensures ParseEnvLines(lines).Ok? && ParseEnvLines(lines).value.Keys == Names(EnvBindings(false, lines))
  {
    EnvLinesBinds(false, map[], lines);
    InsertAllKeys(map[], EnvBindings(false, lines));
  }
}
