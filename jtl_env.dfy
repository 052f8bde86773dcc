/** `parse_env`: the environment-only scan, which reads `>>>name=value` declarations on
    lines starting with `>>>` inside an environment section and stops at the first
    `>>>BEGIN;` line. */
module JtlEnv {
  import opened Text
  import opened Bindings
  import opened JtlCommon

  /** The declarations of one environment line: each one starting with `>>>` (once
      trimmed) binds its name; an empty or comment declaration is not singled out. */
  function EnvDecls(env: Env, decls: seq<string>): Env
    decreases |decls|
  {
    if decls == [] then env
    else
      var decl := Trim(decls[0]);
      var next := if StartsWith(decl, EnvDeclPrefix) then Bind(env, decl[3..]) else env;
      EnvDecls(next, decls[1..])
  }

  /** One line of `parse_env`: the new flag and environment, or nothing at the line
      `>>>BEGIN;`, where the scan stops. */
  function EnvLine(inEnv: bool, env: Env, raw: string): Option<(bool, Env)> {
    var line := Trim(raw);
    if IsSkipped(line) then Some((inEnv, env))
    else if line == EnvMarker then Some((true, env))
    else if line == BeginMarker then None
    else if inEnv && StartsWith(line, EnvDeclPrefix) then Some((inEnv, EnvDecls(env, Split(line, ';'))))
    else Some((inEnv, env))
  }

  /** The scan of `parse_env` from a given flag and environment. */
  function EnvLines(inEnv: bool, env: Env, lines: seq<string>): Env
    decreases |lines|
  {
    if lines == [] then env
    else
      match EnvLine(inEnv, env, lines[0])
      case None => env
      case Some(next) => EnvLines(next.0, next.1, lines[1..])
  }

  /** What `parse_env` returns for a document given as its lines. */
  function ParseEnvLines(lines: seq<string>): Result<Env> {
    if !HasDoctype(lines) then Err(MissingDoctype) else Ok(EnvLines(false, map[], lines))
  }

  /** What `parse_env` returns for `text`. */
  function ParseEnvSpec(text: string): Result<Env> {
    ParseEnvLines(Lines(text))
  }

  /** The inner loop of `parse_env`: the declarations of one environment line. */
  method BindDeclarations(env: Env, declarations: seq<string>) returns (r: Env)
    ensures r == EnvDecls(env, declarations)
  {
    r := env;
    var j := 0;
    while j < |declarations|
      invariant 0 <= j <= |declarations|
      invariant EnvDecls(env, declarations) == EnvDecls(r, declarations[j..])
    {
      var decl := Trim(declarations[j]);
      ghost var before := r;
      if StartsWith(decl, EnvDeclPrefix) {
        var content := decl[3..];
        var eqIndex := Find(content, '=');
        if eqIndex.Some? {
          var varName := Trim(content[..eqIndex.value]);
          var varValue := Trim(content[eqIndex.value + 1..]);
          assert EnvBinding(content) == Some(Binding(varName, varValue));
          BindMakes(r, content, Binding(varName, varValue));
          r := r[varName := varValue];
        }
      }
      assert EnvDecls(before, declarations[j..]) == EnvDecls(r, declarations[j + 1..]);
      j := j + 1;
    }
  }

  /** `parse_env(text)`. */
  method ParseEnv(text: string) returns (r: Result<Env>)
    ensures r == ParseEnvSpec(text)
  {
    var lines := Lines(text);
    if |lines| == 0 || !Contains(lines[0], Doctype) {
      return Err(MissingDoctype);
    }
    var envMap: Env := map[];
    var inEnv := false;
    var i := 0;
    while i < |lines|
      invariant 0 <= i <= |lines|
      invariant EnvLines(false, map[], lines) == EnvLines(inEnv, envMap, lines[i..])
    {
      var line := Trim(lines[i]);
      ghost var flag, before := inEnv, envMap;
      assert EnvLines(flag, before, lines[i..]) == (
        match EnvLine(flag, before, lines[i])
        case None => before
        case Some(next) => EnvLines(next.0, next.1, lines[i + 1..]));
      i := i + 1;
      if line == [] || StartsWith(line, "/*") || StartsWith(line, "*/") || StartsWith(line, LineComment) {
        continue;
      }
      if line == EnvMarker {
        inEnv := true;
        continue;
      }
      if line == BeginMarker {
        break;
      }
      if inEnv && StartsWith(line, EnvDeclPrefix) {
        envMap := BindDeclarations(envMap, Split(line, ';'));
      }
    }
    return Ok(envMap);
  }
}
