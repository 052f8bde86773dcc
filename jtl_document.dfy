/** `parse`: the line scan with its two mode flags, the environment it collects and the
    element records it produces. */
module JtlDocument {
  import opened Text
  import opened Bindings
  import opened JtlCommon
  import opened JtlElement

  /** The state of the scan: the two independent flags, the environment and the records. */
  datatype Scan = Scan(inEnv: bool, inBody: bool, env: Env, out: seq<Record>)

  const Initial := Scan(false, false, map[], [])

  /** A body declaration: too short below five UTF-8 bytes, otherwise `parse_element`. */
  function BodyElement(decl: string, env: Env): Result<Record> {
    if Utf8Len(decl) < 5 then Err(TooShort) else ElementSpec(decl, env)
  }

  /** One declaration of a split line (untrimmed, as `split(';')` gives it). */
  function DeclStep(st: Scan, raw: string): Result<Scan> {
    var decl := Trim(raw);
    if decl == [] || StartsWith(decl, LineComment) then Ok(st)
    else if st.inEnv && StartsWith(decl, EnvDeclPrefix) then Ok(st.(env := Bind(st.env, decl[3..])))
    else if st.inBody && StartsWith(decl, ">") then
      var rec :- BodyElement(decl, st.env);
      Ok(st.(out := st.out + [rec]))
    else Ok(st)
  }

  /** The declarations of one line, in order; the first error stops the scan. */
  function DeclsRun(st: Scan, decls: seq<string>): Result<Scan>
    decreases |decls|
  {
    if decls == [] then Ok(st)
    else
      var next :- DeclStep(st, decls[0]);
      DeclsRun(next, decls[1..])
  }

  /** One line: skipped, a marker (compared after trimming), or declarations. */
  function LineStep(st: Scan, raw: string): Result<Scan> {
    var line := Trim(raw);
    if IsSkipped(line) then Ok(st)
    else if line == EnvMarker then Ok(st.(inEnv := true))
    else if line == BeginMarker then Ok(st.(inEnv := false, inBody := true))
    else if line == EndMarker then Ok(st.(inBody := false))
    else DeclsRun(st, Split(line, ';'))
  }

  function LinesRun(st: Scan, lines: seq<string>): Result<Scan>
    decreases |lines|
  {
    if lines == [] then Ok(st)
    else
      var next :- LineStep(st, lines[0]);
      LinesRun(next, lines[1..])
  }

  /** What `parse` returns for a document given as its lines. */
  function ParseLines(lines: seq<string>): Result<seq<Record>> {
    if !HasDoctype(lines) then Err(MissingDoctype)
    else
      var st :- LinesRun(Initial, lines);
      Ok(st.out)
  }

  /** What `parse` returns for `text`. */
  function ParseSpec(text: string): Result<seq<Record>> {
    ParseLines(Lines(text))
  }

  /** One declaration of a non-marker line: the body of the inner loop of `parse`. */
  method ParseDeclaration(st: Scan, raw: string) returns (r: Result<Scan>)
    ensures r == DeclStep(st, raw)
  {
    var decl := Trim(raw);
    if decl == [] || StartsWith(decl, LineComment) {
      r := Ok(st);
    } else if st.inEnv && StartsWith(decl, EnvDeclPrefix) {
      var content := decl[3..];
      var eqIndex := Find(content, '=');
      if eqIndex.Some? {
        var varName := Trim(content[..eqIndex.value]);
        var varValue := Trim(content[eqIndex.value + 1..]);
        assert EnvBinding(content) == Some(Binding(varName, varValue));
        BindMakes(st.env, content, Binding(varName, varValue));
        r := Ok(st.(env := st.env[varName := varValue]));
      } else {
        r := Ok(st);
      }
    } else if st.inBody && StartsWith(decl, ">") {
      if Utf8Len(decl) < 5 {
        r := Err(TooShort);
      } else {
        var element := ParseElement(decl, st.env);
        if element.Err? {
          r := Err(element.error);
        } else {
          r := Ok(st.(out := st.out + [element.value]));
        }
      }
    } else {
      r := Ok(st);
    }
  }

  /** The declarations of one non-marker line, in order; the first error stops `parse`. */
  method ParseDeclarations(st: Scan, declarations: seq<string>) returns (r: Result<Scan>)
    ensures r == DeclsRun(st, declarations)
  {
    var cur := st;
    var j := 0;
    while j < |declarations|
      invariant 0 <= j <= |declarations|
      invariant DeclsRun(st, declarations) == DeclsRun(cur, declarations[j..])
    {
      assert DeclsRun(cur, declarations[j..])
        == (var next :- DeclStep(cur, declarations[j]); DeclsRun(next, declarations[j + 1..]));
      var next := ParseDeclaration(cur, declarations[j]);
      if next.Err? {
        return Err(next.error);
      }
      cur := next.value;
      j := j + 1;
    }
    return Ok(cur);
  }

  /** One line of the document: skipped, a marker, or declarations; the body of the
      outer loop of `parse`. */
  method ParseLine(st: Scan, raw: string) returns (r: Result<Scan>)
    ensures r == LineStep(st, raw)
  {
    var line := Trim(raw);
    if line == [] || StartsWith(line, "/*") || StartsWith(line, "*/") || StartsWith(line, LineComment) {
      return Ok(st);
    }
    if line == EnvMarker {
      return Ok(st.(inEnv := true));
    }
    if line == BeginMarker {
      return Ok(st.(inEnv := false, inBody := true));
    }
    if line == EndMarker {
      return Ok(st.(inBody := false));
    }
    r := ParseDeclarations(st, Split(line, ';'));
  }

  /** `parse(text)`. */
  method Parse(text: string) returns (r: Result<seq<Record>>)
    ensures r == ParseSpec(text)
  {
    var lines := Lines(text);
    if |lines| == 0 || !Contains(lines[0], Doctype) {
      return Err(MissingDoctype);
    }
    var st := Initial;
    var i := 0;
    while i < |lines|
      invariant 0 <= i <= |lines|
      invariant LinesRun(Initial, lines) == LinesRun(st, lines[i..])
    {
      assert LinesRun(st, lines[i..]) == (var next :- LineStep(st, lines[i]); LinesRun(next, lines[i + 1..]));
      var next := ParseLine(st, lines[i]);
      if next.Err? {
        return Err(next.error);
      }
      st := next.value;
      i := i + 1;
    }
    return Ok(st.out);
  }
}
