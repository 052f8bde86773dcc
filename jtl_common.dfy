/** What the JTL document parser, the element parser and the environment extractor
    share: the error kinds, the result type, the structural markers and the rule that
    turns a `>>>name=value` declaration into a binding. */
module JtlCommon {
  import opened Text
  import opened Bindings

  /** The error kinds of `src/lib.rs`, each with the message it carries there. */
  datatype Error =
    | MissingDoctype
    | MissingPrefix
    | MissingSeparator
    | NoAttributes
    | MalformedContent
    | TooShort

  function Message(e: Error): string {
    match e
    case MissingDoctype => "invalid JTL document: missing DOCTYPE"
    case MissingPrefix => "invalid element format: missing '>' prefix"
    case MissingSeparator => "invalid element format: missing separator"
    case NoAttributes => "invalid element format: no attributes found"
    case MalformedContent => "invalid element format: malformed content"
    case TooShort => "invalid element format: too short"
  }

  datatype Result<T> = Ok(value: T) | Err(error: Error) {
    predicate IsFailure() {
      Err?
    }

    function PropagateFailure<U>(): Result<U>
      requires Err?
    {
      Err(error)
    }

    function Extract(): T
      requires Ok?
    {
      value
    }
  }

  /** One element record: attribute names and the reserved keys to string values. */
  type Record = map<string, string>

  /** The environment: variable names to values. */
  type Env = map<string, string>

  const Doctype := "DOCTYPE=JTL"
  const EnvMarker := ">>>ENV;"
  const BeginMarker := ">>>BEGIN;"
  const EndMarker := ">>>END;"
  const LineComment := ">//>"
  const EnvDeclPrefix := ">>>"

  /** The document is accepted only when it has a first line and that line holds the doctype. */
  predicate HasDoctype(lines: seq<string>) {
    |lines| > 0 && Contains(lines[0], Doctype)
  }

  /** A trimmed line that is skipped in every mode: blank, or a comment. */
  predicate IsSkipped(line: string) {
    line == [] || StartsWith(line, "/*") || StartsWith(line, "*/") || StartsWith(line, LineComment)
  }

  /** The binding a `>>>` declaration makes, given what follows the prefix: split at the
      first `=`, both sides trimmed; nothing when there is no `=`. */
  function EnvBinding(content: string): Option<Binding> {
    match Find(content, '=')
    case None => None
    case Some(i) => Some(Binding(Trim(content[..i]), Trim(content[i + 1..])))
  }

  /** `env` after the declaration `>>>` + `content`. */
  function Bind(env: Env, content: string): Env {
    match EnvBinding(content)
    case None => env
    case Some(b) => env[b.name := b.value]
  }

  /** The binding a declaration of an environment section makes, once trimmed: one when
      it starts with `>>>` and holds `=`, none otherwise. */
  function DeclBinding(raw: string): seq<Binding> {
    var decl := Trim(raw);
    if StartsWith(decl, EnvDeclPrefix) then
      match EnvBinding(decl[3..])
      case None => []
      case Some(b) => [b]
    else []
  }

  /** The bindings of a line's declarations, in order. */
  function DeclBindings(decls: seq<string>): seq<Binding>
    decreases |decls|
  {
    if decls == [] then [] else DeclBinding(decls[0]) + DeclBindings(decls[1..])
  }

  /** The environment after a declaration that makes the binding `b`. */
  lemma BindMakes(env: Env, content: string, b: Binding)
    requires EnvBinding(content) == Some(b)
    ensures Bind(env, content) == env[b.name := b.value]
  {
  }

  /** A name without `=`, then `=`, then any value: the binding is the trimmed name to
      the trimmed value, even when the value holds further `=` signs. */
  lemma EnvBindingSplitsAtFirstEquals(name: string, value: string)
    requires '=' !in name
    ensures EnvBinding(name + "=" + value) == Some(Binding(Trim(name), Trim(value)))
  {
    var content := name + "=" + value;
    assert content[|name|] == '=';
    assert content[..|name|] == name;
    assert content[|name| + 1..] == value;
  }

  /** A declaration without `=` binds nothing. */
  lemma EnvBindingNeedsEquals(content: string)
    ensures EnvBinding(content).None? <==> '=' !in content
  {
  }
}
