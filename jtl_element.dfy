/** `parse_element`: one body declaration `>attrs>id>content[;]` to an element record. */
module JtlElement {
  import opened Text
  import opened Bindings
  import opened JtlCommon
  import AttrScan

  const EnvRefPrefix := "$env:"

  /** Environment substitution: content that starts with `$env:` names a variable (all
      leading copies of the prefix removed); a bound name gives its value, an unbound
      one leaves the content as it was. */
  function Substitute(content: string, env: Env): string {
    if StartsWith(content, EnvRefPrefix) then
      var name := TrimStartMatches(content, EnvRefPrefix);
      if name in env then env[name] else content
    else content
  }

  /** The record of one element: the attributes in order, then the reserved keys. */
  function MakeRecord(attrs: seq<Binding>, id: string, content: string): Record {
    InsertAll(map[], attrs)["KEY" := id]["Content" := content]["Contents" := content]
  }

  predicate IsReserved(k: string) {
    k == "KEY" || k == "Content" || k == "Contents"
  }

  /** The content part with one trailing `;` removed. */
  function StripSemicolon(s: string): string {
    if |s| > 0 && s[|s| - 1] == ';' then s[..|s| - 1] else s
  }

  /** `splitn(2, '>')` on the content part: the id before the first `>` and the content
      after it, both required to be non-empty. */
  function SplitContent(part: string): Result<(string, string)> {
    match Find(part, '>')
    case None => Err(MalformedContent)
    case Some(k) =>
      if k == 0 || k + 1 == |part| then Err(MalformedContent)
      else Ok((part[..k], part[k + 1..]))
  }

  /** The result `parse_element` gives for `decl` under `env`. */
  function ElementSpec(decl: string, env: Env): Result<Record> {
    if !StartsWith(decl, ">") then Err(MissingPrefix)
    else
      var rest := decl[1..];
      match Find(rest, '>')
      case None => Err(MissingSeparator)
      case Some(sep) =>
        var attrs := AttrScan.Captures(rest);
        if attrs == [] then Err(NoAttributes)
        else
          var parts :- SplitContent(StripSemicolon(rest[sep + 1..]));
          Ok(MakeRecord(attrs, parts.0, Substitute(parts.1, env)))
  }

  /** The loop of `parse_element` that inserts each capture, in order, into the record. */
  method InsertCaptures(captures: seq<Binding>) returns (elementMap: Record)
    ensures elementMap == InsertAll(map[], captures)
  {
    elementMap := map[];
    var i := 0;
    while i < |captures|
      invariant 0 <= i <= |captures|
      invariant elementMap == InsertAll(map[], captures[..i])
    {
      assert captures[..i + 1][..i] == captures[..i];
      elementMap := elementMap[captures[i].name := captures[i].value];
      i := i + 1;
    }
    assert captures[..i] == captures;
  }

  /** `parse_element(line, env)`. */
  method ParseElement(line: string, env: Env) returns (r: Result<Record>)
    ensures r == ElementSpec(line, env)
  {
    if !StartsWith(line, ">") {
      return Err(MissingPrefix);
    }
    var rest := line[1..];
    var sep := Find(rest, '>');
    if sep.None? {
      return Err(MissingSeparator);
    }
    var captures := AttrScan.Captures(rest);
    if |captures| == 0 {
      return Err(NoAttributes);
    }
    var elementMap := InsertCaptures(captures);
    // the first '>' of `rest` was found above, so `line.find('>')` in `parse_element`
    // (src/lib.rs:100-102, the "missing content separator" error) cannot fail
    var contentPart := rest[sep.value + 1..];
    if |contentPart| > 0 && contentPart[|contentPart| - 1] == ';' {
      contentPart := contentPart[..|contentPart| - 1];
    }
    assert contentPart == StripSemicolon(rest[sep.value + 1..]);
    var split := Find(contentPart, '>');
    if split.None? || split.value == 0 || split.value + 1 == |contentPart| {
      assert SplitContent(contentPart) == Err(MalformedContent);
      return Err(MalformedContent);
    }
    var id := contentPart[..split.value];
    var content := contentPart[split.value + 1..];
    assert SplitContent(contentPart) == Ok((id, content));
    ghost var spec := Ok(MakeRecord(captures, id, Substitute(content, env)));
    assert ElementSpec(line, env) == spec;
    if StartsWith(content, EnvRefPrefix) {
      var name := TrimStartMatches(content, EnvRefPrefix);
      if name in env {
        content := env[name];
      }
    }
    elementMap := elementMap["KEY" := id];
    elementMap := elementMap["Content" := content];
    elementMap := elementMap["Contents" := content];
    return Ok(elementMap);
  }

  // ---------------------------------------------------------------------------
  // What the element parser promises.

  /** Content not starting with `$env:` is kept; `$env:` repeated `n >= 1` times before a
      name (which does not itself start with `$env:`) becomes the name's value when the
      name is bound and stays the literal reference when it is not. */
  lemma SubstituteSpec(n: nat, name: string, env: Env)
    requires n >= 1 && !StartsWith(name, EnvRefPrefix)
    ensures var content := Repeat(EnvRefPrefix, n) + name;
      Substitute(content, env) == if name in env then env[name] else content
  {
    var content := Repeat(EnvRefPrefix, n) + name;
    assert content == EnvRefPrefix + (Repeat(EnvRefPrefix, n - 1) + name);
    StartsWithConcat(EnvRefPrefix, Repeat(EnvRefPrefix, n - 1) + name);
    TrimStartMatchesRepeat(EnvRefPrefix, n, name);
  }

  lemma SubstituteKeepsPlainContent(content: string, env: Env)
    requires !StartsWith(content, EnvRefPrefix)
    ensures Substitute(content, env) == content
  {
  }

  /** Every content starting with `$env:` has the shape `SubstituteSpec` describes: `n`
      copies of the prefix, for the `n >= 1` returned, before the name. */
  lemma SubstituteShapes(content: string) returns (n: nat)
    requires StartsWith(content, EnvRefPrefix)
    ensures n >= 1 && content == Repeat(EnvRefPrefix, n) + TrimStartMatches(content, EnvRefPrefix)
  {
    n := TrimStartMatchesRemovesCopies(content, EnvRefPrefix);
    TrimStartMatchesSpec(content, EnvRefPrefix);
  }

  /** A record holds the attribute names and the three reserved keys; `KEY` is the id,
      `Content` and `Contents` both the content, and every other attribute has the value
      of its last capture. */
  lemma {:induction false} RecordShape(attrs: seq<Binding>, id: string, content: string)
    ensures var r := MakeRecord(attrs, id, content);
      && r.Keys == Names(attrs) + {"KEY", "Content", "Contents"}
      && r["KEY"] == id && r["Content"] == content && r["Contents"] == content
      && (forall j :: 0 <= j < |attrs| && !IsReserved(attrs[j].name)
            && (forall k :: j < k < |attrs| ==> attrs[k].name != attrs[j].name)
            ==> r[attrs[j].name] == attrs[j].value)
  {
    InsertAllKeys(map[], attrs);
    forall j | 0 <= j < |attrs| && !IsReserved(attrs[j].name)
        && (forall k :: j < k < |attrs| ==> attrs[k].name != attrs[j].name)
      ensures MakeRecord(attrs, id, content)[attrs[j].name] == attrs[j].value
    {
      InsertAllLastWins(map[], attrs, j);
    }
  }

  /** A declaration not starting with `>` fails with `MissingPrefix`. */
  lemma ElementMissingPrefix(decl: string, env: Env)
    ensures ElementSpec(decl, env) == Err(MissingPrefix) <==> !StartsWith(decl, ">")
  {
  }

  /** With the prefix, no further `>` gives `MissingSeparator`, and only that. */
  lemma ElementMissingSeparator(decl: string, env: Env)
    requires StartsWith(decl, ">")
    ensures ElementSpec(decl, env) == Err(MissingSeparator) <==> '>' !in decl[1..]
  {
  }

  /** With a separator, `NoAttributes` comes exactly when the pattern `name="value"`
      occurs nowhere in the whole remainder, id and content included. */
  lemma ElementNoAttributes(decl: string, env: Env)
    requires StartsWith(decl, ">") && '>' in decl[1..]
    ensures ElementSpec(decl, env) == Err(NoAttributes)
        <==> !exists i, e, q :: AttrScan.MatchAt(decl[1..], i, e, q)
  {
    AttrScan.CapturesEmptyIff(decl[1..]);
  }

  /** The declaration `>` + `attrs` + `>` + `id` + `>` + `content`, where `attrs` and `id`
      hold no `>`, optionally followed by one `;`. */
  predicate Shaped(decl: string, attrs: string, id: string, content: string, semi: bool) {
    && decl == ">" + attrs + ">" + id + ">" + content + (if semi then ";" else "")
    && '>' !in attrs && '>' !in id
    && (!semi ==> content == [] || content[|content| - 1] != ';')
  }

  /** Splitting `id` + `>` + `content`, where `id` holds no `>`, gives back `id` and
      `content` when both are non-empty. */
  lemma SplitContentOf(id: string, content: string)
    requires '>' !in id
    ensures SplitContent(id + ">" + content)
        == if id == [] || content == [] then Err(MalformedContent) else Ok((id, content))
  {
    var part := id + ">" + content;
    assert part[|id|] == '>' && part[..|id|] == id && part[|id| + 1..] == content;
  }

  /** Removing one trailing `;` from `t` followed by an optional `;` gives `t`, when `t`
      does not itself end in `;` unless the `;` follows. */
  lemma StripSemicolonOf(t: string, semi: bool)
    requires !semi ==> t == [] || t[|t| - 1] != ';'
    ensures StripSemicolon(t + (if semi then ";" else "")) == t
  {
    if semi {
      assert (t + ";")[..|t|] == t;
    } else {
      assert t + "" == t;
    }
  }

  /** In a well-shaped declaration the first `>` after the prefix ends `attrs`, and the
      content part (less one `;`) is `id` + `>` + `content`. */
  lemma ShapedParts(decl: string, attrs: string, id: string, content: string, semi: bool)
      returns (part: string)
    requires Shaped(decl, attrs, id, content, semi)
    ensures StartsWith(decl, ">") && Find(decl[1..], '>') == Some(|attrs|)
    ensures part == StripSemicolon(decl[1..][|attrs| + 1..]) && part == id + ">" + content
  {
    part := id + ">" + content;
    var tail := part + (if semi then ";" else "");
    assert decl == ">" + (attrs + ">" + tail);
    assert decl[1..] == attrs + ">" + tail;
    FindAt(attrs, '>', tail);
    if !semi && content == [] {
      assert part[|part| - 1] == '>';
    } else if !semi {
      assert part[|part| - 1] == content[|content| - 1];
    }
    StripSemicolonOf(part, semi);
  }

  /** A well-shaped declaration with at least one attribute, a non-empty id and a
      non-empty content gives the record of its captures, its id and its substituted
      content; the content may hold further `>` characters. */
  lemma ElementAccepts(decl: string, attrs: string, id: string, content: string, semi: bool, env: Env)
    requires Shaped(decl, attrs, id, content, semi) && id != [] && content != []
    requires AttrScan.Captures(decl[1..]) != []
    ensures ElementSpec(decl, env) == Ok(MakeRecord(AttrScan.Captures(decl[1..]), id, Substitute(content, env)))
  {
    var part := ShapedParts(decl, attrs, id, content, semi);
    SplitContentOf(id, content);
  }

  /** A well-shaped declaration with an empty id or an empty content is malformed. */
  lemma ElementRejectsEmptyPart(decl: string, attrs: string, id: string, content: string, semi: bool, env: Env)
    requires Shaped(decl, attrs, id, content, semi) && (id == [] || content == [])
    requires AttrScan.Captures(decl[1..]) != []
    ensures ElementSpec(decl, env) == Err(MalformedContent)
  {
    var part := ShapedParts(decl, attrs, id, content, semi);
    SplitContentOf(id, content);
  }

  /** A declaration with a separator and attributes whose part after the first `>`
      (less one `;`) has no second `>` is malformed. */
  lemma ElementRejectsMissingId(decl: string, attrs: string, tail: string, env: Env)
    requires decl == ">" + attrs + ">" + tail && '>' !in attrs && '>' !in StripSemicolon(tail)
    requires AttrScan.Captures(decl[1..]) != []
    ensures ElementSpec(decl, env) == Err(MalformedContent)
  {
    assert decl[1..] == attrs + ">" + tail;
    FindAt(attrs, '>', tail);
  }

  /** Removing one trailing `;` and putting it back gives the text again. */
  lemma StripSemicolonSplit(s: string)
    ensures s == StripSemicolon(s) + (if |StripSemicolon(s)| < |s| then ";" else "")
    ensures |StripSemicolon(s)| == |s| ==> s == [] || s[|s| - 1] != ';'
  {
  }

  /** The pieces of a declaration, related as the element parser finds them, make it
      well shaped. */
  lemma ShapedFromParts(decl: string, attrs: string, tail: string, part: string, id: string, content: string, semi: bool)
    requires |decl| > 0 && decl[0] == '>'
    requires decl[1..] == attrs + ">" + tail && '>' !in attrs
    requires tail == part + (if semi then ";" else "") && (!semi ==> tail == [] || tail[|tail| - 1] != ';')
    requires part == id + ">" + content && '>' !in id
    ensures Shaped(decl, attrs, id, content, semi)
  {
    assert decl == [decl[0]] + decl[1..];
    if !semi && content != [] {
      assert content[|content| - 1] == tail[|tail| - 1];
    }
  }

  /** Every accepted declaration is well shaped with a non-empty id and content, and its
      record is the one `ElementAccepts` gives: that lemma describes every record the
      element parser produces. */
  lemma ElementOkIsShaped(decl: string, env: Env) returns (attrs: string, id: string, content: string, semi: bool)
    requires ElementSpec(decl, env).Ok?
    ensures Shaped(decl, attrs, id, content, semi) && id != [] && content != []
    ensures ElementSpec(decl, env) == Ok(MakeRecord(AttrScan.Captures(decl[1..]), id, Substitute(content, env)))
  {
    var rest := decl[1..];
    var sep := Find(rest, '>').value;
    var tail := rest[sep + 1..];
    var part := StripSemicolon(tail);
    assert SplitContent(part).Ok?;
    var k := Find(part, '>').value;
    semi := |part| < |tail|;
    attrs, id, content := rest[..sep], part[..k], part[k + 1..];
    FindSplits(rest, '>');
    FindSplits(part, '>');
    StripSemicolonSplit(tail);
    ShapedFromParts(decl, attrs, tail, part, id, content, semi);
    ElementAccepts(decl, attrs, id, content, semi, env);
  }
}
