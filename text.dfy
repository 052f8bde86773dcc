/** The few operations of Rust's `str` that the JTL parser relies on, over
    `string` (a sequence of Unicode scalar values). */
module Text {

  datatype Option<T> = None | Some(value: T)

  /** Rust's `char::is_whitespace`: the Unicode White_Space property. */
  predicate IsWhitespace(c: char) {
    ('\t' <= c <= '\r') || c == ' ' || c == '\U{85}' || c == '\U{A0}' || c == '\U{1680}'
    || ('\U{2000}' <= c <= '\U{200A}') || c == '\U{2028}' || c == '\U{2029}'
    || c == '\U{202F}' || c == '\U{205F}' || c == '\U{3000}'
  }

  /** `s.starts_with(p)` */
  predicate StartsWith(s: string, p: string) {
    |p| <= |s| && s[..|p|] == p
  }

  /** `s.contains(p)` */
  predicate Contains(s: string, p: string) {
    exists i :: 0 <= i <= |s| && StartsWith(s[i..], p)
  }

  /** Every character of a text that `s` contains is in `s`. */
  lemma ContainsChars(s: string, p: string, k: nat)
    requires Contains(s, p) && k < |p|
    ensures p[k] in s
  {
    var i :| 0 <= i <= |s| && StartsWith(s[i..], p);
    assert s[i + k] == s[i..][..|p|][k];
  }

  /** `s.trim_start()` */
  function TrimStart(s: string): string
    decreases |s|
  {
    if |s| > 0 && IsWhitespace(s[0]) then TrimStart(s[1..]) else s
  }

  /** `s.trim_end()` */
  function TrimEnd(s: string): string
    decreases |s|
  {
    if |s| > 0 && IsWhitespace(s[|s| - 1]) then TrimEnd(s[..|s| - 1]) else s
  }

  /** `s.trim()` */
  function Trim(s: string): string {
    TrimEnd(TrimStart(s))
  }

  /** `TrimStart` removes a run of whitespace from the front and stops at a character
      that is not whitespace. */
  lemma {:induction false} TrimStartSpec(s: string)
    ensures var r := TrimStart(s);
      && |r| <= |s| && r == s[|s| - |r|..]
      && (forall i :: 0 <= i < |s| - |r| ==> IsWhitespace(s[i]))
      && (r == [] || !IsWhitespace(r[0]))
    decreases |s|
  {
    if |s| > 0 && IsWhitespace(s[0]) {
      TrimStartSpec(s[1..]);
    }
  }

  /** `TrimEnd` removes a run of whitespace from the back and stops at a character
      that is not whitespace. */
  lemma {:induction false} TrimEndSpec(s: string)
    ensures var r := TrimEnd(s);
      && |r| <= |s| && r == s[..|r|]
      && (forall i :: |r| <= i < |s| ==> IsWhitespace(s[i]))
      && (r == [] || !IsWhitespace(r[|r| - 1]))
    decreases |s|
  {
    if |s| > 0 && IsWhitespace(s[|s| - 1]) {
      TrimEndSpec(s[..|s| - 1]);
    }
  }

  /** `Trim(s)` is the infix of `s` left after removing all whitespace at both ends:
      `s` is whitespace, then `Trim(s)`, then whitespace, and `Trim(s)` neither starts
      nor ends with whitespace. */
  lemma TrimSpec(s: string) returns (i: nat)
    ensures var r := Trim(s);
      && i + |r| <= |s| && s[i..i + |r|] == r
      && (forall k :: 0 <= k < i ==> IsWhitespace(s[k]))
      && (forall k :: i + |r| <= k < |s| ==> IsWhitespace(s[k]))
      && (r == [] || (!IsWhitespace(r[0]) && !IsWhitespace(r[|r| - 1])))
  {
    var t := TrimStart(s);
    TrimStartSpec(s);
    TrimEndSpec(t);
    i := |s| - |t|;
  }

  /** All of `s` is whitespace. */
  predicate AllWhitespace(s: string) {
    forall k :: 0 <= k < |s| ==> IsWhitespace(s[k])
  }

  /** Whitespace in front of a text that starts with a non-whitespace character is
      exactly what `TrimStart` removes. */
  lemma {:induction false} TrimStartPadded(pre: string, t: string)
    requires AllWhitespace(pre) && t != [] && !IsWhitespace(t[0])
    ensures TrimStart(pre + t) == t
    decreases |pre|
  {
    if pre == [] {
      assert pre + t == t;
    } else {
      assert (pre + t)[1..] == pre[1..] + t;
      TrimStartPadded(pre[1..], t);
    }
  }

  /** Whitespace behind a text that ends with a non-whitespace character is exactly
      what `TrimEnd` removes. */
  lemma {:induction false} TrimEndPadded(t: string, post: string)
    requires AllWhitespace(post) && t != [] && !IsWhitespace(t[|t| - 1])
    ensures TrimEnd(t + post) == t
    decreases |post|
  {
    if post == [] {
      assert t + post == t;
    } else {
      var s := t + post;
      assert s[..|s| - 1] == t + post[..|post| - 1];
      TrimEndPadded(t, post[..|post| - 1]);
    }
  }

  /** `Trim` removes surrounding whitespace and nothing more: a text that neither starts
      nor ends with whitespace is recovered from any padding. */
  lemma TrimPadded(pre: string, t: string, post: string)
    requires AllWhitespace(pre) && AllWhitespace(post)
    requires t != [] && !IsWhitespace(t[0]) && !IsWhitespace(t[|t| - 1])
    ensures Trim(pre + t + post) == t
  {
    assert pre + t + post == pre + (t + post);
    TrimStartPadded(pre, t + post);
    TrimEndPadded(t, post);
  }

  /** `s.find(c)`: the index of the first occurrence of `c`. */
  function Find(s: string, c: char): (r: Option<nat>)
    ensures r.None? <==> c !in s
    ensures r.Some? ==> r.value < |s| && s[r.value] == c && c !in s[..r.value]
    decreases |s|
  {
    if |s| == 0 then None
    else if s[0] == c then Some(0)
    else match Find(s[1..], c)
      case None => None
      case Some(i) =>
        assert s[..i + 1] == [s[0]] + s[1..][..i];
        Some(i + 1)
  }

  /** The text before the first `c`, `c` itself and the text after it make up `s`. */
  lemma FindSplits(s: string, c: char)
    requires Find(s, c).Some?
    ensures s == s[..Find(s, c).value] + [c] + s[Find(s, c).value + 1..]
  {
  }

  /** The pieces of `parts` put back together with `c` between neighbours. */
  function Join(parts: seq<string>, c: char): string
    decreases |parts|
  {
    if |parts| == 0 then ""
    else if |parts| == 1 then parts[0]
    else parts[0] + [c] + Join(parts[1..], c)
  }

  /** `s.split(c)`: the pieces of `s` between occurrences of `c`, never none. */
  function Split(s: string, c: char): (r: seq<string>)
    ensures |r| >= 1
    decreases |s|
  {
    match Find(s, c)
    case None => [s]
    case Some(i) => [s[..i]] + Split(s[i + 1..], c)
  }

  /** No piece of `Split(s, c)` holds `c`, and joining the pieces gives `s` back. */
  lemma {:induction false} SplitJoin(s: string, c: char)
    ensures forall i :: 0 <= i < |Split(s, c)| ==> c !in Split(s, c)[i]
    ensures Join(Split(s, c), c) == s
    decreases |s|
  {
    match Find(s, c)
    case None =>
    case Some(i) =>
      var rest := Split(s[i + 1..], c);
      SplitJoin(s[i + 1..], c);
      assert ([s[..i]] + rest)[1..] == rest;
      assert s == s[..i] + [c] + s[i + 1..];
  }

  /** Text without `c` is one piece. */
  lemma SplitNone(s: string, c: char)
    requires c !in s
    ensures Split(s, c) == [s]
  {
  }

  /** The first `c` after text without `c` is found right behind that text. */
  lemma FindAt(a: string, c: char, b: string)
    requires c !in a
    ensures Find(a + [c] + b, c) == Some(|a|)
    ensures (a + [c] + b)[..|a|] == a && (a + [c] + b)[|a| + 1..] == b
  {
    var s := a + [c] + b;
    assert s[..|a|] == a && s[|a| + 1..] == b && s[|a|] == c;
    assert c in s[..|a| + 1];
  }

  /** A first occurrence of `c` ends the first piece. */
  lemma SplitAt(a: string, c: char, b: string)
    requires c !in a
    ensures Split(a + [c] + b, c) == [a] + Split(b, c)
  {
    FindAt(a, c, b);
  }

  /** Drops one carriage return that stood before a line feed. */
  function DropCr(line: string): string {
    if |line| > 0 && line[|line| - 1] == '\r' then line[..|line| - 1] else line
  }

  /** The lines made of the pieces between line feeds: one `\r` before each line feed
      dropped, and a final empty piece (after a last line feed, or of an empty text)
      not counted. */
  function LinesOf(pieces: seq<string>): seq<string>
    requires |pieces| >= 1
    decreases |pieces|
  {
    if |pieces| == 1 then (if pieces[0] == [] then [] else [pieces[0]])
    else [DropCr(pieces[0])] + LinesOf(pieces[1..])
  }

  /** `text.lines()` */
  function Lines(text: string): seq<string> {
    LinesOf(Split(text, '\n'))
  }

  /** Lines made of pieces without line feeds hold no line feed; there are none exactly
      when the only piece is empty. */
  lemma {:induction false} LinesOfSpec(pieces: seq<string>)
    requires |pieces| >= 1 && forall i :: 0 <= i < |pieces| ==> '\n' !in pieces[i]
    ensures LinesOf(pieces) == [] <==> pieces == [[]]
    ensures forall i :: 0 <= i < |LinesOf(pieces)| ==> '\n' !in LinesOf(pieces)[i]
    decreases |pieces|
  {
    if |pieces| > 1 {
      LinesOfSpec(pieces[1..]);
      var head := pieces[0];
      assert '\n' !in DropCr(head) by {
        if |head| > 0 && head[|head| - 1] == '\r' {
          assert DropCr(head) == head[..|head| - 1];
        }
      }
      var r := LinesOf(pieces);
      assert r == [DropCr(head)] + LinesOf(pieces[1..]);
      assert forall i :: 1 <= i < |r| ==> r[i] == LinesOf(pieces[1..])[i - 1];
    }
  }

  /** A text has no lines exactly when it is empty, and no line holds a line feed. */
  lemma LinesSpec(text: string)
    ensures Lines(text) == [] <==> text == []
    ensures forall i :: 0 <= i < |Lines(text)| ==> '\n' !in Lines(text)[i]
  {
    SplitJoin(text, '\n');
    LinesOfSpec(Split(text, '\n'));
    if Split(text, '\n') == [[]] {
      assert Join(Split(text, '\n'), '\n') == [];
    }
  }

  /** A line without a line feed and not ending in `\r`, then a line feed, is the first
      line of the text, whatever follows. */
  lemma LinesCons(a: string, rest: string)
    requires '\n' !in a && (a == [] || a[|a| - 1] != '\r')
    ensures Lines(a + "\n" + rest) == [a] + Lines(rest)
  {
    SplitAt(a, '\n', rest);
    assert ([a] + Split(rest, '\n'))[1..] == Split(rest, '\n');
  }

  /** A non-empty text without a line feed and not ending in `\r` is one line. */
  lemma LinesOne(a: string)
    requires a != [] && '\n' !in a && a[|a| - 1] != '\r'
    ensures Lines(a) == [a]
  {
    SplitNone(a, '\n');
  }

  /** The number of bytes the UTF-8 encoding of `c` takes. */
  function Utf8Width(c: char): nat {
    if c < '\U{80}' then 1 else if c < '\U{800}' then 2 else if c < '\U{10000}' then 3 else 4
  }

  /** `s.len()`: the length of `s` in UTF-8 bytes. */
  function Utf8Len(s: string): (n: nat)
    ensures n >= |s|
    ensures (forall i :: 0 <= i < |s| ==> s[i] < '\U{80}') ==> n == |s|
    decreases |s|
  {
    if s == [] then 0 else Utf8Width(s[0]) + Utf8Len(s[1..])
  }

  /** `p` written `n` times. */
  function Repeat(p: string, n: nat): string {
    if n == 0 then "" else p + Repeat(p, n - 1)
  }

  /** `s.trim_start_matches(p)`: `s` with every leading repetition of `p` removed. */
  function TrimStartMatches(s: string, p: string): string
    decreases |s|
  {
    if p != [] && StartsWith(s, p) then TrimStartMatches(s[|p|..], p) else s
  }

  /** What is left is a suffix of `s` that no longer starts with `p`. */
  lemma {:induction false} TrimStartMatchesSpec(s: string, p: string)
    ensures var r := TrimStartMatches(s, p);
      |r| <= |s| && r == s[|s| - |r|..] && (p != [] ==> !StartsWith(r, p))
    decreases |s|
  {
    if p != [] && StartsWith(s, p) {
      TrimStartMatchesSpec(s[|p|..], p);
    }
  }

  /** What `TrimStartMatches` removes is `n` copies of `p`, for the `n` returned. */
  lemma {:induction false} TrimStartMatchesRemovesCopies(s: string, p: string) returns (n: nat)
    ensures s == Repeat(p, n) + TrimStartMatches(s, p)
    decreases |s|
  {
    if p != [] && StartsWith(s, p) {
      var t := s[|p|..];
      var m := TrimStartMatchesRemovesCopies(t, p);
      var r := TrimStartMatches(t, p);
      assert TrimStartMatches(s, p) == r;
      calc {
        s;
        p + t;
        p + (Repeat(p, m) + r);
        (p + Repeat(p, m)) + r;
        Repeat(p, m + 1) + r;
      }
      n := m + 1;
    } else {
      n := 0;
      assert s == Repeat(p, 0) + s;
    }
  }

  /** `p + t` starts with `p`, and dropping `|p|` characters from it leaves `t`. */
  lemma StartsWithConcat(p: string, t: string)
    ensures StartsWith(p + t, p) && (p + t)[|p|..] == t
  {
    assert (p + t)[..|p|] == p;
  }

  /** Removing the leading copies of `p` from `n` copies of `p` followed by a text
      that does not start with `p` leaves exactly that text. */
  lemma {:induction false} TrimStartMatchesRepeat(p: string, n: nat, rest: string)
    requires p != [] && !StartsWith(rest, p)
    ensures TrimStartMatches(Repeat(p, n) + rest, p) == rest
  {
    if n > 0 {
      var tail := Repeat(p, n - 1) + rest;
      assert Repeat(p, n) + rest == p + tail;
      StartsWithConcat(p, tail);
      TrimStartMatchesRepeat(p, n - 1, rest);
    }
  }
}
