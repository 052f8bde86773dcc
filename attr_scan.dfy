/** A hand-written scanner for the attribute pattern `(\w+)="([^"]+)"`, with the
    leftmost, non-overlapping match semantics of repeated regex search, and `\w`
    taken as the ASCII word characters. */
module AttrScan {
  import opened Bindings

  /** ASCII `\w`: a letter, a digit or an underscore. */
  predicate IsWordChar(c: char) {
    ('a' <= c <= 'z') || ('A' <= c <= 'Z') || ('0' <= c <= '9') || c == '_'
  }

  /** The end of the run of word characters that starts at `i`. */
  function WordEnd(s: string, i: nat): (e: nat)
    requires i <= |s|
    ensures i <= e <= |s|
    decreases |s| - i
  {
    if i < |s| && IsWordChar(s[i]) then WordEnd(s, i + 1) else i
  }

  /** `WordEnd` ends a run of word characters at a non-word character or the end. */
  lemma {:induction false} WordEndSpec(s: string, i: nat)
    requires i <= |s|
    ensures forall k :: i <= k < WordEnd(s, i) ==> IsWordChar(s[k])
    ensures WordEnd(s, i) == |s| || !IsWordChar(s[WordEnd(s, i)])
    decreases |s| - i
  {
    if i < |s| && IsWordChar(s[i]) {
      WordEndSpec(s, i + 1);
    }
  }

  /** The index of the first `"` at or after `i`, or `|s|` when there is none. */
  function QuoteFrom(s: string, i: nat): (q: nat)
    requires i <= |s|
    ensures i <= q <= |s|
    decreases |s| - i
  {
    if i < |s| && s[i] != '"' then QuoteFrom(s, i + 1) else i
  }

  /** `QuoteFrom` stops at the first quote, or at the end when there is none. */
  lemma {:induction false} QuoteFromSpec(s: string, i: nat)
    requires i <= |s|
    ensures forall k :: i <= k < QuoteFrom(s, i) ==> s[k] != '"'
    ensures QuoteFrom(s, i) == |s| || s[QuoteFrom(s, i)] == '"'
    decreases |s| - i
  {
    if i < |s| && s[i] != '"' {
      QuoteFromSpec(s, i + 1);
    }
  }

  /** The pattern occurs in `s` with the name at `s[i..e]`, `="` at `e`, the value at
      `s[e + 2..q]` and the closing quote at `q`. */
  ghost predicate MatchAt(s: string, i: nat, e: nat, q: nat) {
    i < e && e + 2 < q < |s|
    && (forall k :: i <= k < e ==> IsWordChar(s[k]))
    && s[e] == '=' && s[e + 1] == '"'
    && (forall k :: e + 2 <= k < q ==> s[k] != '"')
    && s[q] == '"'
  }

  /** A captured attribute: a non-empty word and a non-empty value without quotes. */
  predicate WellFormed(b: Binding) {
    b.name != [] && (forall k :: 0 <= k < |b.name| ==> IsWordChar(b.name[k]))
    && b.value != [] && '"' !in b.value
  }

  /** The captures of the pattern in `s[i..]`, in order. At a word character the only
      possible match is the whole word run followed by `="`, a value and a quote;
      after a match the search resumes behind its closing quote, and after a run
      that does not match, behind the run. */
  function CapturesFrom(s: string, i: nat): seq<Binding>
    requires i <= |s|
    decreases |s| - i
  {
    if i == |s| then []
    else if !IsWordChar(s[i]) then CapturesFrom(s, i + 1)
    else
      var e := WordEnd(s, i);
      if e + 1 < |s| && s[e] == '=' && s[e + 1] == '"' then
        var q := QuoteFrom(s, e + 2);
        if e + 2 < q < |s| then
          [Binding(s[i..e], s[e + 2..q])] + CapturesFrom(s, q + 1)
        else CapturesFrom(s, e)
      else CapturesFrom(s, e)
  }

  /** `captures_iter(s)`, each capture as its name and value groups. */
  function Captures(s: string): seq<Binding> {
    CapturesFrom(s, 0)
  }

  /** When the scan from `p` captures anything, the pattern occurs at or after `p`.
      `CaptureIsMatch` ties each single capture to its occurrence. */
  lemma {:induction false} CapturesFromSound(s: string, p: nat)
    requires p <= |s| && CapturesFrom(s, p) != []
    ensures exists i, e, q :: p <= i && MatchAt(s, i, e, q)
    decreases |s| - p
  {
    if !IsWordChar(s[p]) {
      CapturesFromSound(s, p + 1);
    } else {
      var e := WordEnd(s, p);
      if e + 1 < |s| && s[e] == '=' && s[e + 1] == '"' && e + 2 < QuoteFrom(s, e + 2) < |s| {
        MatchAtScanned(s, p, e, QuoteFrom(s, e + 2));
      } else {
        CapturesFromSound(s, e);
      }
    }
  }

  /** An occurrence as the scanner finds it: the whole word run from `i`, then `="`, a
      non-empty value and the first quote after it. */
  predicate ScannedMatch(s: string, i: nat, e: nat, q: nat) {
    i < |s| && IsWordChar(s[i]) && e <= |s| && WordEnd(s, i) == e
    && e + 1 < |s| && s[e] == '=' && s[e + 1] == '"'
    && QuoteFrom(s, e + 2) == q && e + 2 < q < |s|
  }

  /** What the scanner takes for an occurrence is one. */
  lemma MatchAtScanned(s: string, i: nat, e: nat, q: nat)
    requires ScannedMatch(s, i, e, q)
    ensures MatchAt(s, i, e, q)
  {
    WordEndSpec(s, i);
    QuoteFromSpec(s, e + 2);
  }

  /** Indexing a list that starts with `b`. */
  lemma ConsIndex(cs: seq<Binding>, b: Binding, rest: seq<Binding>, k: nat)
    requires cs == [b] + rest && k < |cs|
    ensures k == 0 ==> cs[k] == b
    ensures k > 0 ==> k - 1 < |rest| && cs[k] == rest[k - 1]
  {
  }

  /** The `k`-th capture from `p` on comes from an occurrence the scanner finds. */
  lemma {:induction false} CaptureIsScanned(s: string, p: nat, k: nat) returns (i: nat, e: nat, q: nat)
    requires p <= |s| && k < |CapturesFrom(s, p)|
    ensures p <= i && ScannedMatch(s, i, e, q) && CapturesFrom(s, p)[k] == Binding(s[i..e], s[e + 2..q])
    decreases |s| - p, 1
  {
    if !IsWordChar(s[p]) {
      i, e, q := CaptureAfterChar(s, p, k);
    } else {
      var w := WordEnd(s, p);
      if w + 1 < |s| && s[w] == '=' && s[w + 1] == '"' && w + 2 < QuoteFrom(s, w + 2) < |s| {
        if k == 0 {
          i, e, q := p, w, QuoteFrom(s, w + 2);
          CaptureAtWordFirst(s, i, e, q);
        } else {
          i, e, q := CaptureAtWordLater(s, p, w, QuoteFrom(s, w + 2), k);
        }
      } else {
        i, e, q := CaptureAfterWord(s, p, w, k);
      }
    }
  }

  lemma {:induction false} CaptureAfterChar(s: string, p: nat, k: nat) returns (i: nat, e: nat, q: nat)
    requires p < |s| && !IsWordChar(s[p]) && k < |CapturesFrom(s, p)|
    ensures p <= i && ScannedMatch(s, i, e, q) && CapturesFrom(s, p)[k] == Binding(s[i..e], s[e + 2..q])
    decreases |s| - p, 0
  {
    CapturesFromSkipChar(s, p);
    i, e, q := CaptureIsScanned(s, p + 1, k);
  }

  lemma {:induction false} CaptureAfterWord(s: string, p: nat, w: nat, k: nat) returns (i: nat, e: nat, q: nat)
    requires p < |s| && IsWordChar(s[p]) && WordEnd(s, p) == w
    requires !(w + 1 < |s| && s[w] == '=' && s[w + 1] == '"' && w + 2 < QuoteFrom(s, w + 2) < |s|)
    requires k < |CapturesFrom(s, p)|
    ensures p <= i && ScannedMatch(s, i, e, q) && CapturesFrom(s, p)[k] == Binding(s[i..e], s[e + 2..q])
    decreases |s| - p, 0
  {
    CapturesFromSkipWord(s, p, w);
    i, e, q := CaptureIsScanned(s, w, k);
  }

  lemma CaptureAtWordFirst(s: string, p: nat, w: nat, r: nat)
    requires ScannedMatch(s, p, w, r)
    ensures |CapturesFrom(s, p)| > 0 && CapturesFrom(s, p)[0] == Binding(s[p..w], s[w + 2..r])
  {
    CapturesFromWord(s, p, w, r);
  }

  lemma {:induction false} CaptureAtWordLater(s: string, p: nat, w: nat, r: nat, k: nat) returns (i: nat, e: nat, q: nat)
    requires ScannedMatch(s, p, w, r) && 0 < k < |CapturesFrom(s, p)|
    ensures p <= i && ScannedMatch(s, i, e, q) && CapturesFrom(s, p)[k] == Binding(s[i..e], s[e + 2..q])
    decreases |s| - p, 0
  {
    var rest := CapturesFrom(s, r + 1);
    CapturesFromWord(s, p, w, r);
    ConsIndex(CapturesFrom(s, p), Binding(s[p..w], s[w + 2..r]), rest, k);
    i, e, q := CaptureIsScanned(s, r + 1, k - 1);
  }

  /** Each capture found from `p` on is the name and value groups of an occurrence of
      the pattern at or after `p`. */
  lemma CaptureIsMatch(s: string, p: nat, k: nat) returns (i: nat, e: nat, q: nat)
    requires p <= |s| && k < |CapturesFrom(s, p)|
    ensures p <= i && MatchAt(s, i, e, q) && CapturesFrom(s, p)[k] == Binding(s[i..e], s[e + 2..q])
  {
    i, e, q := CaptureIsScanned(s, p, k);
    MatchAtScanned(s, i, e, q);
  }

  /** An occurrence of the pattern at or after `p` yields at least one capture. It need
      not be captured itself: an occurrence overlapping an earlier match is skipped, as
      with `captures_iter`. */
  lemma {:induction false} CapturesFromComplete(s: string, p: nat, i: nat, e: nat, q: nat)
    requires p <= i && MatchAt(s, i, e, q)
    ensures CapturesFrom(s, p) != []
    decreases |s| - p
  {
    if !IsWordChar(s[p]) {
      assert p != i;
      CapturesFromComplete(s, p + 1, i, e, q);
    } else {
      var e' := WordEnd(s, p);
      if i < e' {
        WordEndSpec(s, p);
        assert e' == e;
        QuoteFromAt(s, e + 2, q);
      } else {
        CapturesFromComplete(s, e', i, e, q);
      }
    }
  }

  /** A run of word characters from `p` that ends at a non-word character is the run
      `WordEnd` finds. */
  lemma WordEndAt(s: string, p: nat, e: nat)
    requires p <= e < |s| && (forall k :: p <= k < e ==> IsWordChar(s[k])) && !IsWordChar(s[e])
    ensures WordEnd(s, p) == e
  {
    WordEndSpec(s, p);
  }

  /** A quote with no quote between `p` and it is the one `QuoteFrom` finds. */
  lemma QuoteFromAt(s: string, p: nat, q: nat)
    requires p <= q < |s| && (forall k :: p <= k < q ==> s[k] != '"') && s[q] == '"'
    ensures QuoteFrom(s, p) == q
  {
    QuoteFromSpec(s, p);
  }

  /** The scanner's step at a word run that is followed by `="`, a value and a quote. */
  lemma CapturesFromWord(s: string, i: nat, e: nat, q: nat)
    requires i < |s| && IsWordChar(s[i]) && WordEnd(s, i) == e
    requires e + 1 < |s| && s[e] == '=' && s[e + 1] == '"'
    requires QuoteFrom(s, e + 2) == q && e + 2 < q < |s|
    ensures CapturesFrom(s, i) == [Binding(s[i..e], s[e + 2..q])] + CapturesFrom(s, q + 1)
  {
  }

  /** At an occurrence of the pattern the scanner captures it and resumes behind it. */
  lemma CapturesFromAt(s: string, i: nat, e: nat, q: nat)
    requires MatchAt(s, i, e, q)
    ensures CapturesFrom(s, i) == [Binding(s[i..e], s[e + 2..q])] + CapturesFrom(s, q + 1)
  {
    WordEndAt(s, i, e);
    QuoteFromAt(s, e + 2, q);
    CapturesFromWord(s, i, e, q);
  }

  /** The scanner's step past a character that cannot start a name. */
  lemma CapturesFromSkipChar(s: string, p: nat)
    requires p < |s| && !IsWordChar(s[p])
    ensures CapturesFrom(s, p) == CapturesFrom(s, p + 1)
  {
  }

  /** The scanner's step past a word run that is not followed by `="`, a value and a
      quote. */
  lemma CapturesFromSkipWord(s: string, p: nat, e: nat)
    requires p < |s| && IsWordChar(s[p]) && WordEnd(s, p) == e
    requires !(e + 1 < |s| && s[e] == '=' && s[e + 1] == '"' && e + 2 < QuoteFrom(s, e + 2) < |s|)
    ensures CapturesFrom(s, p) == CapturesFrom(s, e)
  {
  }

  /** The capture of an occurrence of the pattern is well formed. */
  lemma WellFormedAt(s: string, i: nat, e: nat, q: nat)
    requires MatchAt(s, i, e, q)
    ensures WellFormed(Binding(s[i..e], s[e + 2..q]))
  {
    var b := Binding(s[i..e], s[e + 2..q]);
    assert forall k :: 0 <= k < |b.name| ==> b.name[k] == s[i + k];
    assert forall k :: 0 <= k < |b.value| ==> b.value[k] == s[e + 2 + k];
  }

  /** Every capture has a non-empty word as its name and a non-empty value without `"`. */
  lemma {:induction false} CapturesFromWellFormed(s: string, i: nat)
    requires i <= |s|
    ensures forall k :: 0 <= k < |CapturesFrom(s, i)| ==> WellFormed(CapturesFrom(s, i)[k])
    decreases |s| - i
  {
    if i < |s| {
      if !IsWordChar(s[i]) {
        CapturesFromSkipChar(s, i);
        CapturesFromWellFormed(s, i + 1);
      } else {
        var e := WordEnd(s, i);
        if e + 1 < |s| && s[e] == '=' && s[e + 1] == '"' && e + 2 < QuoteFrom(s, e + 2) < |s| {
          var q := QuoteFrom(s, e + 2);
          CapturesFromWord(s, i, e, q);
          MatchAtScanned(s, i, e, q);
          WellFormedAt(s, i, e, q);
          CapturesFromWellFormed(s, q + 1);
        } else {
          CapturesFromSkipWord(s, i, e);
          CapturesFromWellFormed(s, e);
        }
      }
    }
  }

  /** Repeated leftmost search: when the leftmost occurrence of the pattern at or after
      `p` is at `i`, the first capture is that occurrence's name and value, and the
      search goes on behind its closing quote. */
  lemma {:induction false} CapturesFromLeftmost(s: string, p: nat, i: nat, e: nat, q: nat)
    requires p <= i && MatchAt(s, i, e, q)
    requires forall i', e', q' :: p <= i' < i ==> !MatchAt(s, i', e', q')
    ensures CapturesFrom(s, p) == [Binding(s[i..e], s[e + 2..q])] + CapturesFrom(s, q + 1)
    decreases |s| - p
  {
    if p == i {
      CapturesFromAt(s, i, e, q);
    } else if !IsWordChar(s[p]) {
      CapturesFromSkipChar(s, p);
      CapturesFromLeftmost(s, p + 1, i, e, q);
    } else {
      var e' := WordEnd(s, p);
      if i < e' {
        WordEndSpec(s, p);
        assert MatchAt(s, p, e, q);
      } else if e' + 1 < |s| && s[e'] == '=' && s[e' + 1] == '"' && e' + 2 < QuoteFrom(s, e' + 2) < |s| {
        MatchAtScanned(s, p, e', QuoteFrom(s, e' + 2));
      } else {
        CapturesFromSkipWord(s, p, e');
        CapturesFromLeftmost(s, e', i, e, q);
      }
    }
  }

  /** Every capture needs an `=`: none is found from `p` on when no `=` follows `p`. */
  lemma CapturesNeedEquals(s: string, p: nat)
    requires p <= |s| && '=' !in s[p..]
    ensures CapturesFrom(s, p) == []
  {
    if CapturesFrom(s, p) != [] {
      CapturesFromSound(s, p);
    }
  }

  /** No occurrence of the pattern starts before `i` when no `=` comes before `i` and
      the character before `i` is not a word character. */
  lemma NoMatchBefore(s: string, i: nat)
    requires i <= |s| && '=' !in s[..i] && (i == 0 || !IsWordChar(s[i - 1]))
    ensures forall i': nat, e': nat, q': nat :: i' < i ==> !MatchAt(s, i', e', q')
  {
  }

  /** A string holding one occurrence of the pattern, with no `=` before it and none
      behind it, has that occurrence as its only capture. */
  lemma CapturesOne(s: string, i: nat, e: nat, q: nat)
    requires MatchAt(s, i, e, q) && '=' !in s[..i] && (i == 0 || !IsWordChar(s[i - 1]))
    requires '=' !in s[q + 1..]
    ensures Captures(s) == [Binding(s[i..e], s[e + 2..q])]
  {
    NoMatchBefore(s, i);
    CapturesFromLeftmost(s, 0, i, e, q);
    CapturesNeedEquals(s, q + 1);
  }

  /** The same, for an attribute part ending at the closing quote followed by a tail
      without `=`. */
  lemma CapturesOneThenPlain(a: string, tail: string, i: nat, e: nat, q: nat)
    requires MatchAt(a, i, e, q) && q + 1 == |a| && '=' !in a[..i] && (i == 0 || !IsWordChar(a[i - 1]))
    requires '=' !in tail
    ensures Captures(a + tail) == [Binding(a[i..e], a[e + 2..q])]
  {
    var s := a + tail;
    assert forall k :: 0 <= k < |a| ==> s[k] == a[k];
    assert s[..i] == a[..i] && s[i..e] == a[i..e] && s[e + 2..q] == a[e + 2..q];
    assert s[q + 1..] == tail;
    CapturesOne(s, i, e, q);
  }


  /** No capture at all exactly when the pattern occurs nowhere in `s`. */
  lemma CapturesEmptyIff(s: string)
    ensures Captures(s) == [] <==> !exists i, e, q :: MatchAt(s, i, e, q)
  {
    if Captures(s) != [] {
      CapturesFromSound(s, 0);
    }
    if exists i, e, q :: MatchAt(s, i, e, q) {
      var i, e, q :| MatchAt(s, i, e, q);
      CapturesFromComplete(s, 0, i, e, q);
    }
  }
}
