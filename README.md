# JTL parser model

A Dafny model of the JTL markup parser in `src/lib.rs`. JTL is a line-oriented format:

- The first line must contain `DOCTYPE=JTL`.
- An environment section opens with `>>>ENV;` and binds `>>>name=value` declarations.
- A body opens with `>>>BEGIN;` and closes with `>>>END;`. It holds element declarations `>attrs>id>content`.
- Lines split on `;` into declarations.
- Blank lines and lines starting with `/*`, `*/` or `>//>` are skipped.

Three operations are modelled. Each is an imperative method proved equal to a specification function, and lemmas prove properties of those functions:

- `parse` (`JtlDocument.Parse`): the document scan with its two independent mode flags, the environment map it fills and the records it collects. The nested loops of the Rust function are four methods:
  - `Parse` runs the line loop;
  - `ParseLine` handles one line;
  - `ParseDeclarations` and `ParseDeclaration` handle one line's declarations.
- `parse_element` (`JtlElement.ParseElement`): the prefix and separator checks, the attribute scan, the id/content split and the `$env:` substitution. It ends with the three reserved keys `KEY`, `Content` and `Contents`.
- `parse_env` (`JtlEnv.ParseEnv`): the environment-only scan. It stops at the first `>>>BEGIN;` line.

Supporting modules:

- `Text` models the Rust `str` operations the parser uses:
  - `trim`, over the Unicode White_Space set;
  - `starts_with`, `contains` and `find`;
  - `split`;
  - `lines`: split at `\n`, drop one `\r` before each `\n`, and drop a final empty piece;
  - `trim_start_matches`;
  - `len`, as the UTF-8 byte count.
- `Bindings` covers inserting name/value pairs into a map one after another.
- `AttrScan` is a hand-written scanner for the attribute pattern `(\w+)="([^"]+)"`. It uses leftmost, non-overlapping search, and `\w` is ASCII.
- `JtlCommon` holds the error kinds with their messages, the markers and the rule that turns `>>>name=value` into a binding.
- `JtlRouting` gives a second, two-phase description of `parse`:
  1. route the declarations through the mode machine;
  2. parse the routed element declarations in order.
  
  A lemma proves it equal to the one-pass scan. Further lemmas prove which environment each element declaration is parsed under. It is the bindings made in environment mode before that declaration, on earlier lines or earlier on the same line, inserted in document order. So a later binding of a name overwrites an earlier one, for `parse` as for `parse_env`.
- `JtlExamples` restates the unit tests at the end of `src/lib.rs` as lemmas about the model.

In two places the model follows the code rather than a simplified reading of it:

- `trim` removes Unicode whitespace, not only ASCII.
- The five-byte minimum for body declarations counts UTF-8 bytes, not characters.

Documents are also read through a model of `lines()` rather than taken as a ready-made list of lines.

## Model

| member | source | states |
|---|---|---|
| JtlDocument.Parse | src/lib.rs:7-69 | `parse(text)` returns exactly `ParseSpec(text)`: the doctype gate, then the line scan over `lines()` |
| JtlDocument.ParseLine | src/lib.rs:19-44 | one line: a trimmed line that is empty or a comment is skipped, the three exact markers set the flags, any other line is split on `;` and its declarations run; equals `LineStep` |
| JtlDocument.ParseDeclarations | src/lib.rs:44-65 | the declarations of a line in order, and the first element error aborts; equals `DeclsRun` |
| JtlDocument.ParseDeclaration | src/lib.rs:46-64 | one declaration: empty or `>//>` is ignored; `>>>` in env mode binds; `>` in body mode is too short below 5 bytes, otherwise it is parsed and appended; anything else is ignored; equals `DeclStep` |
| JtlElement.ParseElement | src/lib.rs:77-129 | `parse_element(line, env)` returns exactly `ElementSpec(line, env)`: the attributes inserted in capture order, then `KEY`, `Content` and `Contents` |
| JtlElement.InsertCaptures | src/lib.rs:92-97 | the loop leaves the record holding the captures inserted in order, so that a later capture of a name overwrites an earlier one |
| JtlEnv.ParseEnv | src/lib.rs:132-176 | `parse_env(text)` returns exactly `ParseEnvSpec(text)`, stopping at the first `>>>BEGIN;` line |
| JtlEnv.BindDeclarations | src/lib.rs:160-171 | the declarations of one environment line, each starting `>>>` and holding `=`, bound in order; equals `EnvDecls` |
| JtlDocumentFacts.ParseDoctype | src/lib.rs:11-13 | `parse` fails with the doctype error if and only if there is no first line holding `DOCTYPE=JTL`, whatever follows; no other path produces that error |
| JtlEnvFacts.ParseEnvDoctype | src/lib.rs:136-138 | `parse_env` fails exactly when the doctype is missing, and fails on exactly the documents `parse` rejects for it |
| JtlDocumentFacts.SkippedLineIgnored | src/lib.rs:21-27 | inserting a line that trims to empty or to a `/*`, `*/` or `>//>` comment anywhere after the first line leaves the result of `parse` unchanged |
| JtlEnvFacts.SkippedLineIgnoredByEnv | src/lib.rs:143-149 | the same for `parse_env` |
| JtlDocumentFacts.MarkerLines | src/lib.rs:29-41 | with any surrounding whitespace, `>>>ENV;` sets `in_env`; `>>>BEGIN;` clears `in_env` and sets `in_body`; `>>>END;` clears `in_body`; nothing else in the state changes |
| JtlDocumentFacts.NonMarkerLineKeepsFlags | src/lib.rs:29-65 | a line that is not exactly a marker after trimming leaves both flags as they were |
| JtlDocumentFacts.IdleIgnoresDecls | src/lib.rs:51-64 | with neither flag set, every declaration of a line is ignored and the state is unchanged |
| JtlDocumentFacts.OutsideBodyAddsNothing | src/lib.rs:51-64 | outside the body, declarations cannot fail and add no record |
| JtlDocumentFacts.EnvModeBinds | src/lib.rs:51-57 | in env mode, the environment after a line is the old one with the line's `>>>name=value` bindings inserted in order |
| JtlCommon.EnvBindingSplitsAtFirstEquals | src/lib.rs:52-56 | the binding is the trimmed text before the first `=` and the trimmed text after it, even when that holds more `=` |
| JtlCommon.EnvBindingNeedsEquals | src/lib.rs:53 | a declaration makes no binding if and only if it has no `=` |
| JtlEnvFacts.EnvStopsAtBegin | src/lib.rs:155-157 | nothing after the first line that trims to `>>>BEGIN;` affects `parse_env` |
| JtlEnvFacts.EnvDeclsBinds | src/lib.rs:160-171 | one environment line inserts its declarations' bindings in order, by the same rule as `parse` |
| JtlEnvFacts.EnvLinesBinds | src/lib.rs:141-173 | the scan of `parse_env` inserts the bindings it reads, in document order |
| JtlEnvFacts.ParseEnvLastWins | src/lib.rs:163-169 | a name gets the value of its last binding |
| JtlEnvFacts.ParseEnvKeys | src/lib.rs:163-169 | the names in the result are exactly the names of the bindings read |
| Bindings.InsertAllKeys | src/lib.rs:92-97 | inserting bindings adds exactly their names to the keys |
| Bindings.InsertAllLastWins | src/lib.rs:92-97 | the last binding of a name decides its value |
| JtlRouting.ParseIsRouted | src/lib.rs:19-68 | the one-pass scan equals the two-phase view: route the declarations through the flags, then parse the routed element declarations in order |
| JtlRouting.ParseRecords | src/lib.rs:44-64 | on success there is exactly one record per routed element declaration, in document order, each the parse of that declaration under the environment in force there; and conversely |
| JtlRouting.ParseFirstError | src/lib.rs:59-62 | the first failing element declaration decides the error of `parse`; later ones are never looked at |
| JtlRouting.RouteLinesElements | src/lib.rs:58 | every routed declaration starts with `>` |
| JtlRouting.RouteDeclsElements | src/lib.rs:45-65 | outside the body nothing is routed, only `>` declarations are, and declarations never change a flag |
| JtlRouting.RouteDeclBinds | src/lib.rs:47-57 | one declaration changes neither flag; in environment mode it inserts its own binding, and outside it leaves the environment as it was |
| JtlRouting.RouteDeclsBinds | src/lib.rs:45-65 | a line's declarations leave the environment unchanged outside environment mode and insert their bindings in order inside it; the flags never change |
| JtlRouting.RouteLineBinds | src/lib.rs:20-65 | one line inserts exactly the bindings it makes: none for blank, comment and marker lines, none outside environment mode |
| JtlRouting.RouteLinesBinds | src/lib.rs:19-66 | across lines the environment is the starting one with every environment-mode binding inserted in document order, so a later binding of a name overwrites an earlier one, also on another line |
| JtlRouting.RouteDeclsItems | src/lib.rs:45-64 | each element declaration routed from a line is one of its declarations, carrying the environment at the line's start with the bindings of the line's earlier declarations inserted when in environment mode |
| JtlRouting.RouteLinesItems | src/lib.rs:19-64 | each routed element declaration is declaration `k` of line `n`, carrying the starting environment with every binding made before it inserted in document order |
| JtlRouting.BindingsBeforePrefix | src/lib.rs:19-66 | the bindings made before a declaration are an initial part of the document's bindings, in order |
| JtlRouting.ParseElementEnv | src/lib.rs:45-64 | every record `parse` returns is the parse of declaration `k` of line `n` under the bindings made before it, so with `InsertAllLastWins` a `$env:` reference sees the last earlier binding of its name |
| JtlRouting.ParsedRecordsShape | src/lib.rs:124-126 | every record `parse` returns has a non-empty `KEY`, and its `Content` and `Contents` are equal |
| JtlRouting.CollectOk | src/lib.rs:62 | collecting outcomes succeeds if and only if each one does, giving their records in order |
| JtlRouting.CollectFirstError | src/lib.rs:62 | the first failing outcome is the result of collecting |
| JtlElement.ElementMissingPrefix | src/lib.rs:78-80 | the missing-prefix error comes exactly when the declaration does not start with `>` |
| JtlElement.ElementMissingSeparator | src/lib.rs:82-84 | after the prefix, the missing-separator error comes exactly when no further `>` exists |
| JtlElement.ElementNoAttributes | src/lib.rs:86-90 | with a separator, the no-attributes error comes exactly when `name="value"` occurs nowhere in the remainder, id and content included |
| JtlElement.ElementAccepts | src/lib.rs:100-128 | a declaration `>attrs>id>content[;]` with captures, `attrs` and `id` free of `>`, and `id` and `content` non-empty gives the record of its captures, its id and its substituted content; the content may hold more `>` |
| JtlElement.ElementRejectsEmptyPart | src/lib.rs:110-113 | such a declaration with an empty id or an empty content is malformed |
| JtlElement.ElementRejectsMissingId | src/lib.rs:103-113 | a content part (less one `;`) without a second `>` is malformed |
| JtlElement.ElementOkIsShaped | src/lib.rs:77-129 | every accepted declaration has that shape, with a non-empty id and content, and its record is the one `ElementAccepts` gives |
| JtlElement.SplitContentOf | src/lib.rs:110-115 | `splitn(2, '>')` of `id>content` gives back `id` and `content`, or the malformed error when either is empty |
| JtlElement.RecordShape | src/lib.rs:92-97 | the record's keys are the attribute names plus the three reserved keys; `KEY` is the id; `Content` and `Contents` are the content; any other attribute has the value of its last capture |
| JtlElement.SubstituteSpec | src/lib.rs:118-123 | `$env:` repeated one or more times before a name becomes the name's value when it is bound, and stays the literal reference when it is not |
| JtlElement.SubstituteKeepsPlainContent | src/lib.rs:118 | content not starting with `$env:` is kept |
| JtlElement.SubstituteShapes | src/lib.rs:118-119 | every content starting with `$env:` is some copies of the prefix followed by what `trim_start_matches` leaves |
| JtlElement.StripSemicolonSplit | src/lib.rs:106-108 | at most one trailing `;` is removed, and putting it back gives the text again |
| AttrScan.WordEndSpec | src/lib.rs:86 | the name group `\w+` ends at the first non-word character or at the end of the line |
| AttrScan.QuoteFromSpec | src/lib.rs:86 | the value group `[^"]+` ends at the first `"` or at the end of the line |
| AttrScan.CapturesFromSound | src/lib.rs:86-87 | when the search from a position reports any capture, the pattern occurs at or after that position |
| AttrScan.CaptureIsMatch | src/lib.rs:86-87 | each reported capture is the name and value groups of an occurrence of the pattern at or after the search position |
| AttrScan.CapturesFromComplete | src/lib.rs:86-87 | when the pattern occurs at or after the search position, at least one capture is reported; an occurrence that overlaps an earlier match is skipped rather than captured, as `captures_iter` does |
| AttrScan.CapturesFromLeftmost | src/lib.rs:86-87 | the first capture is the leftmost occurrence, and the search resumes behind its closing quote |
| AttrScan.CapturesEmptyIff | src/lib.rs:87-88 | no capture at all exactly when the pattern occurs nowhere |
| AttrScan.CapturesNeedEquals | src/lib.rs:86 | no capture is found where no `=` follows |
| AttrScan.CapturesFromAt | src/lib.rs:86-87 | at an occurrence of the pattern the scan captures its name and value and resumes behind the closing quote |
| AttrScan.CapturesOne | src/lib.rs:86-87 | a line with one occurrence of the pattern, with no `=` before or behind it, has exactly that capture |
| AttrScan.CapturesFromWellFormed | src/lib.rs:86-87 | every capture has a non-empty word name and a non-empty value without `"` |
| Text.TrimSpec | src/lib.rs:20 | `trim` leaves the infix between two whitespace runs, and the result neither starts nor ends with whitespace |
| Text.TrimPadded | src/lib.rs:20 | `trim` recovers a text without surrounding whitespace from any padding |
| Text.Find | src/lib.rs:53 | `find` returns nothing exactly when the character is absent, and otherwise the index of its first occurrence |
| Text.SplitJoin | src/lib.rs:44 | no piece of `split(c)` holds `c`, and joining the pieces with `c` gives the line back |
| Text.FindAt | src/lib.rs:100-103 | `find` returns the position of the first occurrence, behind text without it |
| Text.SplitAt | src/lib.rs:44 | the first occurrence of the separator ends the first piece |
| Text.LinesSpec | src/lib.rs:9 | a text has no lines exactly when it is empty, and no line holds a line feed |
| Text.LinesCons | src/lib.rs:9 | a line without a line feed or a final `\r`, followed by a line feed, is the first line, whatever follows |
| Text.TrimStartMatchesSpec | src/lib.rs:119 | `trim_start_matches` leaves a suffix that no longer starts with the pattern |
| Text.TrimStartMatchesRemovesCopies | src/lib.rs:119 | what it removes is a whole number of copies of the pattern |
| Text.TrimStartMatchesRepeat | src/lib.rs:119 | copies of the pattern before a text not starting with it are all removed |
| Text.Utf8Len | src/lib.rs:59 | the byte length is at least the character count, and equal to it for ASCII text |
| JtlExamples.TestParse | src/lib.rs:183-201 | the sample document gives one record, with `key` = `value`, `KEY` = `element_id`, and `Content` = `Contents` = `bar` |
| JtlExamples.TestParseEnv | src/lib.rs:203-208 | `parse_env` on the sample gives exactly `foo` = `bar` |
| JtlExamples.TestMissingDoctype | src/lib.rs:223-235 | the sample with another first line fails with the doctype error and its message |
| JtlExamples.TestElementTooShort | src/lib.rs:237-246 | a body declaration `>a` fails with the too-short error and its message |

## Left out

- `stringify` (src/lib.rs:72-74) wraps an external JSON encoder and is not modelled; so is its test.
- The `regex` crate is replaced by the scanner in `AttrScan`. The `Regex::new` failure path cannot happen, because the pattern is a constant.
- `\w` is ASCII in the scanner; Unicode letters and digits in attribute names are not modelled.
- `serde_json::Value` wrapping, JSON key order and `HashMap` iteration order are not modelled; records and environments are maps from string to string.
- The "missing content separator" error (src/lib.rs:100-102) cannot happen: the earlier check at src/lib.rs:82 already found a `>`. The model finds the first `>` once and has no such error.
- Byte-indexed slicing (`&decl[3..]`, `content[..eq_index]`) is modelled on characters. That is the same, because the prefixes and separators involved are ASCII.
- Errors are the six error kinds, each with its message, rather than boxed error objects.
