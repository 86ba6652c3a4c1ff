# webbie console renderer — a Dafny model

webbie is an HTTP request inspector. It accepts any request on each port it is started on and
replies with an empty success. It hands each captured request to a consumer.
The reference consumer, `ConsoleLogger`, prints one block of text per request:

- the request line: method, path and `?query`;
- one `name: value` line per header;
- the body section: a banner and the body as `format_body` renders it (with its JSON arm corrected, see "## Findings"), or nothing for an empty body;
- a closing blank line.

This project models that rendering path as pure functions over immutable values.
It proves what the rendering promises.

- `text.dfy` (module `Text`): the Rust `str` operations the renderer relies on.
  These are `split`, `splitn(2, _)`, `join`, `trim` with Rust's whitespace set, and ASCII `to_lowercase`.
- `styling.dfy` (module `Styling`): coloured terminal text as a sequence of spans (text plus style).
  `Strip` keeps only the characters and drops the styles.
- `http.dfy` (module `Http`): the captured `Request` record (method as `verb`, path, query, headers, body).
  It also holds a header value's text view and header lookup by name.
- `body_renderer.dfy` (module `BodyRenderer`): `format_body`. It normalises the MIME type and dispatches to one of three arms:
  JSON, form-urlencoded, or everything else.
- `console_logger.dfy` (module `ConsoleLogger`): the text block `log_request` prints.

Lossy UTF-8 decoding is a parameter `decode: Bytes -> string`. It is total, and its
inner workings are not modelled. All three arms of `format_body` decode the body
first, so `FormatBody` applies `decode` once and dispatches on the text.

## Model

| member | source | states |
|---|---|---|
| Text.Split | src/main.rs:52 | `split('&')` never returns an empty list, and no piece contains the separator |
| Text.SplitCount | src/main.rs:52 | the number of pieces is the number of separators plus one, so the empty string gives one piece |
| Text.SplitFirst | src/main.rs:26 | the first piece (what `split(';').next()` yields) is exactly the text before the first separator |
| Text.JoinSplit | src/main.rs:51-60 | joining the pieces with the separator gives the original string back |
| Text.SplitJoin | src/main.rs:51-60 | splitting a join of separator-free pieces gives those pieces back, so split and join are inverse |
| Text.SplitAround | src/main.rs:52 | splitting `a + sep + b` gives the pieces of `a` followed by the pieces of `b` |
| Text.SplitOnce | src/main.rs:54-56 | `splitn(2, '=')` gives one part (the whole string) when there is no `=`; otherwise the `=`-free key and the rest, with `s == key + "=" + rest` |
| Text.Trim | src/main.rs:28 | `trim` gives a stretch of the input that neither starts nor ends with whitespace, beginning where the leading whitespace ends |
| Text.TrimDropsWhitespace | src/main.rs:28 | everything `trim` drops on either side is whitespace |
| Text.TrimPadded | src/main.rs:28 | `trim` of `w1 + m + w2` is `m` whenever `w1` and `w2` are whitespace and `m` is trimmed, so the result is unique |
| Text.ToLowerAsciiChangesOnlyCapitals | src/main.rs:26 | lowercasing leaves no ASCII capital, changes a character exactly when it is an ASCII capital, and turns each capital into its small letter |
| Text.ToLowerAsciiIdempotent | src/main.rs:26 | lowercasing a lowercased string changes nothing |
| Text.ToLowerAsciiFixedIff | src/main.rs:26 | lowercasing leaves a string unchanged if and only if it is already lowercase |
| Text.ToLowerAsciiAppend | src/main.rs:26 | lowercasing works character by character, so it distributes over concatenation |
| Http.ValueToStrRoundTrip | src/main.rs:79 | a header value's text view consists of visible characters, and turned back into bytes it is the value itself |
| Http.TextBytesRoundTrip | src/main.rs:79 | any text of visible ASCII characters and tabs, stored as a header value, has exactly that text as its text view |
| Http.ValueToStrSingleLine | src/main.rs:79 | a header value's text view never contains a line break |
| Http.Get | src/main.rs:86-88 | `headers().get(name)` is absent exactly when no header has that name up to case; otherwise it is the value of the first header with that name |
| Http.GetIgnoresCase | src/main.rs:86-88 | names equal up to ASCII case look up the same value |
| Http.GetIgnoresStoredCase | src/main.rs:86-88 | rewriting the stored header names in another ASCII case never changes what a lookup finds |
| Http.ContentTypeLookupIgnoresCase | src/main.rs:88 | looking up `Content-Type` and `content-type` gives the same result |
| BodyRenderer.NormalizeMime | src/main.rs:26-28 | the normalised type has no `;`, no upper-case ASCII letter and no surrounding whitespace |
| BodyRenderer.ClassifyOfNormalized | src/main.rs:26-28 | the arm depends on the declared type only through its normalised form: normalising first selects the same arm |
| BodyRenderer.ClassifyIgnoresParameters | src/main.rs:26 | appending `;` and any parameters to a declared type never changes the selected arm |
| BodyRenderer.ClassifyIgnoresCase | src/main.rs:26 | writing the declared type in another ASCII case never changes the selected arm |
| BodyRenderer.NormalizeMimeIdempotent | src/main.rs:26-28 | normalising an already normalised type changes nothing |
| BodyRenderer.NormalizeMimeIgnoresParameters | src/main.rs:26 | appending `;` and any parameters to a type never changes its normalised form |
| BodyRenderer.NormalizeMimeIgnoresCase | src/main.rs:26 | lowercasing the declared type first does not change the normalised type |
| BodyRenderer.NormalizeMimePadded | src/main.rs:26-28 | whitespace around a lowercase type, with or without parameters, is dropped |
| BodyRenderer.NormalizeMimeOfNormal | src/main.rs:26-28 | a type that is already lowercase, trimmed and without `;` normalises to itself |
| BodyRenderer.MixedCaseJsonWithCharset | src/main.rs:26-29 | `Application/JSON ; charset=utf-8` selects the JSON arm |
| BodyRenderer.JsonTypeSelectsJson | src/main.rs:28-29 | `application/json` selects the JSON arm |
| BodyRenderer.FormTypeSelectsForm | src/main.rs:47 | `application/x-www-form-urlencoded` selects the form arm |
| BodyRenderer.PlainTextIsOther | src/main.rs:62-65 | `text/plain`, the consumer's default type, selects the default arm |
| BodyRenderer.Lines | src/main.rs:39 | `LinesWithEndings`: the lines are non-empty, and concatenated they give the text back |
| BodyRenderer.LinesCutAtBreaks | src/main.rs:39 | every line except the last ends in a line break, and no line has a line break before its last character |
| BodyRenderer.LinesOfSingleLine | src/main.rs:39 | text without a line break gives at most one line |
| BodyRenderer.HighlightLine | src/main.rs:40-41 | highlighting a line only adds styling; stripped, it is the line itself |
| BodyRenderer.JsonArmKeepsText | src/main.rs:29-46 | stripped of styling, the corrected JSON arm gives back exactly the decoded body |
| BodyRenderer.JsonArmAsWrittenText | src/main.rs:38-45 | stripped, the JSON arm as written is the lines (each keeping its line break) joined with a further line break |
| BodyRenderer.JsonArmAsWrittenKeepsTextIff | src/main.rs:38-45 | the JSON arm as written keeps the text if and only if the text is at most one line |
| BodyRenderer.JsonArmAsWrittenDoublesLineBreaks | src/main.rs:39-45 | the body `{`, line break, `}` comes out of the JSON arm as written with two line breaks |
| BodyRenderer.JsonArmsAgreeOnSingleLine | src/main.rs:39-45 | on text without a line break, the arm as written and the corrected arm produce the same styled output |
| BodyRenderer.FormatPair | src/main.rs:53-58 | the emphasised first span is exactly the key, the text before the first `=`; stripped, a pair with `=` is printed unchanged (later `=` stay in the value); a pair without `=` gets a trailing `=` |
| BodyRenderer.FormLines | src/main.rs:51-60 | the form arm has one stripped line per `&`-separated piece (count of `&` plus one): the piece if it has `=`, else the piece plus `=` |
| BodyRenderer.FormArmText | src/main.rs:51-60 | stripped, the form arm is those lines joined with a line break |
| BodyRenderer.FormArmLineCount | src/main.rs:51-60 | for a body without line breaks, the stripped output splits into exactly those lines, one per `&`-separated piece |
| BodyRenderer.FormArmIsReplacementIff | src/main.rs:51-60 | stripped, the form arm equals the body with each `&` replaced by a line break if and only if every piece contains `=` |
| BodyRenderer.EmptyFormBody | src/main.rs:51-60 | an empty form body still gives the one line `=` |
| BodyRenderer.FormatBody | src/main.rs:25-67 | total, with no precondition and no error result; default arm prints the decoded text plain; form arm strips to the line-joined form lines; the corrected JSON arm strips to the decoded text |
| BodyRenderer.FormatBodyAsWritten | src/main.rs:25-67 | the renderer as written: its JSON arm strips to the lines of the decoded text joined with a further line break; every other arm is the same as in `FormatBody` |
| BodyRenderer.FormatBodyAsWrittenDiffersIff | src/main.rs:29-46 | the renderer as written and the corrected one print different text if and only if the type selects the JSON arm and the body has more than one line |
| BodyRenderer.UnrecognisedTypeIsVerbatim | src/main.rs:62-65 | a type that normalises to neither recognised string prints the decoded body unchanged |
| BodyRenderer.FormExample | src/main.rs:47-60 | `a=1&b=2` under the form type prints, stripped, as `a=1`, line break, `b=2` |
| ConsoleLogger.HeaderValueText | src/main.rs:79 | a header value prints as its text view, or as `Invalid UTF-8` when it has none, and never contains a line break |
| ConsoleLogger.HeaderLine | src/main.rs:75-81 | a header line starts with the lowercased name in the header style; stripped, it is `name: value` |
| ConsoleLogger.HeaderSectionLines | src/main.rs:72-83 | the header section splits back into one line per header, in iteration order, each `lowercased-name: value`; no headers give one empty line |
| ConsoleLogger.ContentTypeIgnoresStoredCase | src/main.rs:86-90 | the case in which the stored header names are written never changes the content type |
| ConsoleLogger.ContentTypeSkipsOthers | src/main.rs:86-90 | a header with any other name never changes the content type |
| ConsoleLogger.ContentTypeFirstWins | src/main.rs:86-90 | the first `content-type` header decides: its text view, or `text/plain` when it has none, whatever headers follow |
| ConsoleLogger.BodySection | src/main.rs:85-101 | empty if and only if the body is empty; otherwise, stripped, the banner, a line break, then the rendered body |
| ConsoleLogger.BodySectionLines | src/main.rs:85-101 | the body section's lines are one empty line for an empty body, or else the banner followed by the rendered body's lines |
| ConsoleLogger.QuerySection | src/main.rs:103-107 | empty for an empty query; otherwise `?` followed by the query verbatim |
| ConsoleLogger.QuerySectionRoundTrip | src/main.rs:103-107 | dropping one leading `?` from the printed query section gives the query back, empty or not |
| ConsoleLogger.QuerySectionEmptyIff | src/main.rs:103-107 | the query section is empty if and only if the query is |
| ConsoleLogger.StripRequestLine | src/main.rs:109-113 | stripped, the request line is method, space, path, then `?query` when the query is non-empty |
| ConsoleLogger.StripLogRequest | src/main.rs:109-116 | stripped, the block is the request line, the header section and the body section, each followed by a line break, then one more line break |
| ConsoleLogger.EmptyBodySkipsRendering | src/main.rs:85-101 | an empty body gives an empty body section, and the whole block does not depend on the decoder, so no rendering happens |
| ConsoleLogger.MissingContentTypeIsPlainText | src/main.rs:85-92 | a non-empty body without `content-type` is typed `text/plain`, takes the default arm and prints as banner, line break, decoded body |
| ConsoleLogger.BlockLayout | src/main.rs:109-116 | when no field has a line break, the block splits into the request line, the header lines, the body lines, then two empty lines |
| ConsoleLogger.RequestLineFirst | src/main.rs:109-113 | the first printed line is the method, a space, the path and the query section |

## Findings

| source | as written | input that shows it | evidently intended | confidence | as-written member | corrected member |
|---|---|---|---|---|---|---|
| src/main.rs:38-45 | `LinesWithEndings` yields lines that keep their `\n`, and the highlighted lines are then joined with `"\n"`, so every line break is printed twice | a JSON body `{`, `\n`, `}`: the stripped output is `{\n\n}` | each highlighted line printed once with its own line ending, so that stripped output equals the body text | not executed; medium | BodyRenderer.JsonArmAsWrittenDoublesLineBreaks | BodyRenderer.JsonArmKeepsText |

`BodyRenderer.JsonArmAsWritten` models the arm as written.
`BodyRenderer.JsonArmAsWrittenKeepsTextIff` shows that it keeps the text only for bodies of at most one line.
`BodyRenderer.JsonArm` is the corrected arm, and `FormatBody` uses it.
`BodyRenderer.FormatBodyAsWritten` is the whole renderer as written.
`BodyRenderer.FormatBodyAsWrittenDiffersIff` shows that the two renderers print different text exactly for multi-line JSON bodies.
`BodyRenderer.JsonArmsAgreeOnSingleLine` shows that the two arms give identical output on single-line bodies, such as `{"a":1}`.

## Left out

- Capture handler and server (`make_handler`, `start_server`, src/lib.rs:23-71): warp filter composition, socket binding, `Arc` sharing and concurrent listeners. This is I/O and concurrency, and it does nothing to the fields it copies into `Request`.
- The `RequestLogger` trait (src/lib.rs:19-21) is not modelled as an interface. `ConsoleLogger.LogRequest` is its one implementation here.
- CLI parsing (`Args`, src/main.rs:12-18), the `lazy_static` syntax and theme sets, and `main`. src/main.rs:126 passes one `u16` where `start_server` takes `Vec<u16>`. This start-up code is not modelled.
- `println!`: the model builds the printed block as styled text and does not write it anywhere.
- Lossy UTF-8 decoding (`String::from_utf8_lossy`) is the `decode` parameter. It is total, and its replacement rules are not modelled.
- JSON syntax highlighting is reduced to one span per line in the theme's colours. Token-level colours and escape codes are not modelled. So are the `unwrap`s on `find_syntax_by_extension` and `highlight_line`, and the indexing of the theme map by name, which could panic if the syntax or theme were missing.
- Terminal colours are style tags on spans. Escape sequences and whether colour output is enabled are not modelled.
- `to_lowercase` is modelled on ASCII letters only; other characters are kept.
  For header names this is exact, because HTTP header names are ASCII tokens.
  For the MIME type it cannot change which arm is chosen.
  The one non-ASCII character whose lowercase is ASCII is the Kelvin sign, which lowercases to `k`, and neither recognised type contains `k`.
  Every other non-ASCII character lowercases to text that still holds a non-ASCII character (U+0130 gives `i` and U+0307), so the type still matches neither string.
- `HeaderValue::to_str` follows the http crate's documented rule: a value is text when it holds only visible ASCII or tab. Header values are bytes; header names are strings.
- The order of headers is whatever sequence the model is given. This stands for `HeaderMap` iteration order, and it is not derived from insertion order.
- FormArmLineCount: it needs a body without line breaks, because a line break inside a pair adds printed lines in the source too. FormArmText states the general case.
- HeaderSectionLines: requires header names without line breaks. HTTP never allows one in a name, and a value's text view never has one.
- BlockLayout: requires method, path, query and header names without line breaks, which HTTP never allows. StripLogRequest states the general case.
- RequestLineFirst: requires method, path and query without line breaks, for the same reason.
- Normalisation also trims whitespace (src/main.rs:28), and the model follows the code.
- BodyRenderer.FormatBody: its JSON arm is the corrected one, not the code as written (see "## Findings"); `FormatBodyAsWritten` models the code as written. The ConsoleLogger members `BodySection`, `BodySectionLines`, `LogRequest`, `StripLogRequest` and `BlockLayout` use `FormatBody`, so for a multi-line JSON body they describe the corrected output, which has one line break fewer between every two lines.
