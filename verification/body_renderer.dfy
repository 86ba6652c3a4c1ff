/**
 `format_body`: renders a request body for the console according to its
 declared MIME type. The type is normalised, then one of three arms runs:
 JSON (syntax highlighting line by line), form-urlencoded (one `key=value`
 line per `&`-separated pair, key emphasised) or the decoded text as it is.
 */
module BodyRenderer {
  import opened Text
  import opened Styling
  import opened Http

  /** Lossy UTF-8 decoding of a body: total, every byte string decodes to some text. */
  type Decoder = Bytes -> string

  const JsonMime := "application/json"
  const FormMime := "application/x-www-form-urlencoded"

  /** The three arms of the dispatch. */
  datatype MimeKind = Json | FormUrlEncoded | Other

  /** The declared type before its first `;`, lowercased, then trimmed. */
  function NormalizeMime(mimeType: string): (r: string)
    ensures ';' !in r
    ensures IsLower(r)
    ensures Trimmed(r)
  {
    var primary := Split(mimeType, ';')[0];
    var lowered := ToLowerAscii(primary);
    ToLowerAsciiKeepsAbsent(primary, ';');
    ToLowerAsciiIsLower(primary);
    TrimKeepsAbsent(lowered, ';');
    TrimKeepsLower(lowered);
    Trim(lowered)
  }

  /** Which arm a declared MIME type selects: an exact match on the normalised type. */
  function Classify(mimeType: string): (k: MimeKind)
    ensures k == Json <==> NormalizeMime(mimeType) == JsonMime
    ensures k == FormUrlEncoded <==> NormalizeMime(mimeType) == FormMime
    ensures k == Other <==> NormalizeMime(mimeType) !in {JsonMime, FormMime}
  {
    var normalized := NormalizeMime(mimeType);
    if normalized == JsonMime then Json
    else if normalized == FormMime then FormUrlEncoded
    else Other
  }

  /** Normalising twice is normalising once. */
  lemma NormalizeMimeIdempotent(mimeType: string)
    ensures NormalizeMime(NormalizeMime(mimeType)) == NormalizeMime(mimeType)
  {
    NormalizeMimeOfNormal(NormalizeMime(mimeType));
  }

  /** Whatever follows a `;` never influences the normalised type. */
  lemma NormalizeMimeIgnoresParameters(primary: string, parameters: string)
    ensures NormalizeMime(primary + ";" + parameters) == NormalizeMime(primary)
  {
    SplitAround(primary, parameters, ';');
  }

  /** Normalisation does not see the case of ASCII letters. */
  lemma NormalizeMimeIgnoresCase(mimeType: string)
    ensures NormalizeMime(ToLowerAscii(mimeType)) == NormalizeMime(mimeType)
  {
    var lowered := ToLowerAscii(mimeType);
    var i := IndexOf(mimeType, ';');
    assert ';' !in lowered[..i];
    IndexOfUnique(lowered, ';', i);
    SplitFirst(mimeType, ';');
    SplitFirst(lowered, ';');
    ToLowerAsciiPrefix(mimeType, i);
    ToLowerAsciiOfLower(ToLowerAscii(mimeType[..i]));
  }

  /** Whitespace around a lowercase, parameter-free type is dropped. */
  lemma NormalizeMimePadded(w1: string, m: string, w2: string, parameters: string)
    requires AllWhitespace(w1) && AllWhitespace(w2)
    requires ';' !in m && IsLower(m) && Trimmed(m)
    ensures NormalizeMime(w1 + m + w2 + ";" + parameters) == m
    ensures NormalizeMime(w1 + m + w2) == m
  {
    var primary := w1 + m + w2;
    PaddedIsPlainLower(w1, m, w2);
    NormalizeMimeIgnoresParameters(primary, parameters);
    SplitNoSeparator(primary, ';');
    ToLowerAsciiOfLower(primary);
    TrimPadded(w1, m, w2);
  }

  lemma PaddedIsPlainLower(w1: string, m: string, w2: string)
    requires AllWhitespace(w1) && AllWhitespace(w2)
    requires ';' !in m && IsLower(m)
    ensures ';' !in w1 + m + w2 && IsLower(w1 + m + w2)
  {
    var primary := w1 + m + w2;
    forall i | 0 <= i < |primary|
      ensures primary[i] != ';' && LowerChar(primary[i]) == primary[i]
    {
      if i < |w1| {
        assert primary[i] == w1[i];
      } else if i < |w1| + |m| {
        assert primary[i] == m[i - |w1|];
      } else {
        assert primary[i] == w2[i - |w1| - |m|];
      }
    }
  }

  /** The arm depends on the declared type only through its normalised form. */
  lemma ClassifyOfNormalized(mimeType: string)
    ensures Classify(NormalizeMime(mimeType)) == Classify(mimeType)
  {
    NormalizeMimeIdempotent(mimeType);
  }

  /** Whatever follows a `;` never influences the chosen arm. */
  lemma ClassifyIgnoresParameters(primary: string, parameters: string)
    ensures Classify(primary + ";" + parameters) == Classify(primary)
  {
    NormalizeMimeIgnoresParameters(primary, parameters);
  }

  /** The ASCII case in which the type is written never influences the chosen arm. */
  lemma ClassifyIgnoresCase(mimeType: string)
    ensures Classify(ToLowerAscii(mimeType)) == Classify(mimeType)
  {
    NormalizeMimeIgnoresCase(mimeType);
  }

  /** A mixed-case JSON type with a charset parameter selects the JSON arm. */
  lemma MixedCaseJsonWithCharset()
    ensures Classify("Application/JSON ; charset=utf-8") == Json
  {
    var primary, parameters := "Application/JSON ", " charset=utf-8";
    assert "Application/JSON ; charset=utf-8" == primary + ";" + parameters;
    ClassifyIgnoresParameters(primary, parameters);
    MixedCaseJsonPrimary(primary);
  }

  lemma MixedCaseJsonPrimary(primary: string)
    requires primary == "Application/JSON "
    ensures NormalizeMime(primary) == JsonMime
  {
    var m, w := JsonMime, " ";
    SplitNoSeparator(primary, ';');
    LowerMixedCaseJson(primary, m, w);
    TrimPadded("", m, w);
  }

  lemma LowerMixedCaseJson(primary: string, m: string, w: string)
    requires primary == "Application/JSON " && m == JsonMime && w == " "
    ensures ToLowerAscii(primary) == "" + m + w
  {
  }

  /** A type already in normal form is its own normalisation. */
  lemma NormalizeMimeOfNormal(m: string)
    requires ';' !in m && IsLower(m) && Trimmed(m)
    ensures NormalizeMime(m) == m
  {
    SplitNoSeparator(m, ';');
    ToLowerAsciiOfLower(m);
    TrimPadded("", m, "");
    assert "" + m + "" == m;
  }

  /** Each recognised type, written as is, selects its own arm. */
  lemma JsonTypeSelectsJson()
    ensures Classify(JsonMime) == Json
  {
    NormalizeMimeOfNormal(JsonMime);
  }

  lemma FormTypeSelectsForm()
    ensures Classify(FormMime) == FormUrlEncoded
  {
    FormMimeIsPlain();
    FormMimeIsLower();
    NormalizeMimeOfNormal(FormMime);
  }

  lemma FormMimeIsPlain()
    ensures ';' !in FormMime && Trimmed(FormMime)
  {
  }

  lemma FormMimeIsLower()
    ensures IsLower(FormMime)
  {
  }

  /** The console consumer's default type takes the default arm. */
  lemma PlainTextIsOther()
    ensures Classify("text/plain") == Other
  {
    NormalizeMimeOfNormal("text/plain");
  }

  // ---------------------------------------------------------------- JSON arm

  /** syntect's `LinesWithEndings`: each line keeps its `\n`; empty text has no lines. */
  function Lines(s: string): (lines: seq<string>)
    ensures Concat(lines) == s
    ensures forall k :: 0 <= k < |lines| ==> |lines[k]| > 0
    decreases |s|
  {
    if |s| == 0 then []
    else
      var i := IndexOf(s, '\n');
      if i == |s| then [s]
      else
        var rest := Lines(s[i + 1..]);
        assert s == s[..i + 1] + s[i + 1..];
        assert ([s[..i + 1]] + rest)[1..] == rest;
        [s[..i + 1]] + rest
  }

  /**
   Every line but the last ends in `\n`, and no line holds a `\n` before its
   last character: the lines are cut exactly after each line break.
   */
  predicate CutAtBreaks(lines: seq<string>)
  {
    && (forall k :: 0 <= k < |lines| ==> |lines[k]| > 0 && '\n' !in lines[k][..|lines[k]| - 1])
    && (forall k :: 0 <= k < |lines| - 1 ==> lines[k][|lines[k]| - 1] == '\n')
  }

  lemma {:induction false} LinesCutAtBreaks(s: string)
    ensures CutAtBreaks(Lines(s))
    decreases |s|
  {
    if |s| > 0 {
      var i := IndexOf(s, '\n');
      if i < |s| {
        var first, tail := s[..i + 1], s[i + 1..];
        LinesCutAtBreaks(tail);
        assert Lines(s) == [first] + Lines(tail);
        assert '\n' !in first[..|first| - 1] by {
          assert first[..i] == s[..i];
        }
        CutAtBreaksCons(first, Lines(tail));
      } else {
        assert Lines(s) == [s];
        assert '\n' !in s[..|s| - 1] by {
          assert s[..|s| - 1] == s[..i][..|s| - 1];
        }
      }
    }
  }

  lemma CutAtBreaksCons(first: string, rest: seq<string>)
    requires |first| > 0 && first[|first| - 1] == '\n' && '\n' !in first[..|first| - 1]
    requires CutAtBreaks(rest)
    ensures CutAtBreaks([first] + rest)
  {
    var lines := [first] + rest;
    assert forall k :: 0 < k < |lines| ==> lines[k] == rest[k - 1];
  }

  /** Text without a line break is at most one line. */
  lemma LinesOfSingleLine(s: string)
    requires '\n' !in s
    ensures |Lines(s)| <= 1
  {
  }

  const ThemeStyle: Style := Style(Theme, false, false, false)

  /** One line highlighted with the JSON theme; the per-token colours are not modelled. */
  function HighlightLine(line: string): (r: Rich)
    ensures Strip(r) == line
  {
    Styled(line, ThemeStyle)
  }

  function HighlightAll(lines: seq<string>): (rs: seq<Rich>)
    ensures |rs| == |lines|
    ensures StripEach(rs) == lines
  {
    seq(|lines|, i requires 0 <= i < |lines| => HighlightLine(lines[i]))
  }

  /** The JSON arm as written: highlighted lines, which keep their `\n`, joined with a further `\n`. */
  function JsonArmAsWritten(text: string): Rich
  {
    JoinRich(HighlightAll(Lines(text)), Plain("\n"))
  }

  /** The JSON arm as intended: the highlighted lines one after another. */
  function JsonArm(text: string): Rich
  {
    ConcatRich(HighlightAll(Lines(text)))
  }

  /** Highlighting only adds styling: stripped, the JSON arm is the decoded text. */
  lemma JsonArmKeepsText(text: string)
    ensures Strip(JsonArm(text)) == text
  {
    StripConcatRich(HighlightAll(Lines(text)));
  }

  /** As written, the stripped JSON arm is the lines joined with an extra `\n`. */
  lemma JsonArmAsWrittenText(text: string)
    ensures Strip(JsonArmAsWritten(text)) == Join(Lines(text), "\n")
  {
    var rs := HighlightAll(Lines(text));
    StripJoinRich(rs, Plain("\n"));
    assert Strip(Plain("\n")) == "\n";
    assert StripEach(rs) == Lines(text);
  }

  /** As written, the JSON arm keeps the text exactly when the text is at most one line. */
  lemma JsonArmAsWrittenKeepsTextIff(text: string)
    ensures Strip(JsonArmAsWritten(text)) == text <==> |Lines(text)| <= 1
  {
    var lines := Lines(text);
    JsonArmAsWrittenText(text);
    if |lines| > 1 {
      JoinLength(lines, "\n");
    }
  }

  /** The two-line body `{` `}` gains a blank line under the JSON arm as written. */
  lemma JsonArmAsWrittenDoublesLineBreaks()
    ensures Strip(JsonArmAsWritten("{\n}")) == "{\n\n}"
    ensures Strip(JsonArmAsWritten("{\n}")) != "{\n}"
  {
    var text, first, last := "{\n}", "{\n", "}";
    assert IndexOf(text, '\n') == 1;
    assert text[..2] == first && text[2..] == last;
    assert IndexOf(last, '\n') == 1;
    assert Lines(last) == [last];
    assert Lines(text) == [first, last];
    JsonArmAsWrittenText(text);
  }

  /** On text without a line break both JSON arms render the same styled text. */
  lemma JsonArmsAgreeOnSingleLine(text: string)
    requires '\n' !in text
    ensures JsonArmAsWritten(text) == JsonArm(text)
  {
    var rs := HighlightAll(Lines(text));
    if |rs| == 1 {
      assert ConcatRich(rs) == rs[0] + ConcatRich([]);
    }
  }

  // ---------------------------------------------------------------- form arm

  const KeyStyle: Style := Style(Blue, true, false, false)

  /** One `&`-separated pair as `key=value`, the key emphasised and split off at the first `=`. */
  function FormatPair(pair: string): (r: Rich)
    ensures |r| == 2 && r[0].style == KeyStyle && '=' !in r[0].text
    ensures r[0].text == pair[..IndexOf(pair, '=')]
    ensures '=' in pair ==> Strip(r) == pair
    ensures '=' !in pair ==> Strip(r) == pair + "="
  {
    var parts := SplitOnce(pair, '=');
    var key := parts[0];
    var value := if |parts| > 1 then parts[1] else "";
    var r := Styled(key, KeyStyle) + Plain("=" + value);
    assert Strip(r) == key + "=" + value by {
      StripAppend(Styled(key, KeyStyle), Plain("=" + value));
    }
    r
  }

  function FormRows(text: string): (rs: seq<Rich>)
    ensures |rs| == |Split(text, '&')|
  {
    var pairs := Split(text, '&');
    seq(|pairs|, i requires 0 <= i < |pairs| => FormatPair(pairs[i]))
  }

  /** The form arm: the rendered pairs joined with `\n`. */
  function FormArm(text: string): Rich
  {
    JoinRich(FormRows(text), Plain("\n"))
  }

  /**
   The form arm's lines without styling: one per `&`-separated piece, the piece
   itself when it holds a `=`, otherwise the piece followed by `=`.
   */
  function FormLines(text: string): (lines: seq<string>)
    ensures |lines| == |Split(text, '&')| == Count(text, '&') + 1
    ensures forall i :: 0 <= i < |lines| ==>
      lines[i] == (if '=' in Split(text, '&')[i] then Split(text, '&')[i] else Split(text, '&')[i] + "=")
  {
    SplitCount(text, '&');
    StripEach(FormRows(text))
  }

  /** Stripped, the form arm is its lines joined with `\n`. */
  lemma FormArmText(text: string)
    ensures Strip(FormArm(text)) == Join(FormLines(text), "\n")
  {
    StripJoinRich(FormRows(text), Plain("\n"));
    assert Strip(Plain("\n")) == "\n";
  }

  /** On a body without line breaks, the form arm has exactly one line per `&`-separated piece. */
  lemma FormArmLineCount(text: string)
    requires '\n' !in text
    ensures Split(Strip(FormArm(text)), '\n') == FormLines(text)
    ensures |Split(Strip(FormArm(text)), '\n')| == Count(text, '&') + 1
  {
    var lines := FormLines(text);
    SplitKeepsAbsent(text, '&', '\n');
    assert forall i :: 0 <= i < |lines| ==> '\n' !in lines[i];
    FormArmText(text);
    SplitJoin(lines, '\n');
  }

  /**
   Stripped, the form arm is the body with every `&` turned into `\n` exactly
   when every `&`-separated piece holds a `=`.
   */
  lemma FormArmIsReplacementIff(text: string)
    ensures (forall i :: 0 <= i < |Split(text, '&')| ==> '=' in Split(text, '&')[i])
            <==> Strip(FormArm(text)) == Replace(text, '&', '\n')
  {
    FormArmText(text);
    ReplacedFormIsJoin(text);
    FormLinesJoinIff(text);
  }

  lemma ReplacedFormIsJoin(text: string)
    ensures Replace(text, '&', '\n') == Join(Split(text, '&'), "\n")
  {
    JoinSplit(text, '&');
    ReplaceJoin(Split(text, '&'), '&', '\n');
  }

  lemma FormLinesJoinIff(text: string)
    ensures (forall i :: 0 <= i < |Split(text, '&')| ==> '=' in Split(text, '&')[i])
            <==> Join(FormLines(text), "\n") == Join(Split(text, '&'), "\n")
  {
    var pieces := Split(text, '&');
    var lines := FormLines(text);
    if forall i :: 0 <= i < |pieces| ==> '=' in pieces[i] {
      assert lines == pieces;
    } else {
      var i :| 0 <= i < |pieces| && '=' !in pieces[i];
      JoinLengthMonotone(lines, pieces, "\n");
      assert |lines[i]| > |pieces[i]|;
    }
  }

  /** An empty form body still yields the one line `=`. */
  lemma EmptyFormBody()
    ensures Strip(FormArm("")) == "="
  {
    FormArmText("");
  }

  // ---------------------------------------------------------------- dispatch

  /**
   `format_body`: decode the body, then run the arm the normalised type selects.
   Total: there is no precondition and no failure result.
   */
  function FormatBody(mimeType: string, body: Bytes, decode: Decoder): (r: Rich)
    ensures Classify(mimeType) == Other ==> r == Plain(decode(body))
    ensures Classify(mimeType) != FormUrlEncoded ==> Strip(r) == decode(body)
    ensures Classify(mimeType) == FormUrlEncoded ==> Strip(r) == Join(FormLines(decode(body)), "\n")
  {
    var text := decode(body);
    match Classify(mimeType)
    case Json => JsonArmKeepsText(text); JsonArm(text)
    case FormUrlEncoded => FormArmText(text); FormArm(text)
    case Other => Plain(text)
  }

  /**
   `format_body` exactly as written: the same dispatch, but its JSON arm joins
   the highlighted lines, which keep their `\n`, with a further `\n`.
   */
  function FormatBodyAsWritten(mimeType: string, body: Bytes, decode: Decoder): (r: Rich)
    ensures Classify(mimeType) == Json ==> Strip(r) == Join(Lines(decode(body)), "\n")
    ensures Classify(mimeType) != Json ==> r == FormatBody(mimeType, body, decode)
  {
    var text := decode(body);
    match Classify(mimeType)
    case Json => JsonArmAsWrittenText(text); JsonArmAsWritten(text)
    case FormUrlEncoded => FormArm(text)
    case Other => Plain(text)
  }

  /**
   The renderer as written and the corrected one print the same text except for
   a JSON body of more than one line, where the one as written adds a line break
   between every two lines.
   */
  lemma FormatBodyAsWrittenDiffersIff(mimeType: string, body: Bytes, decode: Decoder)
    ensures Strip(FormatBodyAsWritten(mimeType, body, decode)) != Strip(FormatBody(mimeType, body, decode))
            <==> Classify(mimeType) == Json && |Lines(decode(body))| > 1
  {
    if Classify(mimeType) == Json {
      JsonArmAsWrittenKeepsTextIff(decode(body));
    }
  }

  /** A type whose normalised form is neither recognised string renders the decoded text unchanged. */
  lemma UnrecognisedTypeIsVerbatim(mimeType: string, body: Bytes, decode: Decoder)
    requires NormalizeMime(mimeType) != JsonMime && NormalizeMime(mimeType) != FormMime
    ensures FormatBody(mimeType, body, decode) == Plain(decode(body))
  {
  }

  /** The body `a=1&b=2` under the form type renders as the two lines `a=1` and `b=2`. */
  lemma FormExample(body: Bytes, decode: Decoder)
    requires decode(body) == "a=1&b=2"
    ensures Strip(FormatBody(FormMime, body, decode)) == "a=1\nb=2"
  {
    FormTypeSelectsForm();
    FormExamplePairs(decode(body));
    FormArmIsReplacementIff(decode(body));
    FormExampleReplaced(decode(body));
  }

  lemma FormExampleReplaced(text: string)
    requires text == "a=1&b=2"
    ensures Replace(text, '&', '\n') == "a=1\nb=2"
  {
  }

  lemma FormExamplePairs(text: string)
    requires text == "a=1&b=2"
    ensures forall i :: 0 <= i < |Split(text, '&')| ==> '=' in Split(text, '&')[i]
  {
    var first, second := "a=1", "b=2";
    assert text == first + "&" + second;
    assert first[1] == '=' && second[1] == '=';
    SplitAround(first, second, '&');
    SplitNoSeparator(first, '&');
    SplitNoSeparator(second, '&');
  }
}
