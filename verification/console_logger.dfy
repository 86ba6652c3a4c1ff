/**
 The console consumer's `log_request`: the block of text printed for one
 captured request. It is the request line (method, path, `?query`), then one
 `name: value` line per header, then the body section (a banner and the
 rendered body, or nothing for an empty body), then a closing blank line.
 */
module ConsoleLogger {
  import opened Text
  import opened Styling
  import opened Http
  import opened BodyRenderer

  const MethodStyle: Style := Style(Green, true, false, false)
  const PathStyle: Style := Style(Blue, true, false, false)
  const QueryStyle: Style := Style(Yellow, false, true, false)
  const HeaderNameStyle: Style := Style(Yellow, true, false, false)
  const BannerStyle: Style := Style(Default, true, true, true)

  /** Printed in place of a header value that has no text view. */
  const InvalidValue := "Invalid UTF-8"
  const BodyBanner := "------ Body: ------"
  /** The type assumed for a body whose request declares none. */
  const DefaultMimeType := "text/plain"
  const ContentTypeName := "content-type"

  /** A header value as printed: its text view, or the placeholder when it has none. */
  function HeaderValueText(v: Bytes): (t: string)
    ensures ValueToStr(v).Some? ==> t == ValueToStr(v).value
    ensures ValueToStr(v).None? ==> t == InvalidValue
    ensures '\n' !in t
  {
    match ValueToStr(v)
    case Some(s) => ValueToStrSingleLine(v); s
    case None => InvalidValue
  }

  /** The unstyled text of the line printed for one header. */
  function HeaderText(h: Header): string
  {
    ToLowerAscii(h.name) + ": " + HeaderValueText(h.value)
  }

  /** One header as `name: value`, the lowercased name emphasised. */
  function HeaderLine(h: Header): (r: Rich)
    ensures Strip(r) == HeaderText(h)
    ensures r[0] == Span(ToLowerAscii(h.name), HeaderNameStyle)
  {
    var r := Styled(ToLowerAscii(h.name), HeaderNameStyle) + Plain(": " + HeaderValueText(h.value));
    StripAppend(Styled(ToLowerAscii(h.name), HeaderNameStyle), Plain(": " + HeaderValueText(h.value)));
    r
  }

  function HeaderLines(hs: seq<Header>): (rs: seq<Rich>)
    ensures |rs| == |hs|
    ensures StripEach(rs) == seq(|hs|, i requires 0 <= i < |hs| => HeaderText(hs[i]))
  {
    seq(|hs|, i requires 0 <= i < |hs| => HeaderLine(hs[i]))
  }

  /** The header lines in iteration order, joined with `\n`. */
  function HeaderSection(hs: seq<Header>): Rich
  {
    JoinRich(HeaderLines(hs), Plain("\n"))
  }

  /**
   The header section splits back into one line per header, in order, each the
   lowercased name, `: ` and the printed value; no headers leave one empty line.
   */
  lemma HeaderSectionLines(hs: seq<Header>)
    requires forall i :: 0 <= i < |hs| ==> '\n' !in hs[i].name
    ensures var lines := Split(Strip(HeaderSection(hs)), '\n');
      if |hs| == 0 then lines == [""]
      else |lines| == |hs| && forall i :: 0 <= i < |hs| ==> lines[i] == ToLowerAscii(hs[i].name) + ": " + HeaderValueText(hs[i].value)
  {
    var texts := seq(|hs|, i requires 0 <= i < |hs| => HeaderText(hs[i]));
    StripJoinRich(HeaderLines(hs), Plain("\n"));
    assert Strip(Plain("\n")) == "\n";
    if |hs| > 0 {
      forall i | 0 <= i < |hs|
        ensures '\n' !in texts[i]
      {
        ToLowerAsciiKeepsAbsent(hs[i].name, '\n');
      }
      SplitJoin(texts, '\n');
    }
  }

  /** `HeaderMap::get("content-type")` as text, or `text/plain` when absent or without a text view. */
  function ContentType(hs: seq<Header>): (m: string)
    ensures Get(hs, ContentTypeName).None? ==> m == DefaultMimeType
    ensures Get(hs, ContentTypeName).Some? && ValueToStr(Get(hs, ContentTypeName).value).None? ==> m == DefaultMimeType
    ensures Get(hs, ContentTypeName).Some? && ValueToStr(Get(hs, ContentTypeName).value).Some? ==>
              m == ValueToStr(Get(hs, ContentTypeName).value).value
  {
    match Get(hs, ContentTypeName)
    case None => DefaultMimeType
    case Some(v) =>
      match ValueToStr(v)
      case None => DefaultMimeType
      case Some(s) => s
  }

  /** The case in which the stored header names are written never changes the content type. */
  lemma ContentTypeIgnoresStoredCase(hs1: seq<Header>, hs2: seq<Header>)
    requires Renamed(hs1, hs2)
    ensures ContentType(hs1) == ContentType(hs2)
  {
    GetIgnoresStoredCase(hs1, hs2, ContentTypeName);
  }

  /** A header with another name never changes the content type. */
  lemma ContentTypeSkipsOthers(h: Header, hs: seq<Header>)
    requires !SameName(h.name, ContentTypeName)
    ensures ContentType([h] + hs) == ContentType(hs)
  {
    var n := ContentTypeName;
    assert FindHeader([h] + hs, n) == 1 + FindHeader(hs, n) by {
      assert ([h] + hs)[1..] == hs;
    }
    assert Get([h] + hs, n) == Get(hs, n);
  }

  /**
   The first `content-type` header decides the type: its text view, or
   `text/plain` when it has none; any later one is ignored.
   */
  lemma ContentTypeFirstWins(h: Header, hs1: seq<Header>, hs2: seq<Header>)
    requires SameName(h.name, ContentTypeName)
    ensures ContentType([h] + hs1) == ContentType([h] + hs2)
    ensures ValueToStr(h.value).None? ==> ContentType([h] + hs1) == DefaultMimeType
    ensures ValueToStr(h.value).Some? ==> ContentType([h] + hs1) == ValueToStr(h.value).value
  {
    assert FindHeader([h] + hs1, ContentTypeName) == 0;
    assert FindHeader([h] + hs2, ContentTypeName) == 0;
  }

  /** Nothing for an empty body; otherwise the banner, `\n` and the rendered body. */
  function BodySection(req: Request, decode: Decoder): (r: Rich)
    ensures |req.body| == 0 <==> r == []
    ensures |req.body| > 0 ==> Strip(r) == BodyBanner + "\n" + Strip(FormatBody(ContentType(req.headers), req.body, decode))
  {
    if |req.body| > 0 then
      var rendered := FormatBody(ContentType(req.headers), req.body, decode);
      StripBannered(rendered);
      Banner() + rendered
    else
      []
  }

  /** The styled banner line that opens a body section. */
  function Banner(): Rich
  {
    Styled(BodyBanner, BannerStyle) + Plain("\n")
  }

  lemma StripBannered(rendered: Rich)
    ensures |Banner() + rendered| > 0
    ensures Strip(Banner() + rendered) == BodyBanner + "\n" + Strip(rendered)
  {
    StripAppend(Banner(), rendered);
    StripAppend(Styled(BodyBanner, BannerStyle), Plain("\n"));
  }

  /** Nothing for an empty query; otherwise `?` and the query. */
  function QuerySection(query: string): (r: Rich)
    ensures |query| == 0 ==> Strip(r) == ""
    ensures |query| > 0 ==> Strip(r) == "?" + query
  {
    if |query| == 0 then []
    else
      StripAppend(Plain("?"), Styled(query, QueryStyle));
      Plain("?") + Styled(query, QueryStyle)
  }

  /** Reads a query back from its printed section: drops one leading `?`. */
  function QueryFromSection(section: string): string
  {
    if |section| > 0 && section[0] == '?' then section[1..] else section
  }

  /** The printed query section gives the query back, including an empty one. */
  lemma QuerySectionRoundTrip(query: string)
    ensures QueryFromSection(Strip(QuerySection(query))) == query
  {
    if |query| > 0 {
      assert ("?" + query)[1..] == query;
    }
  }

  /** The query section is empty exactly when the query is. */
  lemma QuerySectionEmptyIff(query: string)
    ensures Strip(QuerySection(query)) == "" <==> query == ""
  {
  }

  /** Method, a space, path and the query section. */
  function RequestLine(req: Request): Rich
  {
    Styled(req.verb, MethodStyle) + Plain(" ") + Styled(req.path, PathStyle) + QuerySection(req.query)
  }

  /** The unstyled request line. */
  function RequestLineText(req: Request): string
  {
    req.verb + " " + req.path + (if |req.query| == 0 then "" else "?" + req.query)
  }

  lemma StripRequestLine(req: Request)
    ensures Strip(RequestLine(req)) == RequestLineText(req)
  {
    var m, sp, p := Styled(req.verb, MethodStyle), Plain(" "), Styled(req.path, PathStyle);
    StripAppend(m + sp + p, QuerySection(req.query));
    StripAppend(m + sp, p);
    StripAppend(m, sp);
  }

  /** `log_request`: the whole block, ending in a blank line. */
  function LogRequest(req: Request, decode: Decoder): Rich
  {
    RequestLine(req) + Plain("\n") + HeaderSection(req.headers) + Plain("\n") + BodySection(req, decode) + Plain("\n") + Plain("\n")
  }

  lemma StripLogRequest(req: Request, decode: Decoder)
    ensures Strip(LogRequest(req, decode)) ==
      RequestLineText(req) + "\n" + Strip(HeaderSection(req.headers)) + "\n" + Strip(BodySection(req, decode)) + "\n" + "\n"
  {
    var a, nl, h, b := RequestLine(req), Plain("\n"), HeaderSection(req.headers), BodySection(req, decode);
    var sa, sh, sb := RequestLineText(req), Strip(h), Strip(b);
    StripRequestLine(req);
    assert Strip(nl) == "\n";
    var x1 := a + nl;
    StripAppend(a, nl);
    assert Strip(x1) == sa + "\n";
    var x2 := x1 + h;
    StripAppend(x1, h);
    var x3 := x2 + nl;
    StripAppend(x2, nl);
    var x4 := x3 + b;
    StripAppend(x3, b);
    var x5 := x4 + nl;
    StripAppend(x4, nl);
    StripAppend(x5, nl);
    assert Strip(x5 + nl) == sa + "\n" + sh + "\n" + sb + "\n" + "\n";
  }

  /** An empty body prints no body section, and the decoder is never consulted. */
  lemma EmptyBodySkipsRendering(req: Request, decode1: Decoder, decode2: Decoder)
    requires |req.body| == 0
    ensures BodySection(req, decode1) == []
    ensures LogRequest(req, decode1) == LogRequest(req, decode2)
  {
  }

  /** A non-empty body of a request without `content-type` is printed as decoded text. */
  lemma MissingContentTypeIsPlainText(req: Request, decode: Decoder)
    requires |req.body| > 0
    requires Get(req.headers, ContentTypeName).None?
    ensures ContentType(req.headers) == DefaultMimeType
    ensures Classify(ContentType(req.headers)) == Other
    ensures Strip(BodySection(req, decode)) == BodyBanner + "\n" + decode(req.body)
  {
    PlainTextIsOther();
  }

  /**
   When no field holds a line break, the printed block reads back line by line:
   the request line, one line per header, the body lines, then two empty lines
   (the blank line that ends every block).
   */
  lemma BlockLayout(req: Request, decode: Decoder)
    requires '\n' !in req.verb && '\n' !in req.path && '\n' !in req.query
    requires forall i :: 0 <= i < |req.headers| ==> '\n' !in req.headers[i].name
    ensures var lines := Split(Strip(LogRequest(req, decode)), '\n');
      lines == [RequestLineText(req)] + Split(Strip(HeaderSection(req.headers)), '\n') + BodyLines(req, decode) + ["", ""]
  {
    var rl, h, b := RequestLineText(req), Strip(HeaderSection(req.headers)), Strip(BodySection(req, decode));
    StripLogRequest(req, decode);
    SplitBlock(rl, h, b, '\n');
    BodySectionLines(req, decode);
  }

  /** The line structure of a block with a single-line first part. */
  lemma SplitBlock(rl: string, h: string, b: string, c: char)
    requires c !in rl
    ensures Split(rl + [c] + h + [c] + b + [c] + [c], c) == [rl] + Split(h, c) + Split(b, c) + [[], []]
  {
    var e: string := [];
    var s3 := b + [c] + [c];
    var s2 := h + [c] + s3;
    assert rl + [c] + h + [c] + b + [c] + [c] == rl + [c] + s2;
    assert Split([c], c) == [e, e] by {
      assert e + [c] + e == [c];
      SplitAround(e, e, c);
    }
    assert Split(s3, c) == Split(b, c) + [e, e] by {
      SplitAround(b, [c], c);
    }
    assert Split(s2, c) == Split(h, c) + (Split(b, c) + [e, e]) by {
      SplitAround(h, s3, c);
    }
    assert Split(rl + [c] + s2, c) == [rl] + Split(s2, c) by {
      SplitAround(rl, s2, c);
      SplitNoSeparator(rl, c);
    }
  }

  lemma BodySectionLines(req: Request, decode: Decoder)
    ensures Split(Strip(BodySection(req, decode)), '\n') == BodyLines(req, decode)
  {
    if |req.body| > 0 {
      var f := Strip(FormatBody(ContentType(req.headers), req.body, decode));
      BannerSingleLine();
      SplitAround(BodyBanner, f, '\n');
      SplitNoSeparator(BodyBanner, '\n');
    }
  }

  lemma BannerSingleLine()
    ensures '\n' !in BodyBanner
  {
  }

  /** The body part of the block, split into lines: one empty line for an empty body. */
  function BodyLines(req: Request, decode: Decoder): seq<string>
  {
    if |req.body| == 0 then [""]
    else [BodyBanner] + Split(Strip(FormatBody(ContentType(req.headers), req.body, decode)), '\n')
  }

  /** The first printed line is the request line: method, space, path, then `?query` when there is one. */
  lemma RequestLineFirst(req: Request, decode: Decoder)
    requires '\n' !in req.verb && '\n' !in req.path && '\n' !in req.query
    requires forall i :: 0 <= i < |req.headers| ==> '\n' !in req.headers[i].name
    ensures Split(Strip(LogRequest(req, decode)), '\n')[0] == req.verb + " " + req.path + (if req.query == "" then "" else "?" + req.query)
  {
    BlockLayout(req, decode);
  }
}
