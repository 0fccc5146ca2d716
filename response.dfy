/**
 * The response model: a status code, the status text looked up once in a
 * fixed table, and a JSON content value, serialised as a status line, one
 * `Content-Type: application/json` header, a blank line and the encoded
 * content. The JSON encoder is a parameter: its output is not modelled.
 */
module HttpResponse {
  import opened Wrappers
  import opened Strings

  /** The JSON values a response can carry (floating-point numbers are not modelled). */
  datatype Json =
    | JNull
    | JBool(b: bool)
    | JInt(i: int)
    | JString(s: string)
    | JArray(items: seq<Json>)
    | JObject(fields: map<string, Json>)

  const EmptyObject: Json := JObject(map[])

  /** The values Python treats as false in `content or {}` (`None` is `JNull`). */
  predicate Falsy(j: Json)
  {
    j == JNull || j == JBool(false) || j == JInt(0) || j == JString("")
    || j == JArray([]) || j == EmptyObject
  }

  /** `status_messages`: note that it has no entry for 403. */
  const StatusMessages: map<int, string> := map[200 := "OK", 400 := "Bad Request", 404 := "Not Found"]

  /** `status_messages.get(code, 'Unknown')`. */
  function StatusText(code: int): (text: string)
    ensures code == 200 ==> text == "OK"
    ensures code == 400 ==> text == "Bad Request"
    ensures code == 404 ==> text == "Not Found"
    ensures code != 200 && code != 400 && code != 404 ==> text == "Unknown"
    ensures NoCRLF(text) && text != ""
  {
    if code in StatusMessages then StatusMessages[code] else "Unknown"
  }

  datatype Response = Response(statusCode: int, statusText: string, content: Json)

  /** A response as the constructor builds it: the text from the table, no falsy content but `{}`. */
  type BuiltResponse = r: Response | r.statusText == StatusText(r.statusCode) && (Falsy(r.content) ==> r.content == EmptyObject)
    witness Response(200, "OK", EmptyObject)

  /** `Response.__init__`: the text comes from the table, and falsy content becomes `{}`. */
  function NewResponse(code: int, content: Json): (r: BuiltResponse)
    ensures r.statusCode == code && r.statusText == StatusText(code)
    ensures !Falsy(content) ==> r.content == content
    ensures Falsy(content) ==> r.content == EmptyObject
  {
    Response(code, StatusText(code), if Falsy(content) then EmptyObject else content)
  }

  // ---------------------------------------------------------------------
  // `str(code)` and its inverse.

  predicate IsDigit(c: char)
  {
    '0' <= c <= '9'
  }

  function DigitChar(d: nat): (c: char)
    requires d < 10
    ensures IsDigit(c) && c as int - '0' as int == d
  {
    "0123456789"[d]
  }

  /** The decimal digits of `n`, most significant first, with no leading zero. */
  function NatToDecimal(n: nat): (s: string)
    ensures |s| >= 1 && forall i :: 0 <= i < |s| ==> IsDigit(s[i])
    decreases n
  {
    if n < 10 then [DigitChar(n)] else NatToDecimal(n / 10) + [DigitChar(n % 10)]
  }

  /** Python's `str(n)` for an integer. */
  function IntToDecimal(n: int): (s: string)
    ensures |s| >= 1 && forall i :: 0 <= i < |s| ==> IsDigit(s[i]) || s[i] == '-'
  {
    if n < 0 then "-" + NatToDecimal(-n) else NatToDecimal(n)
  }

  /** The value of a string of decimal digits. */
  function DecimalValue(s: string): int
    decreases |s|
  {
    if s == [] then 0 else DecimalValue(s[..|s| - 1]) * 10 + (s[|s| - 1] as int - '0' as int)
  }

  /** Python's `int(s)` on what `str` produces. */
  function ParseDecimal(s: string): int
  {
    if |s| > 0 && s[0] == '-' then -DecimalValue(s[1..]) else DecimalValue(s)
  }

  lemma {:induction false} NatDecimalRoundTrip(n: nat)
    ensures DecimalValue(NatToDecimal(n)) == n
    decreases n
  {
    if n >= 10 {
      var s := NatToDecimal(n);
      NatDecimalRoundTrip(n / 10);
      assert s[..|s| - 1] == NatToDecimal(n / 10);
    }
  }

  /** Reading the status code back from its decimal text gives the code. */
  lemma DecimalRoundTrip(n: int)
    ensures ParseDecimal(IntToDecimal(n)) == n
  {
    if n < 0 {
      NatDecimalRoundTrip(-n);
      assert IntToDecimal(n)[1..] == NatToDecimal(-n);
    } else {
      NatDecimalRoundTrip(n);
    }
  }

  // ---------------------------------------------------------------------
  // Serialisation.

  const ContentTypeLine: string := "Content-Type: application/json"

  /** `to_http_response`: status line, the one header, a blank line, then the encoded content. */
  function ToHttpResponse(r: Response, encode: Json -> string): string
  {
    "HTTP/1.1 " + IntToDecimal(r.statusCode) + " " + r.statusText + "\r\n"
    + "Content-Type: application/json\r\n\r\n"
    + encode(r.content)
  }

  /** What a client reads from a response: the status line's parts, the header lines and the body. */
  datatype Reading = Reading(version: string, code: int, reason: string, headerLines: seq<string>, body: string)

  /**
   * A client's reading of a response: everything before the first blank
   * line is the head; its first line is split at its first two spaces into
   * version, code and reason; the other lines are the header lines.
   */
  function ReadResponse(wire: string): Option<Reading>
  {
    match SplitOnce(wire, BlankLine)
    case None => None
    case Some((head, body)) =>
      var lines := Split(head, CRLF);
      match SplitOnce(lines[0], " ")
      case None => None
      case Some((version, rest)) =>
        match SplitOnce(rest, " ")
        case None => None
        case Some((code, reason)) => Some(Reading(version, ParseDecimal(code), reason, lines[1..], body))
  }

  /**
   * Every serialised response reads back as `HTTP/1.1`, its own code and
   * status text, exactly one header line (the Content-Type line), and the
   * encoding of its content as the body: the first blank line is the one
   * right after the Content-Type line.
   */
  lemma ReadBack(r: Response, encode: Json -> string)
    requires NoCRLF(r.statusText)
    ensures ReadResponse(ToHttpResponse(r, encode))
         == Some(Reading("HTTP/1.1", r.statusCode, r.statusText, [ContentTypeLine], encode(r.content)))
  {
    var lines := [StatusLine(r), ContentTypeLine];
    ResponseSplits(r, encode);
    HeadLinesOfResponse(r);
    assert lines[0] == StatusLine(r) && lines[1..] == [ContentTypeLine];
    StatusLineSplits(r);
  }

  /**
   * Every response the constructor builds reads back with its code, the
   * table's text for that code, the one Content-Type line and its encoded content.
   */
  lemma BuiltResponseReadsBack(r: BuiltResponse, encode: Json -> string)
    ensures ReadResponse(ToHttpResponse(r, encode))
         == Some(Reading("HTTP/1.1", r.statusCode, StatusText(r.statusCode), [ContentTypeLine], encode(r.content)))
  {
    ReadBack(r, encode);
  }

  /** The first blank line separates the two-line head from the encoded content. */
  lemma ResponseSplits(r: Response, encode: Json -> string)
    requires NoCRLF(r.statusText)
    ensures SplitOnce(ToHttpResponse(r, encode), BlankLine)
         == Some((Join([StatusLine(r), ContentTypeLine], CRLF), encode(r.content)))
  {
    WireShape(r, encode);
    HeadSplits(r, encode(r.content));
  }

  /** The head splits back into the status line and the Content-Type line. */
  lemma HeadLinesOfResponse(r: Response)
    requires NoCRLF(r.statusText)
    ensures Split(Join([StatusLine(r), ContentTypeLine], CRLF), CRLF) == [StatusLine(r), ContentTypeLine]
  {
    var lines := [StatusLine(r), ContentTypeLine];
    StatusLineHasNoBreak(r);
    ContentTypeLineHasNoBreak();
    assert forall k :: 0 <= k < |lines| ==> NoCRLF(lines[k]);
    SplitJoinedLines(lines);
  }

  /** The status line without its line break. */
  function StatusLine(r: Response): string
  {
    "HTTP/1.1" + " " + (IntToDecimal(r.statusCode) + " " + r.statusText)
  }

  lemma StatusLineHasNoBreak(r: Response)
    requires NoCRLF(r.statusText)
    ensures NoCRLF(StatusLine(r))
  {
    var code := IntToDecimal(r.statusCode);
    assert forall i :: 0 <= i < |code| ==> code[i] != '\r' && code[i] != '\n';
  }

  lemma ContentTypeLineHasNoBreak()
    ensures NoCRLF(ContentTypeLine) && |ContentTypeLine| > 0
  {
  }

  /** The serialisation is a two-line head, a blank line and the encoded content. */
  lemma WireShape(r: Response, encode: Json -> string)
    ensures ToHttpResponse(r, encode)
         == Join([StatusLine(r), ContentTypeLine], CRLF) + BlankLine + encode(r.content)
  {
    var lines := [StatusLine(r), ContentTypeLine];
    assert lines[1..] == [ContentTypeLine];
    assert Join(lines, CRLF) == StatusLine(r) + CRLF + ContentTypeLine;
  }

  /** The first blank line of the serialisation ends the two-line head. */
  lemma HeadSplits(r: Response, body: string)
    requires NoCRLF(r.statusText)
    ensures var head := Join([StatusLine(r), ContentTypeLine], CRLF);
      SplitOnce(head + BlankLine + body, BlankLine) == Some((head, body))
  {
    var lines := [StatusLine(r), ContentTypeLine];
    StatusLineHasNoBreak(r);
    ContentTypeLineHasNoBreak();
    var head := Join(lines, CRLF);
    var wire := head + BlankLine + body;
    BlankLineEndsHead(lines, body);
    SplitOnceAt(wire, BlankLine, |head|);
    assert wire[..|head|] == head;
    assert wire[|head| + 4..] == body;
  }

  /** The status line splits at its first two spaces into version, code and reason. */
  lemma StatusLineSplits(r: Response)
    ensures SplitOnce(StatusLine(r), " ") == Some(("HTTP/1.1", IntToDecimal(r.statusCode) + " " + r.statusText))
    ensures SplitOnce(IntToDecimal(r.statusCode) + " " + r.statusText, " ") == Some((IntToDecimal(r.statusCode), r.statusText))
    ensures ParseDecimal(IntToDecimal(r.statusCode)) == r.statusCode
  {
    SplitAtSpace("HTTP/1.1", IntToDecimal(r.statusCode) + " " + r.statusText);
    SplitAtSpace(IntToDecimal(r.statusCode), r.statusText);
    DecimalRoundTrip(r.statusCode);
  }

  /** Splitting `w + " " + t` at its first space, where `w` holds no space, gives `w` and `t`. */
  lemma SplitAtSpace(w: string, t: string)
    requires forall i :: 0 <= i < |w| ==> w[i] != ' '
    ensures SplitOnce(w + " " + t, " ") == Some((w, t))
  {
    var s := w + " " + t;
    forall j: nat | j < |w|
      ensures !MatchAt(s, " ", j)
    {
      MismatchAt(s, " ", j, 0);
    }
    assert MatchAt(s, " ", |w|);
    SplitOnceAt(s, " ", |w|);
    assert s[..|w|] == w;
    assert s[|w| + 1..] == t;
  }

  /** The table has no 403: a 403 response goes out, and reads back, as `HTTP/1.1 403 Unknown`. */
  lemma ForbiddenIsUnknown(content: Json, encode: Json -> string)
    ensures StatusLine(NewResponse(403, content)) == "HTTP/1.1 403 Unknown"
    ensures ReadResponse(ToHttpResponse(NewResponse(403, content), encode))
         == Some(Reading("HTTP/1.1", 403, "Unknown", [ContentTypeLine], encode(NewResponse(403, content).content)))
  {
    var r := NewResponse(403, content);
    assert r.statusText == "Unknown";
    DecimalOf403();
    assert IntToDecimal(403) + " " + "Unknown" == "403 Unknown";
    assert "HTTP/1.1" + " " + "403 Unknown" == "HTTP/1.1 403 Unknown";
    ReadBack(r, encode);
  }

  lemma DecimalOf403()
    ensures IntToDecimal(403) == "403"
  {
    assert DigitChar(4) == '4' && DigitChar(0) == '0' && DigitChar(3) == '3';
    assert NatToDecimal(4) == "4";
    assert NatToDecimal(40) == NatToDecimal(4) + [DigitChar(0)];
    assert NatToDecimal(403) == NatToDecimal(40) + [DigitChar(3)];
  }
}
