/**
 * The request model: a decoded request string is turned into an HTTP method, a
 * path, a header map and a body, or into the empty sentinel request when the
 * text is malformed. Parsing never fails past this boundary.
 */
module HttpRequest {
  import opened Wrappers
  import opened Strings

  type Headers = map<string, string>

  /**
   * The stored body: the text after the blank line, or an empty JSON object
   * where that text is empty (the constructor replaces a falsy body by `{}`).
   */
  datatype Body = Text(text: string) | EmptyDict

  datatype Request = Request(httpMethod: string, path: string, headers: Headers, body: Body)

  /**
   * The constructor. A missing or empty header map and a missing or empty
   * body are both replaced by an empty dictionary; anything else is kept.
   */
  function NewRequest(httpMethod: string, path: string, headers: Option<Headers>, body: Option<string>): (r: Request)
    ensures r.httpMethod == httpMethod && r.path == path
    ensures headers.Some? ==> r.headers == headers.value
    ensures headers.None? ==> r.headers == map[]
    ensures r.body.EmptyDict? <==> (body.None? || body.value == "")
    ensures r.body.Text? ==> body.Some? && r.body.text == body.value && r.body.text != ""
  {
    var h := if headers.Some? && headers.value != map[] then headers.value else map[];
    var b := if body.Some? && body.value != "" then Text(body.value) else EmptyDict;
    Request(httpMethod, path, h, b)
  }

  /** The request returned for any malformed input. */
  function Sentinel(): (r: Request)
    ensures r == Request("", "", map[], EmptyDict)
  {
    NewRequest("", "", Some(map[]), Some(""))
  }

  /** The name and value of one header line, split at its first `": "`, if it has one. */
  function SplitField(line: string): (r: Option<(string, string)>)
    ensures r.None? <==> Free(line, FieldSep)
    ensures r.Some? ==> line == r.value.0 + FieldSep + r.value.1 && Free(r.value.0, FieldSep)
  {
    var r := SplitOnce(line, FieldSep);
    if r.None? then r
    else
      FreePrefix(line, FieldSep, r.value.0);
      r
  }

  /** The header map built by the loop over the header lines: a left fold, later lines overwriting earlier ones. */
  function HeaderMap(lines: seq<string>): Headers
    decreases |lines|
  {
    if lines == [] then map[]
    else Store(HeaderMap(lines[..|lines| - 1]), lines[|lines| - 1])
  }

  /** One step of the header loop: a line with `": "` stores its value under its name; any other line is skipped. */
  function Store(acc: Headers, line: string): Headers
  {
    match SplitField(line)
    case None => acc
    case Some((key, value)) => acc[key := value]
  }

  /** `line` is a header line whose name is `key`. */
  predicate HasKey(line: string, key: string)
  {
    var f := SplitField(line);
    f.Some? && f.value.0 == key
  }

  /** The value of a header line (only meaningful when it has a name). */
  function ValueOf(line: string): string
  {
    match SplitField(line)
    case None => ""
    case Some((_, value)) => value
  }

  /**
   * The header loop, as written: for each line that contains `": "`, store
   * the text after its first `": "` under the text before it.
   */
  method BuildHeaderDict(lines: seq<string>) returns (headerDict: Headers)
    ensures headerDict == HeaderMap(lines)
  {
    headerDict := map[];
    var i := 0;
    while i < |lines|
      invariant 0 <= i <= |lines|
      invariant headerDict == HeaderMap(lines[..i])
    {
      var line := lines[i];
      assert lines[..i + 1][..i] == lines[..i];
      var field := SplitOnce(line, FieldSep);
      if field.Some? {
        var (key, value) := field.value;
        headerDict := headerDict[key := value];
      }
      i := i + 1;
    }
    assert lines[..i] == lines;
  }

  /**
   * `Request.from_raw`: split at the first blank line, split the head into
   * lines, split the request line on whitespace into exactly three tokens
   * (the third, the version, is dropped), then fold the header lines.
   * Every failure yields the sentinel; nothing is half-parsed.
   */
  function Parse(raw: string): (r: Request)
    ensures r == Sentinel() || (IsWord(r.httpMethod) && IsWord(r.path))
    ensures r.httpMethod == "" <==> r == Sentinel()
  {
    match SplitOnce(raw, BlankLine)
    case None => Sentinel()
    case Some((head, body)) =>
      var lines := Split(head, CRLF);
      var tokens := Words(lines[0]);
      if |tokens| != 3 then Sentinel()
      else NewRequest(tokens[0], tokens[1], Some(HeaderMap(lines[1..])), Some(body))
  }

  /** The same parse, with the header loop run as a loop. */
  method FromRaw(raw: string) returns (request: Request)
    ensures request == Parse(raw)
  {
    var split := SplitOnce(raw, BlankLine);
    if split.None? {
      return Sentinel();
    }
    var (head, body) := split.value;
    var lines := Split(head, CRLF);
    var requestLine, headerLines := lines[0], lines[1..];
    var tokens := Words(requestLine);
    if |tokens| != 3 {
      return Sentinel();
    }
    var httpMethod, path := tokens[0], tokens[1];
    var headerDict := BuildHeaderDict(headerLines);
    request := NewRequest(httpMethod, path, Some(headerDict), Some(body));
  }

  // ---------------------------------------------------------------------
  // What the parse promises.

  /** The parse fails exactly when there is no blank line or the request line is not three tokens. */
  lemma SentinelExactlyOnFailure(raw: string)
    ensures Parse(raw) == Sentinel() <==>
      (Free(raw, BlankLine)
       || |Words(Split(SplitOnce(raw, BlankLine).value.0, CRLF)[0])| != 3)
  {
  }

  /** Runs of whitespace, tabs and a trailing space in the request line still give three tokens. */
  lemma LooseRequestLineTokens()
    ensures Words("GET  /\tHTTP/1.1 ") == ["GET", "/", "HTTP/1.1"]
  {
    var ws, gaps := ["GET", "/", "HTTP/1.1"], ["", "  ", "\t", " "];
    assert Spaced(ws[2..], gaps[2..]) == "\tHTTP/1.1 ";
    assert Spaced(ws[1..], gaps[1..]) == "  /\tHTTP/1.1 ";
    assert Spaced(ws, gaps) == "GET  /\tHTTP/1.1 ";
    WordsOfSpaced(ws, gaps);
  }

  /** Without a blank line the result is the sentinel. */
  lemma NoBlankLineGivesSentinel(raw: string)
    requires Free(raw, BlankLine)
    ensures Parse(raw) == Request("", "", map[], EmptyDict)
  {
  }

  /**
   * The head ends at the FIRST blank line; the body is everything after it,
   * later blank lines included, and an empty body is stored as `{}`.
   */
  lemma BodyFollowsFirstBlankLine(raw: string, i: nat)
    requires MatchAt(raw, BlankLine, i) && FreeBefore(raw, BlankLine, i)
    requires Parse(raw) != Sentinel()
    ensures raw[i + 4..] == "" ==> Parse(raw).body == EmptyDict
    ensures raw[i + 4..] != "" ==> Parse(raw).body == Text(raw[i + 4..])
  {
    SplitOnceAt(raw, BlankLine, i);
  }

  /** A line without `": "` contributes nothing, wherever it stands. */
  lemma {:induction false} LineWithoutSeparatorSkipped(lines: seq<string>, i: nat)
    requires i < |lines| && Free(lines[i], FieldSep)
    ensures HeaderMap(lines) == HeaderMap(lines[..i] + lines[i + 1..])
    decreases |lines|
  {
    var n := |lines|;
    var init := lines[..n - 1];
    assert HeaderMap(lines) == Store(HeaderMap(init), lines[n - 1]);
    if i == n - 1 {
      assert lines[..i] + lines[i + 1..] == init;
      StoreSkips(HeaderMap(init), lines[i]);
    } else {
      LineWithoutSeparatorSkipped(init, i);
      var removed := lines[..i] + lines[i + 1..];
      assert init[..i] + init[i + 1..] == removed[..|removed| - 1];
      assert removed[|removed| - 1] == lines[n - 1];
      assert HeaderMap(removed) == Store(HeaderMap(removed[..|removed| - 1]), removed[|removed| - 1]);
    }
  }

  /** A line without `": "` leaves the map as it is. */
  lemma StoreSkips(acc: Headers, line: string)
    requires Free(line, FieldSep)
    ensures Store(acc, line) == acc
  {
  }

  /** A name is in the map exactly when some header line carries it. */
  lemma {:induction false} HeaderMapKeys(lines: seq<string>, key: string)
    ensures key in HeaderMap(lines) <==> exists i :: 0 <= i < |lines| && HasKey(lines[i], key)
    decreases |lines|
  {
    if lines != [] {
      var n := |lines|;
      var init, last := lines[..n - 1], lines[n - 1];
      assert HeaderMap(lines) == Store(HeaderMap(init), last);
      HeaderMapKeys(init, key);
      StoreKeys(HeaderMap(init), last, key);
      assert lines == init + [last];
      SomeInPrefixOrLast(init, last, line => HasKey(line, key));
    }
  }

  /** Some line satisfies `p` exactly when an earlier line or the last one does. */
  lemma SomeInPrefixOrLast(init: seq<string>, last: string, p: string -> bool)
    ensures (exists i :: 0 <= i < |init + [last]| && p((init + [last])[i]))
        <==> (exists i :: 0 <= i < |init| && p(init[i])) || p(last)
  {
    var lines := init + [last];
    assert forall i :: 0 <= i < |init| ==> lines[i] == init[i];
    assert lines[|init|] == last;
    if exists i :: 0 <= i < |lines| && p(lines[i]) {
      var i :| 0 <= i < |lines| && p(lines[i]);
      if i < |init| {
        assert p(init[i]);
      }
    }
  }

  /** One step adds the line's name, if it has one, and keeps every other name. */
  lemma StoreKeys(acc: Headers, line: string, key: string)
    ensures key in Store(acc, line) <==> key in acc || HasKey(line, key)
  {
  }

  /** For a repeated name the value of the LAST line that carries it wins. */
  lemma {:induction false} LastOccurrenceWins(lines: seq<string>, key: string, i: nat)
    requires i < |lines| && HasKey(lines[i], key)
    requires forall j :: i < j < |lines| ==> !HasKey(lines[j], key)
    ensures key in HeaderMap(lines) && HeaderMap(lines)[key] == ValueOf(lines[i])
    decreases |lines|
  {
    var n := |lines|;
    var init := lines[..n - 1];
    var acc := HeaderMap(init);
    assert HeaderMap(lines) == Store(acc, lines[n - 1]);
    StoreValue(acc, lines[n - 1], key);
    if i < n - 1 {
      assert init[i] == lines[i];
      assert !HasKey(lines[n - 1], key);
      NoneAfterInPrefix(lines, init, i, line => HasKey(line, key));
      LastOccurrenceWins(init, key, i);
      assert key in acc && acc[key] == ValueOf(lines[i]);
    }
  }

  /** What holds of no line after `i` holds of no line after `i` in the prefix without the last line. */
  lemma NoneAfterInPrefix(lines: seq<string>, init: seq<string>, i: nat, p: string -> bool)
    requires lines != [] && init == lines[..|lines| - 1]
    requires forall j :: i < j < |lines| ==> !p(lines[j])
    ensures forall j :: i < j < |init| ==> !p(init[j])
  {
    assert forall j :: 0 <= j < |init| ==> init[j] == lines[j];
  }

  /** One step stores the line's value under its own name and leaves every other name's value alone. */
  lemma StoreValue(acc: Headers, line: string, key: string)
    ensures HasKey(line, key) ==> key in Store(acc, line) && Store(acc, line)[key] == ValueOf(line)
    ensures !HasKey(line, key) && key in acc ==> key in Store(acc, line) && Store(acc, line)[key] == acc[key]
  {
  }

  /** A line `name: value` whose name holds no `": "` splits back into that name and value, even when the value holds `": "`. */
  lemma SplitFieldLine(field: (string, string))
    requires Free(field.0, FieldSep)
    ensures SplitField(FieldLine(field)) == Some(field)
  {
    var (key, value) := field;
    var line := FieldLine(field);
    assert line == key + FieldSep + value;
    forall j: nat | j < |key|
      ensures !MatchAt(line, FieldSep, j)
    {
      if j + 1 < |key| {
        assert !MatchAt(key, FieldSep, j);
        assert line[j] == key[j] && line[j + 1] == key[j + 1];
      } else {
        assert line[j + 1] == ':';
        MismatchAt(line, FieldSep, j, 1);
      }
    }
    assert MatchAt(line, FieldSep, |key|);
    SplitOnceAt(line, FieldSep, |key|);
    assert line[..|key|] == key;
    assert line[|key| + 2..] == value;
  }

  // ---------------------------------------------------------------------
  // Round trip.

  /** The header map a client means by a list of fields: later fields overwrite earlier ones. */
  function FieldMap(fields: seq<(string, string)>): Headers
    decreases |fields|
  {
    if fields == [] then map[]
    else FieldMap(fields[..|fields| - 1])[fields[|fields| - 1].0 := fields[|fields| - 1].1]
  }

  /** A field a client can send so that it reads back unchanged. */
  ghost predicate SendableField(field: (string, string))
  {
    WireField(field) && Free(field.0, FieldSep)
  }

  /** The text a client sends: `M P V`, one `name: value` line per field, a blank line, the body. */
  function Compose(httpMethod: string, path: string, version: string, fields: seq<(string, string)>, body: string): string
  {
    Join(HeadLines(Join([httpMethod, path, version], " "), fields), CRLF) + BlankLine + body
  }

  /** Folding the lines of sendable fields gives the client's header map. */
  lemma {:induction false} HeaderMapOfFields(fields: seq<(string, string)>)
    requires forall k :: 0 <= k < |fields| ==> SendableField(fields[k])
    ensures HeaderMap(HeadLines("", fields)[1..]) == FieldMap(fields)
    decreases |fields|
  {
    var lines := HeadLines("", fields)[1..];
    if fields != [] {
      var n := |fields|;
      var init := fields[..n - 1];
      HeaderMapOfFields(init);
      assert lines[..n - 1] == HeadLines("", init)[1..];
      SplitFieldLine(fields[n - 1]);
    } else {
      assert lines == [];
    }
  }

  /**
   * Parsing what a client composes from whitespace-free httpMethod, path and
   * version tokens and from sendable fields recovers the httpMethod, the path,
   * the header map (last duplicate wins) and the body.
   */
  lemma {:induction false} ParseCompose(httpMethod: string, path: string, version: string, fields: seq<(string, string)>, body: string)
    requires IsWord(httpMethod) && IsWord(path) && IsWord(version)
    requires forall k :: 0 <= k < |fields| ==> SendableField(fields[k])
    ensures Parse(Compose(httpMethod, path, version, fields, body))
         == NewRequest(httpMethod, path, Some(FieldMap(fields)), Some(body))
  {
    var first := Join([httpMethod, path, version], " ");
    var lines := HeadLines(first, fields);
    WordsOfJoin([httpMethod, path, version]);
    RequestLineHasNoBreak(httpMethod, path, version);
    HeadLinesShape(first, fields);
    ComposeSplits(lines, body);
    SplitJoinedLines(lines);
    assert lines[1..] == HeadLines("", fields)[1..];
    HeaderMapOfFields(fields);
  }

  /** The request line `M P V` of whitespace-free tokens holds no line break. */
  lemma RequestLineHasNoBreak(httpMethod: string, path: string, version: string)
    requires IsWord(httpMethod) && IsWord(path) && IsWord(version)
    ensures NoCRLF(Join([httpMethod, path, version], " "))
  {
    assert [httpMethod, path, version][1..] == [path, version];
    assert [path, version][1..] == [version];
    assert Join([version], " ") == version;
    assert Join([path, version], " ") == path + " " + version;
    assert Join([httpMethod, path, version], " ") == httpMethod + " " + (path + " " + version);
  }

  /** The lines of a composed head hold no line break, and its field lines are not empty. */
  lemma HeadLinesShape(first: string, fields: seq<(string, string)>)
    requires NoCRLF(first)
    requires forall k :: 0 <= k < |fields| ==> SendableField(fields[k])
    ensures forall k :: 0 <= k < |HeadLines(first, fields)| ==> NoCRLF(HeadLines(first, fields)[k])
    ensures forall k :: 1 <= k < |HeadLines(first, fields)| ==> |HeadLines(first, fields)[k]| > 0
  {
    var lines := HeadLines(first, fields);
    forall k | 1 <= k < |lines|
      ensures NoCRLF(lines[k]) && |lines[k]| > 0
    {
      FieldLineShape(fields[k - 1]);
    }
  }

  /** A composed request splits at the blank line right after its head. */
  lemma ComposeSplits(lines: seq<string>, body: string)
    requires |lines| >= 1
    requires forall k :: 0 <= k < |lines| ==> NoCRLF(lines[k])
    requires forall k :: 1 <= k < |lines| ==> |lines[k]| > 0
    ensures SplitOnce(Join(lines, CRLF) + BlankLine + body, BlankLine) == Some((Join(lines, CRLF), body))
  {
    BlankLineEndsHead(lines, body);
    SplitAtFirst(Join(lines, CRLF), body, BlankLine);
  }

}
