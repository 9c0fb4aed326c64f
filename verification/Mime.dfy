/** Multipart messages: the printer, the parser, and why one undoes the other. Headers are printed
    in the order of a sequence and parsed into a map. */
module Mime {
  import opened Basics
  import opened Text
  import B = Base64
  import QP = QuotedPrintable

  datatype Header = Header(key: string, value: string)
  datatype Part = Part(headers: seq<Header>, body: seq<byte>)
  datatype Message = Message(headers: seq<Header>, parts: seq<Part>)

  type HeaderMap = map<string, string>
  datatype ParsedPart = ParsedPart(headers: HeaderMap, body: seq<byte>)
  datatype ParsedMessage = ParsedMessage(headers: HeaderMap, parts: seq<ParsedPart>)

  const CRLF: string := ['\r', '\n']
  const GAP: string := ['\r', '\n', '\r', '\n']
  const DASHES: string := ['-', '-']
  const ENCODING: string := "Content-Transfer-Encoding"

  /** What separates one part from the next. */
  function Marker(boundary: string): string { DASHES + boundary }

  function Delimiter(boundary: string): string { CRLF + Marker(boundary) }

  datatype Encoding = AsBase64 | AsQuotedPrintable | AsIs

  function EncodingOf(headers: HeaderMap): Encoding {
    if ENCODING in headers && headers[ENCODING] == "base64" then AsBase64
    else if ENCODING in headers && headers[ENCODING] == "quoted-printable" then AsQuotedPrintable
    else AsIs
  }

  function EncodeBody(body: seq<byte>, encoding: Encoding): string {
    match encoding
    case AsBase64 => B.Encode(body, B.STANDARD)
    case AsQuotedPrintable => QP.Encode(body)
    case AsIs => TextOf(body)
  }

  function DecodeBody(text: string, encoding: Encoding): Option<seq<byte>> {
    match encoding
    case AsBase64 => B.Decode(text)
    case AsQuotedPrintable => Some(QP.Decode(text))
    case AsIs => Some(BytesOf(text))
  }

  lemma BodyRoundTrip(body: seq<byte>, encoding: Encoding)
    ensures DecodeBody(EncodeBody(body, encoding), encoding) == Some(body)
  {
    match encoding
    case AsBase64 => B.DecodeEncode(body);
    case AsQuotedPrintable => QP.DecodeEncode(body);
    case AsIs => BytesOfText(body);
  }

  // ---------------------------------------------------------------------------------------
  // Printing

  function Line(h: Header): string { h.key + [':', ' '] + h.value }

  /** The header lines, each with its line end. */
  function Lines(headers: seq<Header>): string {
    if headers == [] then [] else Line(headers[0]) + CRLF + Lines(headers[1..])
  }

  function ContentType(boundary: string): string {
    "multipart/mixed; boundary=" + (['"'] + boundary + ['"'])
  }

  /** The headers that the printer adds to those of the message. */
  function AllHeaders(m: Message, boundary: string): seq<Header> {
    m.headers + [Header("MIME-Version", "1.0"), Header("Content-Type", ContentType(boundary))]
  }

  function PartText(p: Part): string {
    Lines(p.headers) + CRLF + EncodeBody(p.body, EncodingOf(MapOf(p.headers)))
  }

  function PartsText(parts: seq<Part>, boundary: string): string {
    if parts == [] then Marker(boundary) + DASHES + CRLF
    else Marker(boundary) + CRLF + PartText(parts[0]) + CRLF + PartsText(parts[1..], boundary)
  }

  function Render(m: Message, boundary: string): string {
    Lines(AllHeaders(m, boundary)) + CRLF + PartsText(m.parts, boundary)
  }

  /** A part is printed as its transfer encoding says (section 6.1 of RFC 2045). */
  lemma PartEncodings(p: Part)
    ensures var h, head := MapOf(p.headers), Lines(p.headers) + "\r\n";
            var named := "Content-Transfer-Encoding" in h;
            PartText(p) == head + if named && h["Content-Transfer-Encoding"] == "base64" then B.Encode(p.body, B.STANDARD)
                                  else if named && h["Content-Transfer-Encoding"] == "quoted-printable" then QP.Encode(p.body)
                                  else TextOf(p.body)
  {
    hide Lines, MapOf, B.Encode, QP.Encode;
    assert "\r\n" == CRLF;
  }

  // ---------------------------------------------------------------------------------------
  // Parsing headers

  /** Of several headers with one key the last counts. */
  function Merge(m: HeaderMap, headers: seq<Header>): HeaderMap
    decreases |headers|
  {
    if headers == [] then m else Merge(m[headers[0].key := headers[0].value], headers[1..])
  }

  function MapOf(headers: seq<Header>): HeaderMap { Merge(map[], headers) }

  function TrimValue(s: string): string {
    TrimLeft(TrimRight(s, {'\r', '\n', ' ', '\t'}), {' ', '\t'})
  }

  /** The headers read so far, and the key that a folded line continues. */
  datatype HeaderState = HeaderState(headers: HeaderMap, current: string)

  function ReadLine(s: HeaderState, line: string): HeaderState {
    if line == [] then s
    else if s.current != [] && (line[0] == ' ' || line[0] == '\t') then
      var so_far := if s.current in s.headers then s.headers[s.current] else [];
      s.(headers := s.headers[s.current := so_far + TrimValue(line)])
    else
      var colon := Find(line, [':'], 0);
      if colon.None? then s
      else
        var key := line[..colon.value];
        HeaderState(s.headers[key := TrimValue(line[colon.value + 1..])], key)
  }

  /** A line without the carriage return that ends it. */
  function WithoutReturn(line: string): string {
    if line != [] && line[|line| - 1] == '\r' then line[..|line| - 1] else line
  }

  function ReadLines(s: HeaderState, raw: string): HeaderState
    decreases |raw|
  {
    if raw == [] then s else ReadLines(ReadLine(s, WithoutReturn(TakeLine(raw))), DropLine(raw))
  }

  function ParsedHeaders(raw: string): HeaderMap {
    ReadLines(HeaderState(map[], []), raw).headers
  }

  // ---------------------------------------------------------------------------------------
  // Parsing messages

  function GetBoundary(contentType: string): Result<string> {
    var marker := Find(contentType, "boundary=", 0);
    if marker.None? then Success([])
    else BoundaryValue(TrimValue(contentType[marker.value + 9..]))
  }

  function BoundaryValue(value: string): Result<string> {
    if value != [] && value[0] == '"' then
      var end := Find(value, ['"'], 1);
      if end.None? then Failure("unterminated MIME boundary") else Success(value[1..end.value])
    else
      var semicolon := Find(value, [';'], 0);
      Success(TrimValue(if semicolon.None? then value else value[..semicolon.value]))
  }

  function SkipLineEnd(text: string): string {
    if StartsWith(text, CRLF) then text[2..] else text
  }

  datatype Piece = Finished | Broken(error: string) | Next(part: ParsedPart, rest: string)

  /** The next part of what is left of a message. */
  function NextPart(text: string, marker: string): (p: Piece)
    ensures p.Next? ==> |p.rest| < |text|
  {
    var at := Find(text, marker, 0);
    if at.None? then Finished
    else
      var after := text[at.value + |marker|..];
      if |after| > 1 && after[0] == '-' && after[1] == '-' then Finished
      else
        var inner := SkipLineEnd(after);
        var gap := Find(inner, GAP, 0);
        if gap.None? then Broken("invalid MIME part: missing header separator")
        else PartAfterHeaders(ParsedHeaders(inner[..gap.value]), inner[gap.value + 4..], marker)
  }

  function PartAfterHeaders(headers: HeaderMap, text: string, marker: string): (p: Piece)
    ensures p.Next? ==> |p.rest| <= |text|
  {
    var end := Find(text, CRLF + marker, 0);
    if end.None? then Broken("invalid MIME message: unterminated boundary")
    else
      var body := DecodeBody(text[..end.value], EncodingOf(headers));
      if body.None? then Broken("invalid base64") else Next(ParsedPart(headers, body.value), text[end.value + 2..])
  }

  function ParseParts(text: string, marker: string): Result<seq<ParsedPart>>
    decreases |text|
  {
    match NextPart(text, marker)
    case Finished => Success([])
    case Broken(error) => Failure(error)
    case Next(part, rest) =>
      var others := ParseParts(rest, marker);
      if others.Failure? then others else Success([part] + others.value)
  }

  function Parse(raw: string): Result<ParsedMessage> {
    var gap := Find(raw, GAP, 0);
    if gap.None? then Failure("invalid MIME message: missing header separator")
    else ParseBody(ParsedHeaders(raw[..gap.value]), raw[gap.value + 4..])
  }

  function ParseBody(headers: HeaderMap, text: string): Result<ParsedMessage> {
    if "Content-Type" !in headers then Failure("invalid MIME message: missing content type")
    else
      var boundary := GetBoundary(headers["Content-Type"]);
      if boundary.Failure? then Failure(boundary.error)
      else if boundary.value == [] then Failure("invalid MIME message: missing multipart boundary")
      else
        var parts := ParseParts(text, Marker(boundary.value));
        if parts.Failure? then Failure(parts.error) else Success(ParsedMessage(headers, parts.value))
  }

  // ---------------------------------------------------------------------------------------
  // The program

  method HeaderLines(headers: seq<Header>) returns (out: string)
    ensures out == Lines(headers)
  {
    out := [];
    for i := 0 to |headers|
      invariant out + Lines(headers[i..]) == Lines(headers)
    {
      LinesNext(headers, i, out);
      hide Lines;
      out := out + headers[i].key + [':', ' '] + headers[i].value + CRLF;
    }
  }

  lemma LinesNext(headers: seq<Header>, i: nat, out: string)
    requires i < |headers|
    ensures out + headers[i].key + [':', ' '] + headers[i].value + CRLF + Lines(headers[i + 1..]) == out + Lines(headers[i..])
  {
    assert headers[i..][1..] == headers[i + 1..];
  }

  method RenderMultipartMixed(m: Message, boundary: string) returns (out: string)
    ensures out == Render(m, boundary)
  {
    hide Lines, EncodeBody, ContentType, Marker, MapOf;
    var head := HeaderLines(AllHeaders(m, boundary));
    out := head + CRLF;
    for i := 0 to |m.parts|
      invariant out + PartsText(m.parts[i..], boundary) == Render(m, boundary)
    {
      var part := m.parts[i];
      var lines := HeaderLines(part.headers);
      var body: string;
      match EncodingOf(MapOf(part.headers)) {
        case AsBase64 => body := B.Base64Encode(part.body, B.STANDARD);
        case AsQuotedPrintable => body := QP.EncodeQuotedPrintable(part.body);
        case AsIs => body := TextOf(part.body);
      }
      EncodeBodyIs(part, body);
      PartsTextNext(m.parts, boundary, i, out);
      assert PartText(part) == lines + CRLF + body;
      out := out + Marker(boundary) + CRLF + (lines + CRLF + body) + CRLF;
    }
    assert m.parts[|m.parts|..] == [];
    out := out + (Marker(boundary) + DASHES + CRLF);
  }

  lemma EncodeBodyIs(p: Part, body: string)
    requires match EncodingOf(MapOf(p.headers))
             case AsBase64 => body == B.Encode(p.body, B.STANDARD)
             case AsQuotedPrintable => body == QP.Encode(p.body)
             case AsIs => body == TextOf(p.body)
    ensures body == EncodeBody(p.body, EncodingOf(MapOf(p.headers)))
  {
  }

  lemma PartsTextNext(parts: seq<Part>, boundary: string, i: nat, out: string)
    requires i < |parts|
    ensures out + Marker(boundary) + CRLF + PartText(parts[i]) + CRLF + PartsText(parts[i + 1..], boundary)
            == out + PartsText(parts[i..], boundary)
  {
    hide PartText, Marker;
    assert parts[i..][1..] == parts[i + 1..];
  }

  method ParseHeaders(raw: string) returns (headers: HeaderMap)
    ensures headers == ParsedHeaders(raw)
  {
    headers := map[];
    var current, rest := [], raw;
    while rest != []
      invariant ReadLines(HeaderState(headers, current), rest).headers == ParsedHeaders(raw)
      decreases |rest|
    {
      ReadOneLine(HeaderState(headers, current), rest);
      hide ReadLines, WithoutReturn, TakeLine, DropLine, Find, TrimValue, ParsedHeaders;
      var line := WithoutReturn(TakeLine(rest));
      rest := DropLine(rest);
      if line == [] {
        continue;
      }
      if current != [] && (line[0] == ' ' || line[0] == '\t') {
        headers := headers[current := (if current in headers then headers[current] else []) + TrimValue(line)];
        continue;
      }
      var colon := Find(line, [':'], 0);
      if colon.None? {
        continue;
      }
      current := line[..colon.value];
      headers := headers[current := TrimValue(line[colon.value + 1..])];
    }
  }

  lemma ReadOneLine(s: HeaderState, raw: string)
    requires raw != []
    ensures ReadLines(s, raw) == ReadLines(ReadLine(s, WithoutReturn(TakeLine(raw))), DropLine(raw))
  {
  }

  method ParseMessage(raw: string) returns (r: Result<ParsedMessage>)
    ensures r == Parse(raw)
  {
    hide Find, GetBoundary, ParseParts, ParsedHeaders, Marker;
    var gap := Find(raw, GAP, 0);
    if gap.None? {
      return Failure("invalid MIME message: missing header separator");
    }
    var headers := ParseHeaders(raw[..gap.value]);
    if "Content-Type" !in headers {
      return Failure("invalid MIME message: missing content type");
    }
    var boundary := GetBoundary(headers["Content-Type"]);
    if boundary.Failure? {
      return Failure(boundary.error);
    }
    if boundary.value == [] {
      return Failure("invalid MIME message: missing multipart boundary");
    }
    var parts := ParseAllParts(raw, gap.value + 4, Marker(boundary.value));
    if parts.Failure? {
      return Failure(parts.error);
    }
    r := Success(ParsedMessage(headers, parts.value));
  }

  function Prefixed(parts: seq<ParsedPart>, more: Result<seq<ParsedPart>>): Result<seq<ParsedPart>> {
    if more.Failure? then more else Success(parts + more.value)
  }

  lemma ParsePartsNext(text: string, marker: string, parts: seq<ParsedPart>)
    ensures Prefixed(parts, ParseParts(text, marker)) ==
            match NextPart(text, marker)
            case Finished => Success(parts)
            case Broken(error) => Failure(error)
            case Next(part, rest) => Prefixed(parts + [part], ParseParts(rest, marker))
  {
    hide NextPart;
    match NextPart(text, marker)
    case Finished => assert parts + [] == parts;
    case Broken(error) =>
    case Next(part, rest) =>
      var others := ParseParts(rest, marker);
      if others.Success? {
        assert parts + ([part] + others.value) == parts + [part] + others.value;
      }
  }

  /** The part whose headers begin at `start`. */
  method ReadPart(raw: string, start: nat, marker: string) returns (piece: Piece)
    requires start <= |raw|
    ensures var inner := raw[start..];
            var gap := Find(inner, GAP, 0);
            piece == if gap.None? then Broken("invalid MIME part: missing header separator")
                     else PartAfterHeaders(ParsedHeaders(inner[..gap.value]), inner[gap.value + 4..], marker)
  {
    hide Find, ParsedHeaders, DecodeBody, EncodingOf;
    FindFrom(raw, GAP, start);
    ghost var inner := raw[start..];
    var headerEnd := Find(raw, GAP, start);
    if headerEnd.None? {
      return Broken("invalid MIME part: missing header separator");
    }
    ghost var gap := headerEnd.value - start;
    var cursor := headerEnd.value + 4;
    assert raw[start..headerEnd.value] == inner[..gap] && raw[cursor..] == inner[gap + 4..];
    var headers := ParseHeaders(raw[start..headerEnd.value]);
    FindFrom(raw, CRLF + marker, cursor);
    ghost var tail := raw[cursor..];
    var next := Find(raw, CRLF + marker, cursor);
    if next.None? {
      return Broken("invalid MIME message: unterminated boundary");
    }
    ghost var end := next.value - cursor;
    assert raw[cursor..next.value] == tail[..end] && raw[next.value + 2..] == tail[end + 2..];
    var body := DecodeBody(raw[cursor..next.value], EncodingOf(headers));
    if body.None? {
      return Broken("invalid base64");
    }
    piece := Next(ParsedPart(headers, body.value), raw[next.value + 2..]);
  }

  lemma NextPartAt(text: string, marker: string, at: nat)
    requires Find(text, marker, 0) == Some(at) && at + |marker| <= |text|
    ensures var after := text[at + |marker|..];
            var inner := SkipLineEnd(after);
            var gap := Find(inner, GAP, 0);
            NextPart(text, marker) ==
            if |after| > 1 && after[0] == '-' && after[1] == '-' then Finished
            else if gap.None? then Broken("invalid MIME part: missing header separator")
            else PartAfterHeaders(ParsedHeaders(inner[..gap.value]), inner[gap.value + 4..], marker)
  {
    hide Find, PartAfterHeaders, ParsedHeaders, SkipLineEnd;
  }

  lemma NoNextPart(text: string, marker: string)
    requires Find(text, marker, 0) == None
    ensures NextPart(text, marker) == Finished
  {
    hide Find;
  }

  lemma SkipsLineEnd(raw: string, cursor: nat)
    requires cursor <= |raw|
    ensures SkipLineEnd(raw[cursor..]) == if StartsWith(raw[cursor..], CRLF) then raw[cursor + 2..] else raw[cursor..]
  {
    if StartsWith(raw[cursor..], CRLF) { assert raw[cursor..][2..] == raw[cursor + 2..]; }
  }

  /** The next marker, and the part after it unless it is the last one. */
  method FindPart(raw: string, start: nat, marker: string) returns (piece: Piece)
    requires start <= |raw|
    ensures piece == NextPart(raw[start..], marker)
  {
    hide Find, PartAfterHeaders, ParsedHeaders, NextPart, SkipLineEnd;
    FindFrom(raw, marker, start);
    ghost var text := raw[start..];
    var partStart := Find(raw, marker, start);
    if partStart.None? {
      NoNextPart(text, marker);
      return Finished;
    }
    var cursor := partStart.value + |marker|;
    ghost var after := raw[cursor..];
    assert after == text[partStart.value - start + |marker|..];
    NextPartAt(text, marker, partStart.value - start);
    if cursor + 1 < |raw| && raw[cursor] == '-' && raw[cursor + 1] == '-' {
      return Finished;
    }
    SkipsLineEnd(raw, cursor);
    if StartsWith(raw[cursor..], CRLF) {
      cursor := cursor + 2;
    }
    piece := ReadPart(raw, cursor, marker);
  }

  /** The parser's loop: the cursor moves from delimiter to delimiter. */
  method ParseAllParts(raw: string, start: nat, marker: string) returns (r: Result<seq<ParsedPart>>)
    requires start <= |raw|
    ensures r == ParseParts(raw[start..], marker)
  {
    hide NextPart;
    var parts: seq<ParsedPart> := [];
    var rest := raw[start..];
    ghost var whole := ParseParts(rest, marker);
    assert whole == Prefixed([], whole) by {
      if whole.Success? { assert [] + whole.value == whole.value; }
    }
    while true
      invariant whole == Prefixed(parts, ParseParts(rest, marker))
      decreases |rest|
    {
      ParsePartsNext(rest, marker, parts);
      hide ParseParts;
      assert rest[0..] == rest;
      var piece := FindPart(rest, 0, marker);
      match piece {
        case Finished => return Success(parts);
        case Broken(error) => return Failure(error);
        case Next(part, tail) =>
          parts := parts + [part];
          rest := tail;
      }
    }
  }

  // ---------------------------------------------------------------------------------------
  // What can be printed and read back

  ghost predicate GoodKey(key: string) {
    key != [] && OneLine(key) && ':' !in key && key[0] != ' ' && key[0] != '\t'
  }

  ghost predicate GoodText(value: string) { OneLine(value) && Trimmed(value, {' ', '\t'}) }

  ghost predicate GoodHeader(h: Header) { GoodKey(h.key) && GoodText(h.value) }

  ghost predicate GoodHeaders(headers: seq<Header>) {
    forall i :: 0 <= i < |headers| ==> GoodHeader(headers[i])
  }

  predicate GoodBoundary(boundary: string) {
    boundary != [] && '"' !in boundary && OneLine(boundary)
  }

  /** The pattern is nowhere in the text. */
  ghost predicate Free(text: string, pat: string) {
    forall i: nat :: !MatchAt(text, pat, i)
  }

  ghost predicate GoodPart(p: Part, boundary: string) {
    && p.headers != [] && GoodHeaders(p.headers)
    && Free(EncodeBody(p.body, EncodingOf(MapOf(p.headers))), Delimiter(boundary))
  }

  ghost predicate GoodMessage(m: Message, boundary: string) {
    && GoodBoundary(boundary) && GoodHeaders(m.headers)
    && forall i :: 0 <= i < |m.parts| ==> GoodPart(m.parts[i], boundary)
  }

  function ParsedForm(p: Part): ParsedPart { ParsedPart(MapOf(p.headers), p.body) }

  function ParsedForms(parts: seq<Part>): seq<ParsedPart> {
    if parts == [] then [] else [ParsedForm(parts[0])] + ParsedForms(parts[1..])
  }
}
