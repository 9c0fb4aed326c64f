/** Parsing a rendered multipart message gives back its headers and parts. */
module MimeRoundTrip {
  import opened Basics
  import opened Text
  import opened Mime
  import B = Base64
  import QP = QuotedPrintable

  // ---------------------------------------------------------------------------------------
  // Header lines

  /** One differing character is enough. */
  lemma NoMatch(s: string, pat: string, i: nat, k: nat)
    requires i + k < |s| && k < |pat| && s[i + k] != pat[k]
    ensures !MatchAt(s, pat, i)
  {
    if i + |pat| <= |s| {
      assert s[i..i + |pat|][k] == s[i + k];
    }
  }

  /** Lines, each with its line end. */
  function TextLines(lines: seq<string>): string {
    if lines == [] then [] else lines[0] + CRLF + TextLines(lines[1..])
  }

  ghost predicate GoodLines(lines: seq<string>) { forall i :: 0 <= i < |lines| ==> OneLine(lines[i]) && lines[i] != [] }

  function LineTexts(headers: seq<Header>): (lines: seq<string>)
    ensures |lines| == |headers|
  {
    if headers == [] then [] else [Line(headers[0])] + LineTexts(headers[1..])
  }

  lemma {:induction false} LinesAreTexts(headers: seq<Header>)
    requires GoodHeaders(headers)
    ensures Lines(headers) == TextLines(LineTexts(headers)) && GoodLines(LineTexts(headers))
  {
    if headers != [] {
      GoodLine(headers[0]);
      hide Line;
      LinesAreTexts(headers[1..]);
    }
  }

  /** The blank line after lines that are not blank is the first one. */
  lemma {:induction false} NoEarlierGapIn(lines: seq<string>, rest: string, i: nat)
    requires lines != [] && GoodLines(lines) && i < |TextLines(lines)| - 2
    ensures !MatchAt(TextLines(lines) + CRLF + rest, GAP, i)
  {
    hide MatchAt;
    var line, others := lines[0], lines[1..];
    var next := TextLines(others) + CRLF + rest;
    var s := TextLines(lines) + CRLF + rest;
    assert s == line + CRLF + next;
    if i < |line| {
      assert s[i] == line[i] && line[i] in line;
      NoMatch(s, GAP, i, 0);
    } else if i == |line| {
      assert others != [] && s[i + 2] == next[0] == lines[1][0];
      assert lines[1][0] in lines[1];
      NoMatch(s, GAP, i, 2);
    } else if i == |line| + 1 {
      NoMatch(s, GAP, i, 0);
    } else {
      NoEarlierGapIn(others, rest, i - |line| - 2);
      NoMatchLater(line + CRLF, next, GAP, i - |line| - 2);
    }
  }

  lemma NoEarlierGap(headers: seq<Header>, rest: string, i: nat)
    requires headers != [] && GoodHeaders(headers) && i < |Lines(headers)| - 2
    ensures !MatchAt(Lines(headers) + CRLF + rest, GAP, i)
  {
    LinesAreTexts(headers);
    NoEarlierGapIn(LineTexts(headers), rest, i);
  }

  lemma NoMatchLater(before: string, s: string, pat: string, i: nat)
    requires !MatchAt(s, pat, i)
    ensures !MatchAt(before + s, pat, |before| + i)
  {
    var all, at := before + s, |before| + i;
    if i + |pat| <= |s| {
      assert all[at..at + |pat|] == s[i..i + |pat|];
    }
  }

  lemma LinesEnd(headers: seq<Header>)
    requires headers != []
    ensures |Lines(headers)| >= 2 && Lines(headers)[|Lines(headers)| - 2..] == CRLF
  {
  }

  lemma TextEnds(lines: seq<string>)
    requires lines != []
    ensures |TextLines(lines)| >= 2 && TextLines(lines)[|TextLines(lines)| - 2..] == CRLF
  {
  }

  lemma GapAfterTexts(lines: seq<string>, rest: string)
    requires lines != [] && GoodLines(lines)
    ensures |TextLines(lines)| >= 2
    ensures Find(TextLines(lines) + CRLF + rest, GAP, 0) == Some(|TextLines(lines)| - 2)
  {
    var s, at := TextLines(lines) + CRLF + rest, |TextLines(lines)| - 2;
    TextEnds(lines);
    assert s[at..at + 4] == TextLines(lines)[at..] + CRLF;
    forall i | 0 <= i < at
      ensures !MatchAt(s, GAP, i)
    {
      NoEarlierGapIn(lines, rest, i);
    }
    FindFirst(s, GAP, 0, at);
  }

  lemma GapAfterLines(headers: seq<Header>, rest: string)
    requires headers != [] && GoodHeaders(headers)
    ensures |Lines(headers)| >= 2
    ensures Find(Lines(headers) + CRLF + rest, GAP, 0) == Some(|Lines(headers)| - 2)
  {
    LinesAreTexts(headers);
    GapAfterTexts(LineTexts(headers), rest);
  }

  lemma FirstLineEnds(line: string, rest: string)
    requires OneLine(line)
    ensures var raw := line + CRLF + rest; WithoutReturn(TakeLine(raw)) == line && DropLine(raw) == rest
    ensures WithoutReturn(TakeLine(line)) == line && DropLine(line) == []
  {
    hide TakeLine, DropLine;
    assert line + CRLF + rest == (line + ['\r']) + ['\n'] + rest;
    NextLine(line + ['\r'], rest);
    LastLine(line);
  }

  lemma TrimmedValue(v: string)
    requires OneLine(v) && Trimmed(v, {' ', '\t'})
    ensures TrimValue([' '] + v) == v
  {
    var blanks := {'\r', '\n', ' ', '\t'};
    if v == [] {
      assert [' '] + v == [' '] && TrimRight([' '], blanks) == TrimRight([], blanks);
    } else {
      var s := [' '] + v;
      assert v[|v| - 1] in v && s[|s| - 1] == v[|v| - 1];
      assert TrimRight(s, blanks) == s && s[1..] == v;
      assert TrimLeft(s, {' ', '\t'}) == TrimLeft(v, {' ', '\t'}) == v;
    }
  }

  lemma ReadHeaderLine(s: HeaderState, h: Header)
    requires GoodHeader(h)
    ensures ReadLine(s, Line(h)) == HeaderState(s.headers[h.key := h.value], h.key)
  {
    var line := Line(h);
    assert line == h.key + [':'] + ([' '] + h.value);
    FindChar(h.key, ':', [' '] + h.value);
    assert line[..|h.key|] == h.key && line[|h.key| + 1..] == [' '] + h.value;
    TrimmedValue(h.value);
    assert line[0] == h.key[0];
  }

  lemma GoodLine(h: Header)
    requires GoodHeader(h)
    ensures OneLine(Line(h)) && Line(h) != []
  {
  }

  function ReadAll(s: HeaderState, lines: seq<string>): HeaderState
    decreases |lines|
  {
    if lines == [] then s else ReadAll(ReadLine(s, lines[0]), lines[1..])
  }

  /** Lines are read one by one. */
  lemma {:induction false} ReadTextLines(s: HeaderState, lines: seq<string>)
    requires lines != [] && GoodLines(lines)
    ensures |TextLines(lines)| >= 2
    ensures ReadLines(s, TextLines(lines)[..|TextLines(lines)| - 2]) == ReadAll(s, lines)
    decreases |lines|
  {
    hide ReadLine, WithoutReturn, TakeLine, DropLine;
    var line, others := lines[0], lines[1..];
    var raw := TextLines(lines)[..|TextLines(lines)| - 2];
    var next := ReadLine(s, line);
    if others == [] {
      assert TextLines(others) == [] && TextLines(lines) == line + CRLF;
      assert raw == line;
      FirstLineEnds(line, []);
      assert ReadLines(s, raw) == next;
    } else {
      TextEnds(others);
      var rest := TextLines(others)[..|TextLines(others)| - 2];
      assert raw == line + CRLF + rest;
      FirstLineEnds(line, rest);
      ReadTextLines(next, others);
    }
  }

  lemma {:induction false} ReadAllHeaders(s: HeaderState, headers: seq<Header>)
    requires GoodHeaders(headers)
    ensures ReadAll(s, LineTexts(headers)).headers == Merge(s.headers, headers)
    decreases |headers|
  {
    hide ReadLine, GoodHeader, Line;
    if headers != [] {
      ReadHeaderLine(s, headers[0]);
      ReadAllHeaders(ReadLine(s, Line(headers[0])), headers[1..]);
    }
  }

  lemma ReadHeaderLines(s: HeaderState, headers: seq<Header>)
    requires headers != [] && GoodHeaders(headers)
    ensures |Lines(headers)| >= 2
    ensures ReadLines(s, Lines(headers)[..|Lines(headers)| - 2]).headers == Merge(s.headers, headers)
  {
    LinesAreTexts(headers);
    ReadTextLines(s, LineTexts(headers));
    ReadAllHeaders(s, headers);
  }

  lemma HeadersRoundTrip(headers: seq<Header>, rest: string)
    requires headers != [] && GoodHeaders(headers)
    ensures var s := Lines(headers) + CRLF + rest;
            var gap := Find(s, GAP, 0);
            && gap.Some? && gap.value + 4 <= |s|
            && ParsedHeaders(s[..gap.value]) == MapOf(headers) && s[gap.value + 4..] == rest
  {
    hide ReadLines, Lines, Merge, Find;
    GapAfterLines(headers, rest);
    ReadHeaderLines(HeaderState(map[], []), headers);
    var s, at := Lines(headers) + CRLF + rest, |Lines(headers)| - 2;
    assert s[..at] == Lines(headers)[..at];
    assert s[at + 4..] == rest;
  }

  // ---------------------------------------------------------------------------------------
  // Delimiters

  /** The delimiter after a body that does not contain it is the first one: it cannot begin inside
      the body and reach past its end, as its only carriage return is its first character. */
  lemma DelimiterEndsBody(body: string, boundary: string, rest: string)
    requires GoodBoundary(boundary) && Free(body, Delimiter(boundary)) && Marker(boundary) <= rest
    ensures Find(body + CRLF + rest, Delimiter(boundary), 0) == Some(|body|)
  {
    var s, pat, n := body + CRLF + rest, Delimiter(boundary), |body|;
    assert s[n..n + |pat|] == CRLF + rest[..|Marker(boundary)|];
    forall i: nat | i < n
      ensures !MatchAt(s, pat, i)
    {
      if i + |pat| <= n {
        assert s[i..i + |pat|] == body[i..i + |pat|];
        assert !MatchAt(body, pat, i);
      } else {
        assert s[n] == '\r' && pat[n - i] != '\r';
        NoMatch(s, pat, i, n - i);
      }
    }
    FindFirst(s, pat, 0, n);
  }

  lemma PartsBegin(parts: seq<Part>, boundary: string)
    ensures Marker(boundary) <= PartsText(parts, boundary)
  {
  }

  lemma BodyAndRest(p: Part, boundary: string, rest: string)
    requires GoodBoundary(boundary) && GoodPart(p, boundary) && Marker(boundary) <= rest
    ensures var headers := MapOf(p.headers);
            PartAfterHeaders(headers, EncodeBody(p.body, EncodingOf(headers)) + CRLF + rest, Marker(boundary))
              == Next(ParsedForm(p), rest)
  {
    hide Find, EncodeBody, DecodeBody, EncodingOf, MapOf, Marker;
    var headers := MapOf(p.headers);
    var body := EncodeBody(p.body, EncodingOf(headers));
    var text := body + CRLF + rest;
    DelimiterEndsBody(body, boundary, rest);
    BodyRoundTrip(p.body, EncodingOf(headers));
    assert text[..|body|] == body && text[|body| + 2..] == rest;
  }

  lemma FindAtStart(pat: string, rest: string)
    ensures Find(pat + rest, pat, 0) == Some(0)
  {
    assert (pat + rest)[..|pat|] == pat;
  }

  lemma PartShape(p: Part, boundary: string, rest: string)
    ensures Marker(boundary) + CRLF + PartText(p) + CRLF + rest ==
            Marker(boundary) + (CRLF + (Lines(p.headers) + CRLF
              + (EncodeBody(p.body, EncodingOf(MapOf(p.headers))) + CRLF + rest)))
  {
    hide Lines, EncodeBody, Marker;
  }

  /** A marker and a line end bring the parser to the headers of a part. */
  lemma PartFound(marker: string, inner: string)
    ensures NextPart(marker + (CRLF + inner), marker) ==
            var gap := Find(inner, GAP, 0);
            if gap.None? then Broken("invalid MIME part: missing header separator")
            else PartAfterHeaders(ParsedHeaders(inner[..gap.value]), inner[gap.value + 4..], marker)
  {
    hide Find, PartAfterHeaders, ParsedHeaders;
    FindAtStart(marker, CRLF + inner);
    var text := marker + (CRLF + inner);
    assert text[|marker|..] == CRLF + inner;
    assert SkipLineEnd(CRLF + inner) == inner;
  }

  lemma OnePart(p: Part, boundary: string, rest: string)
    requires GoodBoundary(boundary) && GoodPart(p, boundary) && Marker(boundary) <= rest
    ensures NextPart(Marker(boundary) + CRLF + PartText(p) + CRLF + rest, Marker(boundary)) == Next(ParsedForm(p), rest)
  {
    assert p.headers != [] && GoodHeaders(p.headers);
    hide *;
    PartShape(p, boundary, rest);
    var headers := MapOf(p.headers);
    var tail := EncodeBody(p.body, EncodingOf(headers)) + CRLF + rest;
    PartFound(Marker(boundary), Lines(p.headers) + CRLF + tail);
    HeadersRoundTrip(p.headers, tail);
    BodyAndRest(p, boundary, rest);
  }

  lemma NoPart(boundary: string)
    ensures NextPart(PartsText([], boundary), Marker(boundary)) == Finished
  {
    hide Find, Marker;
    var text := PartsText([], boundary);
    assert text == Marker(boundary) + (DASHES + CRLF);
    FindAtStart(Marker(boundary), DASHES + CRLF);
    assert text[|Marker(boundary)|..] == DASHES + CRLF;
  }

  lemma {:induction false} PartsRoundTrip(parts: seq<Part>, boundary: string)
    requires GoodBoundary(boundary) && forall i :: 0 <= i < |parts| ==> GoodPart(parts[i], boundary)
    ensures ParseParts(PartsText(parts, boundary), Marker(boundary)) == Success(ParsedForms(parts))
  {
    hide NextPart, Marker, GoodPart, PartText;
    if parts == [] {
      NoPart(boundary);
    } else {
      var rest := PartsText(parts[1..], boundary);
      PartsBegin(parts[1..], boundary);
      OnePart(parts[0], boundary, rest);
      PartsRoundTrip(parts[1..], boundary);
    }
  }

  // ---------------------------------------------------------------------------------------
  // The whole message

  lemma QuotedBoundary(boundary: string)
    requires GoodBoundary(boundary)
    ensures BoundaryValue(TrimValue(['"'] + boundary + ['"'])) == Success(boundary)
  {
    var value := ['"'] + boundary + ['"'];
    assert TrimValue(value) == value;
    var end := |boundary| + 1;
    assert value[end..end + 1] == ['"'];
    forall i | 1 <= i < end
      ensures !MatchAt(value, ['"'], i)
    {
      assert value[i] == boundary[i - 1];
      assert value[i..i + 1] == [value[i]];
    }
    FindFirst(value, ['"'], 1, end);
    assert value[1..end] == boundary;
  }

  lemma BoundaryRoundTrip(boundary: string)
    requires GoodBoundary(boundary)
    ensures GetBoundary(ContentType(boundary)) == Success(boundary)
  {
    var prefix, quoted := "multipart/mixed; ", ['"'] + boundary + ['"'];
    assert ContentType(boundary) == prefix + "boundary=" + quoted;
    BoundaryFollows(prefix, quoted);
    hide GetBoundary, BoundaryValue, TrimValue;
    QuotedBoundary(boundary);
  }

  lemma BoundaryFollows(prefix: string, value: string)
    requires 'b' !in prefix
    ensures GetBoundary(prefix + "boundary=" + value) == BoundaryValue(TrimValue(value))
  {
    var n, text := |prefix|, prefix + "boundary=" + value;
    assert text[n..n + 9] == "boundary=" && text[n + 9..] == value;
    forall i | 0 <= i < n
      ensures !MatchAt(text, "boundary=", i)
    {
      assert text[i] == prefix[i] && prefix[i] in prefix;
      NoMatch(text, "boundary=", i, 0);
    }
    FindFirst(text, "boundary=", 0, n);
    hide Find, TrimValue, BoundaryValue;
  }

  /** A boundary without quotes ends at the next semicolon. */
  lemma UnquotedBoundary(prefix: string, boundary: string, more: string)
    requires 'b' !in prefix && GoodText(boundary) && boundary != [] && boundary[0] != '"' && ';' !in boundary
    requires more == [] || (more[0] == ';' && more[|more| - 1] !in {'\r', '\n', ' ', '\t'})
    ensures GetBoundary(prefix + "boundary=" + (boundary + more)) == Success(boundary)
  {
    hide GetBoundary, BoundaryValue, Find, TrimValue;
    BoundaryFollows(prefix, boundary + more);
    assert boundary[|boundary| - 1] in boundary;
    ValueStands(boundary + more);
    UnquotedValue(boundary, more);
  }

  lemma UnquotedValue(boundary: string, more: string)
    requires GoodText(boundary) && boundary != [] && boundary[0] != '"' && ';' !in boundary && (more == [] || more[0] == ';')
    ensures BoundaryValue(boundary + more) == Success(boundary)
  {
    hide Find, TrimValue;
    var value := boundary + more;
    assert boundary[|boundary| - 1] in boundary;
    ValueStands(boundary);
    if more == [] {
      assert value == boundary;
      FindNoChar(value, ';');
    } else {
      assert value == boundary + [';'] + more[1..];
      FindChar(boundary, ';', more[1..]);
      assert value[..|boundary|] == boundary;
    }
  }

  lemma ValueStands(v: string)
    requires v != [] && v[0] != ' ' && v[0] != '\t' && v[|v| - 1] !in {'\r', '\n', ' ', '\t'}
    ensures TrimValue(v) == v
  {
  }

  lemma {:induction false} MergeLast(m: HeaderMap, headers: seq<Header>, h: Header)
    ensures Merge(m, headers + [h]) == Merge(m, headers)[h.key := h.value]
    decreases |headers|
  {
    if headers == [] {
      assert Merge(m[h.key := h.value], []) == m[h.key := h.value];
    } else {
      assert (headers + [h])[1..] == headers[1..] + [h];
      MergeLast(m[headers[0].key := headers[0].value], headers[1..], h);
    }
  }

  lemma VersionGood()
    ensures GoodKey("MIME-Version") && GoodText("1.0")
  {
  }

  lemma TypeKeyGood()
    ensures GoodKey("Content-Type")
  {
  }

  lemma OneLineJoin(a: string, b: string)
    requires OneLine(a) && OneLine(b)
    ensures OneLine(a + b)
  {
  }

  lemma TypeGood(boundary: string)
    requires GoodBoundary(boundary)
    ensures GoodText(ContentType(boundary))
  {
    var quoted, text := ['"'] + boundary + ['"'], ContentType(boundary);
    assert OneLine(quoted);
    OneLineJoin("multipart/mixed; boundary=", quoted);
    assert text[0] == 'm' && text[|text| - 1] == '"';
  }

  lemma AddedHeadersGood(m: Message, boundary: string)
    requires GoodBoundary(boundary) && GoodHeaders(m.headers)
    ensures GoodHeaders(AllHeaders(m, boundary))
  {
    var all := AllHeaders(m, boundary);
    hide ContentType, GoodKey, GoodText;
    VersionGood();
    TypeKeyGood();
    TypeGood(boundary);
    forall i | 0 <= i < |all|
      ensures GoodHeader(all[i])
    {
      if i < |m.headers| { assert all[i] == m.headers[i]; }
    }
  }

  /** What a rendered message parses to: its own headers, the two that rendering adds, and its
      parts in order, byte for byte. */
  function Expected(m: Message, boundary: string): ParsedMessage {
    ParsedMessage(
      MapOf(m.headers)["MIME-Version" := "1.0"]["Content-Type" := ContentType(boundary)],
      ParsedForms(m.parts))
  }

  lemma AllHeadersMap(m: Message, boundary: string)
    ensures MapOf(AllHeaders(m, boundary)) == Expected(m, boundary).headers
  {
    var version, kind := Header("MIME-Version", "1.0"), Header("Content-Type", ContentType(boundary));
    assert AllHeaders(m, boundary) == (m.headers + [version]) + [kind];
    MergeLast(map[], m.headers + [version], kind);
    MergeLast(map[], m.headers, version);
  }

  /** The headers of a rendered message parse back, and its text comes to be divided into parts. */
  lemma RenderedParses(m: Message, boundary: string)
    requires GoodBoundary(boundary) && GoodHeaders(m.headers)
    ensures var parts := ParseParts(PartsText(m.parts, boundary), Marker(boundary));
            Parse(Render(m, boundary)) ==
            if parts.Failure? then Failure(parts.error) else Success(ParsedMessage(Expected(m, boundary).headers, parts.value))
  {
    hide Find, Lines, MapOf, PartsText, ParseParts, ContentType, GetBoundary, ParsedHeaders, ParsedForms, Marker;
    AddedHeadersGood(m, boundary);
    HeadersRoundTrip(AllHeaders(m, boundary), PartsText(m.parts, boundary));
    AllHeadersMap(m, boundary);
    BoundaryRoundTrip(boundary);
  }

  /** Section 5.1.1 of RFC 2046. */
  lemma MessageRoundTrip(m: Message, boundary: string)
    requires GoodMessage(m, boundary)
    ensures Parse(Render(m, boundary)) == Success(Expected(m, boundary))
  {
    hide Parse, Render, PartsText, ParseParts, ContentType, ParsedForms, Marker, MapOf;
    RenderedParses(m, boundary);
    PartsRoundTrip(m.parts, boundary);
  }
}
