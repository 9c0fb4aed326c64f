/** What becomes of a message with parts that have no headers: the parser takes another blank line
    for the one that ends the headers, somewhere in the body, at its very end, or in the parts after
    it. In each case what it yields is not the list of parts that was printed. */
module HeaderlessParts {
  import opened Basics
  import opened Text
  import opened Mime
  import opened MimeRoundTrip

  /** What can be printed, with headers or without. */
  ghost predicate FairPart(p: Part, boundary: string) {
    GoodHeaders(p.headers) && Free(EncodeBody(p.body, EncodingOf(MapOf(p.headers))), Delimiter(boundary))
  }

  ghost predicate FairParts(parts: seq<Part>, boundary: string) {
    forall i :: 0 <= i < |parts| ==> FairPart(parts[i], boundary)
  }

  // ---------------------------------------------------------------------------------------
  // Counting

  /** How often a blank line is followed by the pattern, each pair taken after the one before. */
  function Sections(text: string, pat: string): nat
    requires |pat| >= 2
    decreases |text|
  {
    var gap := Find(text, GAP, 0);
    if gap.None? then 0
    else
      var after := text[gap.value + 4..];
      var end := Find(after, pat, 0);
      if end.None? then 0 else 1 + Sections(after[end.value + 2..], pat)
  }

  lemma FindSuffix(s: string, pat: string, k: nat)
    requires k <= |s|
    ensures var here, there := Find(s, pat, 0), Find(s[k..], pat, 0);
            there.Some? ==> here.Some? && here.value <= k + there.value
  {
    var there := Find(s[k..], pat, 0);
    if there.Some? { MatchBefore(s, pat, k, there.value); }
  }

  lemma MatchBefore(s: string, pat: string, k: nat, i: nat)
    requires k <= |s| && MatchAt(s[k..], pat, i)
    ensures MatchAt(s, pat, k + i)
    ensures var here := Find(s, pat, 0); here.Some? && here.value <= k + i
  {
    assert s[k + i..k + i + |pat|] == s[k..][i..i + |pat|];
    assert MatchAt(s, pat, k + i);
  }

  lemma FoundInside(s: string, pat: string)
    ensures var at := Find(s, pat, 0); at.Some? ==> at.value + |pat| <= |s|
  {
  }

  lemma FoundMatches(s: string, pat: string)
    ensures var at := Find(s, pat, 0); at.Some? ==> MatchAt(s, pat, at.value)
  {
    hide MatchAt;
  }

  lemma DropDrop(s: string, i: nat, k: nat)
    requires i + k <= |s|
    ensures s[i..][k..] == s[i + k..]
  {
  }

  lemma {:induction false} SectionsSuffix(s: string, k: nat, pat: string)
    requires k <= |s| && |pat| >= 2
    ensures Sections(s[k..], pat) <= Sections(s, pat)
    decreases |s|
  {
    hide Find, MatchAt;
    var t := s[k..];
    FindSuffix(s, GAP, k);
    FoundInside(t, GAP);
    FoundInside(s, GAP);
    var gt, gs := Find(t, GAP, 0), Find(s, GAP, 0);
    if gt.Some? {
      var afterT, afterS := t[gt.value + 4..], s[gs.value + 4..];
      var shift := k + gt.value - gs.value;
      assert afterT == afterS[shift..];
      FindSuffix(afterS, pat, shift);
      FoundInside(afterT, pat);
      FoundInside(afterS, pat);
      var et, es := Find(afterT, pat, 0), Find(afterS, pat, 0);
      if et.Some? {
        assert afterT[et.value + 2..] == afterS[es.value + 2..][shift + et.value - es.value..];
        SectionsSuffix(afterS[es.value + 2..], shift + et.value - es.value, pat);
      }
    }
  }

  lemma MatchLater(s: string, pat: string, k: nat, q: nat)
    requires k <= q && MatchAt(s, pat, q)
    ensures MatchAt(s[k..], pat, q - k)
  {
    assert s[k..][q - k..q - k + |pat|] == s[q..q + |pat|];
  }

  lemma FindUpTo(s: string, pat: string, q: nat)
    requires MatchAt(s, pat, q)
    ensures var at := Find(s, pat, 0); at.Some? && at.value <= q && at.value + |pat| <= |s| && q + |pat| <= |s|
  {
    FoundInside(s, pat);
  }

  ghost predicate Suffix(t: string, s: string) { |t| <= |s| && s[|s| - |t|..] == t }

  lemma DropIsSuffix(s: string, k: nat)
    requires k <= |s|
    ensures Suffix(s[k..], s)
  {
  }

  lemma SuffixOfSuffix(a: string, b: string, c: string)
    requires Suffix(a, b) && Suffix(b, c)
    ensures Suffix(a, c)
  {
    DropDrop(c, |c| - |b|, |b| - |a|);
  }

  lemma ShorterSuffix(a: string, b: string, c: string)
    requires Suffix(a, c) && Suffix(b, c) && |a| <= |b|
    ensures Suffix(a, b)
  {
    DropDrop(c, |c| - |b|, |b| - |a|);
  }

  lemma SectionsOfSuffix(t: string, s: string, pat: string)
    requires Suffix(t, s) && |pat| >= 2
    ensures Sections(t, pat) <= Sections(s, pat)
  {
    SectionsSuffix(s, |s| - |t|, pat);
  }

  lemma SectionsUnfold(s: string, pat: string, after: string, end: nat)
    requires |pat| >= 2 && Find(s, GAP, 0).Some? && after == s[Find(s, GAP, 0).value + 4..] && Find(after, pat, 0) == Some(end)
    ensures end + 2 <= |after| && Sections(s, pat) == 1 + Sections(after[end + 2..], pat)
  {
    FoundInside(after, pat);
    hide Find;
  }

  /** What is left after the first section. */
  lemma FirstSection(s: string, p: nat, q: nat, pat: string) returns (left: string)
    requires |pat| >= 2 && MatchAt(s, GAP, p) && q >= p + 4 && MatchAt(s, pat, q)
    ensures Suffix(left, s) && |left| >= |s| - q - 2 && Sections(s, pat) == 1 + Sections(left, pat)
  {
    assert |GAP| == 4;
    hide *;
    FindUpTo(s, GAP, p);
    FindUpTo(s, pat, q);
    var k := Find(s, GAP, 0).value + 4;
    var after := s[k..];
    MatchLater(s, pat, k, q);
    FindUpTo(after, pat, q - k);
    var end := Find(after, pat, 0).value;
    SectionsUnfold(s, pat, after, end);
    left := after[end + 2..];
    DropIsSuffix(after, end + 2);
    DropIsSuffix(s, k);
    SuffixOfSuffix(left, after, s);
  }

  /** A blank line and a later match make one section more than what follows them has. */
  lemma SectionsAfter(s: string, p: nat, q: nat, pat: string, rest: string)
    requires |pat| >= 2 && MatchAt(s, GAP, p) && q >= p + 4 && MatchAt(s, pat, q) && Suffix(rest, s) && |rest| <= |s| - q - 2
    ensures 1 + Sections(rest, pat) <= Sections(s, pat)
  {
    hide *;
    var left := FirstSection(s, p, q, pat);
    ShorterSuffix(rest, left, s);
    SectionsOfSuffix(rest, left, pat);
  }

  lemma SkippedIsSuffix(text: string) returns (k: nat)
    ensures k <= |text| && SkipLineEnd(text) == text[k..]
  {
    k := if StartsWith(text, CRLF) then 2 else 0;
  }

  /** What the parser reads as a part: headers up to a blank line, a body up to the next delimiter. */
  function PartIn(inner: string, marker: string): (p: Piece)
    ensures p.Next? ==> |p.rest| < |inner|
  {
    var gap := Find(inner, GAP, 0);
    if gap.None? then Broken("invalid MIME part: missing header separator")
    else PartAfterHeaders(ParsedHeaders(inner[..gap.value]), inner[gap.value + 4..], marker)
  }

  lemma PartInAt(inner: string, marker: string) returns (p: nat, q: nat)
    requires PartIn(inner, marker).Next?
    ensures q >= p + 4 && MatchAt(inner, GAP, p) && MatchAt(inner, CRLF + marker, q)
    ensures Suffix(PartIn(inner, marker).rest, inner) && |PartIn(inner, marker).rest| == |inner| - q - 2
  {
    hide Find, MatchAt, ParsedHeaders, DecodeBody, EncodingOf, Suffix;
    FoundInside(inner, GAP);
    p := Find(inner, GAP, 0).value;
    var tail := inner[p + 4..];
    FoundInside(tail, CRLF + marker);
    var end := Find(tail, CRLF + marker, 0).value;
    q := p + 4 + end;
    MatchBefore(inner, CRLF + marker, p + 4, end);
    DropIsSuffix(inner, p + 4);
    DropIsSuffix(tail, end + 2);
    SuffixOfSuffix(tail[end + 2..], tail, inner);
  }

  lemma InnerText(text: string, marker: string) returns (inner: string)
    requires NextPart(text, marker).Next?
    ensures Suffix(inner, text) && NextPart(text, marker) == PartIn(inner, marker)
  {
    hide Find, ParsedHeaders, PartAfterHeaders, SkipLineEnd, Suffix;
    FoundInside(text, marker);
    var start := Find(text, marker, 0).value + |marker|;
    var after := text[start..];
    var k := SkippedIsSuffix(after);
    inner := after[k..];
    DropIsSuffix(text, start);
    DropIsSuffix(after, k);
    SuffixOfSuffix(inner, after, text);
  }

  lemma MatchInSuffix(t: string, s: string, pat: string, i: nat)
    requires Suffix(t, s) && MatchAt(t, pat, i)
    ensures MatchAt(s, pat, |s| - |t| + i)
  {
    MatchBefore(s, pat, |s| - |t|, i);
  }

  /** Where the next part was found. */
  lemma NextPartAt(text: string, marker: string) returns (p: nat, q: nat)
    requires NextPart(text, marker).Next?
    ensures q >= p + 4 && MatchAt(text, GAP, p) && MatchAt(text, CRLF + marker, q)
    ensures Suffix(NextPart(text, marker).rest, text) && |NextPart(text, marker).rest| == |text| - q - 2
  {
    hide *;
    var inner := InnerText(text, marker);
    var i, k := PartInAt(inner, marker);
    ShorterThan(inner, text);
    p, q := |text| - |inner| + i, |text| - |inner| + k;
    MatchInSuffix(inner, text, GAP, i);
    MatchInSuffix(inner, text, CRLF + marker, k);
    SuffixOfSuffix(NextPart(text, marker).rest, inner, text);
  }

  lemma ShorterThan(t: string, s: string)
    requires Suffix(t, s)
    ensures |t| <= |s|
  {
  }

  /** A text yields no more parts than it has sections. */
  lemma {:induction false} PartsCounted(text: string, marker: string)
    ensures var r := ParseParts(text, marker); r.Success? ==> |r.value| <= Sections(text, CRLF + marker)
    decreases |text|
  {
    hide NextPart, Sections, MatchAt, Suffix;
    if NextPart(text, marker).Next? {
      var p, q := NextPartAt(text, marker);
      SectionsAfter(text, p, q, CRLF + marker, NextPart(text, marker).rest);
      PartsCounted(NextPart(text, marker).rest, marker);
    }
  }

  /** The blank line that ends the headers of a part is the first one after its marker. */
  lemma GapInPart(marker: string, headers: seq<Header>, rest: string)
    requires OneLine(marker) && GoodHeaders(headers)
    ensures Find(marker + CRLF + Lines(headers) + CRLF + rest, GAP, 0) == Some(|marker| + |Lines(headers)|)
  {
    hide MatchAt, Lines;
    var text, tail := marker + CRLF + Lines(headers) + CRLF + rest, Lines(headers) + CRLF + rest;
    var at := |marker| + |Lines(headers)|;
    LinesFirst(headers);
    forall i: nat | i < at
      ensures !MatchAt(text, GAP, i)
    {
      if i < |marker| {
        assert text[i] == marker[i] && marker[i] in marker;
        NoMatch(text, GAP, i, 0);
      } else if i == |marker| {
        assert text[i + 2] == Lines(headers)[0];
        NoMatch(text, GAP, i, 2);
      } else if i == |marker| + 1 {
        assert text[i] == '\n';
        NoMatch(text, GAP, i, 0);
      } else {
        NoEarlierGap(headers, rest, i - |marker| - 2);
        assert text == (marker + CRLF) + tail;
        NoMatchLater(marker + CRLF, tail, GAP, i - |marker| - 2);
      }
    }
    GapHere(marker, headers, rest);
    FindFirst(text, GAP, 0, at);
  }

  lemma LinesFirst(headers: seq<Header>)
    requires GoodHeaders(headers)
    ensures headers == [] <==> Lines(headers) == []
    ensures headers != [] ==> |Lines(headers)| >= 2 && Lines(headers)[0] != '\r'
  {
    if headers != [] {
      assert headers[0].key[0] in headers[0].key;
      assert Lines(headers)[0] == headers[0].key[0];
    }
  }

  lemma GapHere(marker: string, headers: seq<Header>, rest: string)
    ensures MatchAt(marker + CRLF + Lines(headers) + CRLF + rest, GAP, |marker| + |Lines(headers)|)
  {
    if headers != [] { LinesEnd(headers); }
    hide Lines;
    var text, at := marker + CRLF + Lines(headers) + CRLF + rest, |marker| + |Lines(headers)|;
    var before := marker + CRLF + Lines(headers);
    assert before[at..] == CRLF;
    assert text[at..at + 4] == before[at..] + CRLF;
  }

  lemma NoGapAtEnd(boundary: string)
    requires GoodBoundary(boundary)
    ensures Find(PartsText([], boundary), GAP, 0).None?
  {
    var text := PartsText([], boundary);
    hide MatchAt;
    forall i: nat
      ensures !MatchAt(text, GAP, i)
    {
      if i + 4 > |text| {
        ShortRest(text, i);
      } else {
        assert text[i] in Marker(boundary) + DASHES;
        NoMatch(text, GAP, i, 0);
      }
    }
  }

  lemma PartsTextNext(parts: seq<Part>, boundary: string)
    requires parts != []
    ensures PartsText(parts, boundary) ==
            Marker(boundary) + CRLF + Lines(parts[0].headers) + CRLF
              + (EncodeBody(parts[0].body, EncodingOf(MapOf(parts[0].headers))) + CRLF + PartsText(parts[1..], boundary))
  {
    hide Lines, EncodeBody, Marker;
  }

  /** A rendered list of parts has one section for each. */
  lemma {:induction false} SectionsOfParts(parts: seq<Part>, boundary: string)
    requires GoodBoundary(boundary) && FairParts(parts, boundary)
    ensures Sections(PartsText(parts, boundary), Delimiter(boundary)) == |parts|
  {
    hide Find, Lines, EncodeBody, EncodingOf, MapOf, Free, GoodHeaders;
    if parts == [] {
      NoGapAtEnd(boundary);
    } else {
      var rest := PartsText(parts[1..], boundary);
      var body := EncodeBody(parts[0].body, EncodingOf(MapOf(parts[0].headers)));
      assert FairPart(parts[0], boundary);
      PartsTextNext(parts, boundary);
      MarkerLine(boundary);
      GapInPart(Marker(boundary), parts[0].headers, body + CRLF + rest);
      PartsBegin(parts[1..], boundary);
      DelimiterEndsBody(body, boundary, rest);
      SectionsOfParts(parts[1..], boundary);
      hide PartsText, Marker;
      var head := Marker(boundary) + CRLF + Lines(parts[0].headers) + CRLF;
      var text := head + (body + CRLF + rest);
      assert text[|head|..] == body + CRLF + rest;
      assert (body + CRLF + rest)[|body| + 2..] == rest;
    }
  }

  lemma MarkerLine(boundary: string)
    requires GoodBoundary(boundary)
    ensures OneLine(Marker(boundary)) && Marker(boundary)[0] == '-'
  {
  }

  // ---------------------------------------------------------------------------------------
  // A part without headers does not come back

  /** The parts read when the first piece is this one. */
  function Continued(piece: Piece, marker: string): Result<seq<ParsedPart>> {
    match piece
    case Finished => Success([])
    case Broken(error) => Failure(error)
    case Next(part, rest) =>
      var others := ParseParts(rest, marker);
      if others.Failure? then others else Success([part] + others.value)
  }

  lemma ContinuedIs(text: string, marker: string)
    ensures ParseParts(text, marker) == Continued(NextPart(text, marker), marker)
  {
    hide NextPart;
  }

  function Wanted(body: seq<byte>, others: seq<Part>): seq<ParsedPart> {
    [ParsedPart(map[], body)] + ParsedForms(others)
  }

  lemma {:induction false} FormsCount(parts: seq<Part>)
    ensures |ParsedForms(parts)| == |parts|
  {
    if parts != [] {
      FormsCount(parts[1..]);
    }
  }

  /** When the parser takes a blank line of the parts that follow for that of this one, too few parts
      are left. */
  lemma TooFew(part: ParsedPart, others: seq<Part>, boundary: string, p: nat, q: nat, rest: string, body: seq<byte>)
    requires GoodBoundary(boundary) && FairParts(others, boundary)
    requires var text := PartsText(others, boundary);
             && MatchAt(text, GAP, p) && q >= p + 4 && MatchAt(text, Delimiter(boundary), q)
             && Suffix(rest, text) && |rest| <= |text| - q - 2
    ensures Continued(Next(part, rest), Marker(boundary)) != Success(Wanted(body, others))
  {
    hide PartsText, MatchAt, ParseParts, FairParts, Sections, Marker, ParsedForms, Suffix;
    var text := PartsText(others, boundary);
    SectionsOfParts(others, boundary);
    SectionsAfter(text, p, q, Delimiter(boundary), rest);
    PartsCounted(rest, Marker(boundary));
    FormsCount(others);
    var r := ParseParts(rest, Marker(boundary));
    if r.Success? {
      assert |[part] + r.value| == 1 + |r.value| <= |others|;
      assert |Wanted(body, others)| == 1 + |others|;
    }
  }

  /** Another first part, another list. */
  lemma OtherFirst(part: ParsedPart, rest: string, marker: string, body: seq<byte>, others: seq<Part>)
    requires part != ParsedPart(map[], body)
    ensures Continued(Next(part, rest), marker) != Success(Wanted(body, others))
  {
    hide ParseParts, ParsedForms;
    var r := Continued(Next(part, rest), marker);
    if r.Success? { assert r.value[0] == part; }
  }

  /** The first blank line after the marker: in the body, at its very end, or in the parts after it. */
  lemma GapPlace(x: string, rest: string, g: nat)
    requires MatchAt(x + CRLF + rest, GAP, g) && rest != [] && rest[0] == '-'
    ensures g + 4 <= |x| || (g + 2 == |x| && x[g..] == CRLF) || (|x| + 2 <= g && MatchAt(rest, GAP, g - |x| - 2))
  {
    var s := x + CRLF + rest;
    assert s[g..g + 4] == GAP;
    assert s[g] == '\r' && s[g + 1] == '\n' && s[g + 2] == '\r' && s[g + 3] == '\n';
    if g + 4 > |x| && g < |x| + 2 {
      assert s[|x|] == '\r' && s[|x| + 1] == '\n' && s[|x| + 2] == rest[0];
      assert g + 2 == |x|;
      assert x[g..] == s[g..g + 2];
    } else if g >= |x| + 2 {
      assert s[|x| + 2..] == rest;
      MatchLater(s, GAP, |x| + 2, g);
    }
  }

  /** Without headers the bytes are taken as they are, so that the text must be theirs. */
  lemma OtherBody(headers: HeaderMap, text: string, rest: string, marker: string, body: seq<byte>, others: seq<Part>)
    requires headers == map[] ==> BytesOf(text) != body
    ensures var d := DecodeBody(text, EncodingOf(headers));
            d.Some? ==> Continued(Next(ParsedPart(headers, d.value), rest), marker) != Success(Wanted(body, others))
  {
    var d := DecodeBody(text, EncodingOf(headers));
    if headers == map[] { assert EncodingOf(headers) == AsIs; }
    hide DecodeBody, EncodingOf, BytesOf;
    if d.Some? { OtherFirst(ParsedPart(headers, d.value), rest, marker, body, others); }
  }

  lemma PieceAt(headers: HeaderMap, left: string, boundary: string, rest: string)
    requires GoodBoundary(boundary) && Free(left, Delimiter(boundary)) && Marker(boundary) <= rest
    ensures var d := DecodeBody(left, EncodingOf(headers));
            PartAfterHeaders(headers, left + CRLF + rest, Marker(boundary)) ==
            if d.None? then Broken("invalid base64") else Next(ParsedPart(headers, d.value), rest)
  {
    hide Find, DecodeBody, EncodingOf, Marker;
    DelimiterEndsBody(left, boundary, rest);
    var text := left + CRLF + rest;
    assert text[..|left|] == left && text[|left| + 2..] == rest;
  }

  /** A blank line in the body: what is left of the body is shorter. */
  lemma GapInBody(x: string, body: seq<byte>, others: seq<Part>, boundary: string, g: nat)
    requires GoodBoundary(boundary) && Free(TextOf(body), Delimiter(boundary)) && g + 4 <= |x| <= |body| + 2
    requires x == (CRLF + TextOf(body))[|body| + 2 - |x|..]
    requires Find(x + CRLF + PartsText(others, boundary), GAP, 0) == Some(g)
    ensures Continued(PartIn(x + CRLF + PartsText(others, boundary), Marker(boundary)), Marker(boundary)) != Success(Wanted(body, others))
  {
    hide *;
    var rest := PartsText(others, boundary);
    var inner, left := x + CRLF + rest, x[g + 4..];
    assert inner[g + 4..] == left + CRLF + rest;
    SuffixOfBody(x, TextOf(body), g + 4);
    FreeSuffix(TextOf(body), Delimiter(boundary), |body| - |left|);
    PartsBegin(others, boundary);
    var headers := ParsedHeaders(inner[..g]);
    PieceAt(headers, left, boundary, rest);
    assert |BytesOf(left)| < |body|;
    OtherBody(headers, left, rest, Marker(boundary), body, others);
    PartInIs(inner, Marker(boundary), g);
    BrokenIsNone("invalid base64", Marker(boundary), body, others);
  }

  lemma SuffixOfBody(x: string, text: string, k: nat)
    requires 2 <= k <= |x| <= |text| + 2 && x == (CRLF + text)[|text| + 2 - |x|..]
    ensures x[k..] == text[|text| - (|x| - k)..]
  {
  }

  lemma PartInIs(inner: string, marker: string, g: nat)
    requires Find(inner, GAP, 0) == Some(g)
    ensures g + 4 <= |inner| && PartIn(inner, marker) == PartAfterHeaders(ParsedHeaders(inner[..g]), inner[g + 4..], marker)
  {
    FoundInside(inner, GAP);
    hide Find, PartAfterHeaders, ParsedHeaders;
  }

  lemma BrokenIsNone(error: string, marker: string, body: seq<byte>, others: seq<Part>)
    ensures Continued(Broken(error), marker) != Success(Wanted(body, others))
  {
    hide ParsedForms;
  }

  lemma FreeSuffix(text: string, pat: string, k: nat)
    requires Free(text, pat) && k <= |text|
    ensures Free(text[k..], pat)
  {
    forall i: nat
      ensures !MatchAt(text[k..], pat, i)
    {
      if MatchAt(text[k..], pat, i) { MatchBefore(text, pat, k, i); }
    }
  }

  lemma MatchBeyond(text: string, p: nat, pat: string, after: string)
    requires p + 4 <= |text| && after == text[p + 4..] && |pat| >= 2
    ensures var end := Find(after, pat, 0);
            end.Some? ==>
              && end.value + 2 <= |after| && MatchAt(text, pat, p + 4 + end.value)
              && Suffix(after[end.value + 2..], text) && |after[end.value + 2..]| == |text| - (p + 4 + end.value) - 2
  {
    hide *;
    FoundInside(after, pat);
    FoundMatches(after, pat);
    var end := Find(after, pat, 0);
    if end.Some? {
      MatchBefore(text, pat, p + 4, end.value);
      DropIsSuffix(text, p + 4);
      DropIsSuffix(after, end.value + 2);
      SuffixOfSuffix(after[end.value + 2..], after, text);
    }
  }

  lemma GapFits(text: string, p: nat)
    requires MatchAt(text, GAP, p)
    ensures p + 4 <= |text|
  {
  }

  /** The headers end in the parts that follow, which then are too few. */
  lemma GapBeyond(headers: HeaderMap, body: seq<byte>, others: seq<Part>, boundary: string, p: nat)
    requires GoodBoundary(boundary) && FairParts(others, boundary) && MatchAt(PartsText(others, boundary), GAP, p)
    ensures var text := PartsText(others, boundary);
            && p + 4 <= |text|
            && Continued(PartAfterHeaders(headers, text[p + 4..], Marker(boundary)), Marker(boundary)) != Success(Wanted(body, others))
  {
    hide *;
    var text := PartsText(others, boundary);
    GapFits(text, p);
    DelimiterIs(boundary);
    var after := text[p + 4..];
    MatchBeyond(text, p, Delimiter(boundary), after);
    EndsAt(headers, after, Marker(boundary), body, others);
    var end := Find(after, Delimiter(boundary), 0);
    if end.Some? {
      var d := DecodeBody(after[..end.value], EncodingOf(headers));
      if d.Some? {
        TooFew(ParsedPart(headers, d.value), others, boundary, p, p + 4 + end.value, after[end.value + 2..], body);
      }
    }
  }

  lemma DelimiterIs(boundary: string)
    ensures Delimiter(boundary) == CRLF + Marker(boundary) && |Delimiter(boundary)| >= 2
  {
  }

  /** How a part goes on after its headers. */
  lemma EndsAt(headers: HeaderMap, text: string, marker: string, body: seq<byte>, others: seq<Part>)
    ensures var end := Find(text, CRLF + marker, 0);
            if end.None? then Continued(PartAfterHeaders(headers, text, marker), marker) != Success(Wanted(body, others))
            else
              && end.value + 2 <= |text|
              && var d := DecodeBody(text[..end.value], EncodingOf(headers));
                 if d.None? then Continued(PartAfterHeaders(headers, text, marker), marker) != Success(Wanted(body, others))
                 else PartAfterHeaders(headers, text, marker) == Next(ParsedPart(headers, d.value), text[end.value + 2..])
  {
    FoundInside(text, CRLF + marker);
    hide Find, DecodeBody, EncodingOf, ParsedForms;
  }

  // ---------------------------------------------------------------------------------------
  // The blank line at the very end of the body

  lemma {:induction false} MergeKeeps(m: HeaderMap, headers: seq<Header>, key: string)
    requires key in m
    ensures key in Merge(m, headers)
    decreases |headers|
  {
    if headers != [] {
      MergeKeeps(m[headers[0].key := headers[0].value], headers[1..], key);
    }
  }

  lemma LinesGiveHeaders(s: HeaderState, headers: seq<Header>)
    requires headers != [] && GoodHeaders(headers)
    ensures |Lines(headers)| >= 2 && ReadLines(s, Lines(headers)[..|Lines(headers)| - 2]).headers != map[]
  {
    ReadHeaderLines(s, headers);
    hide ReadLines, Lines;
    MergeKeeps(s.headers[headers[0].key := headers[0].value], headers[1..], headers[0].key);
  }

  lemma ReadNext(s: HeaderState, line: string, rest: string)
    requires OneLine(line)
    ensures ReadLines(s, line + CRLF + rest) == ReadLines(ReadLine(s, line), rest)
  {
    hide ReadLine, WithoutReturn, TakeLine, DropLine;
    FirstLineEnds(line, rest);
  }

  /** Header lines are read as such, also when a marker stands before them. */
  lemma HeadersThere(marker: string, headers: seq<Header>, x: string)
    requires OneLine(marker) && headers != [] && GoodHeaders(headers)
    requires x == Lines(headers) || x == CRLF + marker + CRLF + Lines(headers)
    ensures |x| >= 2 && ParsedHeaders(x[..|x| - 2]) != map[]
  {
    hide ReadLines, Lines, ReadLine;
    var start, lines := HeaderState(map[], []), Lines(headers);
    LinesGiveHeaders(start, headers);
    if x != lines {
      var most := lines[..|lines| - 2];
      assert x[..|x| - 2] == [] + CRLF + (marker + CRLF + most);
      ReadNext(start, [], marker + CRLF + most);
      ReadNext(ReadLine(start, []), marker, most);
      LinesGiveHeaders(ReadLine(ReadLine(start, []), marker), headers);
    }
  }

  /** What the parser is left with after the marker of a part without headers, or of a body that
      begins like one. */
  ghost predicate AfterMarker(x: string, text: string, marker: string) {
    x == CRLF + text || (marker <= text && x == SkipLineEnd(text[|marker|..]))
  }

  lemma EndsWithBreak(x: string, text: string, marker: string)
    requires AfterMarker(x, text, marker) && |x| >= 2 && x[|x| - 2..] == CRLF && text != [] && text[0] == '-'
    ensures |text| >= 2 && text[|text| - 2..] == CRLF
  {
    assert x[|x| - 1] == x[|x| - 2..][1] == '\n' && x[|x| - 2] == x[|x| - 2..][0] == '\r';
    if x == CRLF + text {
      assert x[|x| - 1] == text[|text| - 1];
      assert |text| >= 2;
      assert x[|x| - 2] == text[|text| - 2];
    } else {
      assert x == text[|text| - |x|..];
    }
  }

  /** A delimiter right after a body that ends with a line break makes a blank line. */
  lemma BreakBefore(rest: string, e: nat, pat: string)
    requires MatchAt(rest, CRLF + pat, e) && e >= 2 && rest[e - 2..e] == CRLF
    ensures MatchAt(rest, GAP, e - 2)
  {
    assert rest[e..e + 2] == rest[e..e + 2 + |pat|][..2];
    assert rest[e - 2..e + 2] == rest[e - 2..e] + rest[e..e + 2];
  }

  lemma GapIsThere(rest: string, e: nat)
    requires e >= 2 && MatchAt(rest, GAP, e - 2)
    ensures var h := Find(rest, GAP, 0); h.Some? && (h.value == e - 2 || h.value + 4 <= e)
  {
    var h := Find(rest, GAP, 0);
    assert rest[e - 2..e + 2] == GAP;
    assert rest[e - 2] == '\r';
    assert h.Some? && h.value <= e - 2;
    assert rest[h.value..h.value + 4] == GAP;
    assert rest[h.value + 1] == rest[h.value..h.value + 4][1] == '\n';
  }

  /** The blank line that the delimiter makes with the end of the body. */
  lemma StraddleGap(x: string, text: string, others: seq<Part>, boundary: string, e: nat)
    requires GoodBoundary(boundary) && AfterMarker(x, text, Marker(boundary)) && |x| >= 2 && x[|x| - 2..] == CRLF
    requires var rest := PartsText(others, boundary);
             && Find(rest, Delimiter(boundary), 0) == Some(e) && e <= |rest| && rest[..e] == text
             && (forall h :: Find(rest, GAP, 0) == Some(h) ==> h + 4 > e)
    ensures e >= 2 && Find(PartsText(others, boundary), GAP, 0) == Some(e - 2)
  {
    var marker, rest := Marker(boundary), PartsText(others, boundary);
    MarkerLine(boundary);
    PartsBegin(others, boundary);
    assert rest[0] == marker[0];
    FoundReturn(rest, marker, e);
    assert text[0] == '-';
    EndsWithBreak(x, text, marker);
    assert rest[e - 2..e] == text[|text| - 2..];
    hide Find, PartsText, Marker, MatchAt, SkipLineEnd;
    BreakBefore(rest, e, marker);
    GapIsThere(rest, e);
  }

  lemma FoundReturn(rest: string, pat: string, e: nat)
    requires Find(rest, CRLF + pat, 0) == Some(e) && rest != [] && rest[0] == '-'
    ensures MatchAt(rest, CRLF + pat, e) && e > 0
  {
    assert rest[e..e + 2 + |pat|][0] == rest[e];
  }

  /** When the parser reads the marker line of the next part as the body it looks for, that next part
      has no headers either. */
  lemma StraddleShape(x: string, text: string, others: seq<Part>, boundary: string, e: nat)
    requires GoodBoundary(boundary) && FairParts(others, boundary) && AfterMarker(x, text, Marker(boundary))
    requires |x| >= 2 && ParsedHeaders(x[..|x| - 2]) == map[]
    requires var rest := PartsText(others, boundary);
             2 <= e <= |rest| && rest[..e] == text && Find(rest, GAP, 0) == Some(e - 2)
    ensures others != [] && others[0].headers == [] && text == Marker(boundary) + CRLF && e == |text|
  {
    hide Find, PartsText, MatchAt, ParsedHeaders, SkipLineEnd, Lines, EncodeBody, EncodingOf, MapOf, Free;
    var marker, rest := Marker(boundary), PartsText(others, boundary);
    MarkerLine(boundary);
    if others == [] { NoGapAtEnd(boundary); }
    assert FairPart(others[0], boundary);
    hide Marker, FairPart, FairParts, GoodHeaders, AfterMarker;
    PartsTextNext(others, boundary);
    var headers, tail := others[0].headers,
      EncodeBody(others[0].body, EncodingOf(MapOf(others[0].headers))) + CRLF + PartsText(others[1..], boundary);
    GapInPart(marker, headers, tail);
    MarkerLines(marker, Lines(headers), tail, e, text);
    if headers != [] {
      XIs(x, text, marker, Lines(headers));
      HeadersThere(marker, headers, x);
      assert false;
    }
    LinesFirst(headers);
    assert text == marker + CRLF;
  }

  lemma MarkerLines(marker: string, lines: string, tail: string, e: nat, text: string)
    requires var rest := marker + CRLF + lines + CRLF + tail; e == |marker| + |lines| + 2 && e <= |rest| && rest[..e] == text
    ensures text == marker + CRLF + lines
  {
    assert marker + CRLF + lines + CRLF + tail == (marker + CRLF + lines) + (CRLF + tail);
  }

  lemma XIs(x: string, text: string, marker: string, lines: string)
    requires AfterMarker(x, text, marker) && text == marker + CRLF + lines
    ensures x == lines || x == CRLF + marker + CRLF + lines
  {
    if x != CRLF + text {
      var after := text[|marker|..];
      assert after == CRLF + lines && after[..2] == CRLF && after[2..] == lines;
    }
  }

  lemma BreakInside(marker: string, a: string, tail: string)
    requires marker <= a + CRLF + tail && |a| < |marker|
    ensures '\r' in marker
  {
    var all := a + CRLF + tail;
    assert marker[|a|] == all[|a|] == '\r';
  }

  lemma PrefixBeforeBreak(marker: string, a: string, tail: string)
    requires OneLine(marker) && marker <= a + CRLF + tail
    ensures marker <= a
  {
    if |a| < |marker| { BreakInside(marker, a, tail); }
    var all := a + CRLF + tail;
    assert marker == all[..|marker|] == a[..|marker|];
  }

  /** What follows when a marker line was taken for the body. */
  lemma StraddleRest(others: seq<Part>, boundary: string, e: nat)
    requires GoodBoundary(boundary) && others != [] && others[0].headers == [] && e == |Marker(boundary)| + 2
    requires MatchAt(PartsText(others, boundary), Delimiter(boundary), e)
    ensures PartsText(others, boundary)[e + 2..] == TextOf(others[0].body) + CRLF + PartsText(others[1..], boundary)
    ensures Marker(boundary) <= TextOf(others[0].body)
  {
    var marker, rest, body := Marker(boundary), PartsText(others, boundary), TextOf(others[0].body);
    var tail := body + CRLF + PartsText(others[1..], boundary);
    assert EncodeBody(others[0].body, EncodingOf(MapOf(others[0].headers))) == body;
    PartsTextNext(others, boundary);
    MarkerLine(boundary);
    assert Lines(others[0].headers) == [];
    hide PartsText, Marker, EncodeBody, EncodingOf, MapOf, TextOf, Lines;
    assert rest == (marker + CRLF + [] + CRLF) + tail;
    assert rest[e + 2..] == tail;
    assert rest[e..e + 2 + |marker|] == CRLF + marker;
    assert tail[..|marker|] == rest[e..e + 2 + |marker|][2..];
    PrefixBeforeBreak(marker, body, PartsText(others[1..], boundary));
  }

  /** The case in which the parser goes on inside a body that begins like a marker. */
  ghost predicate NextAlike(x: string, body: seq<byte>, others: seq<Part>, boundary: string) {
    && |x| >= 2 && others != [] && others[0].headers == [] && TextOf(body) == Marker(boundary) + CRLF
    && Marker(boundary) <= TextOf(others[0].body)
  }

  ghost predicate NextFails(others: seq<Part>, boundary: string)
    requires others != []
  {
    ParseParts(TextOf(others[0].body) + CRLF + PartsText(others[1..], boundary), Marker(boundary)) != Success(ParsedForms(others))
  }

  lemma OtherRest(part: ParsedPart, rest: string, marker: string, body: seq<byte>, others: seq<Part>)
    requires ParseParts(rest, marker) != Success(ParsedForms(others))
    ensures Continued(Next(part, rest), marker) != Success(Wanted(body, others))
  {
    hide ParseParts, ParsedForms;
    var r := ParseParts(rest, marker);
    if r.Success? {
      assert ([part] + r.value)[1..] == r.value;
      assert Wanted(body, others)[1..] == ParsedForms(others);
    }
  }

  /** The blank line is made of the end of the body and the line end after it. */
  lemma Straddle(x: string, body: seq<byte>, others: seq<Part>, boundary: string, e: nat, headers: HeaderMap, h: Option<nat>)
    requires GoodBoundary(boundary) && FairParts(others, boundary) && AfterMarker(x, TextOf(body), Marker(boundary))
    requires |x| >= 2 && x[|x| - 2..] == CRLF && headers == ParsedHeaders(x[..|x| - 2])
    requires NextAlike(x, body, others, boundary) ==> NextFails(others, boundary)
    requires var rest := PartsText(others, boundary);
             && IsBytes(rest) && Find(rest, Delimiter(boundary), 0) == Some(e) && e + 2 <= |rest|
             && h == Find(rest, GAP, 0)
    ensures var rest := PartsText(others, boundary);
            var d := DecodeBody(rest[..e], EncodingOf(headers));
            d.Some? ==> Continued(Next(ParsedPart(headers, d.value), rest[e + 2..]), Marker(boundary)) != Success(Wanted(body, others))
  {
    hide *;
    var rest := PartsText(others, boundary);
    var d := DecodeBody(rest[..e], EncodingOf(headers));
    if d.Some? {
      FoundMatches(rest, Delimiter(boundary));
      FoundMatches(rest, GAP);
      if h.Some? && h.value + 4 <= e {
        DropIsSuffix(rest, e + 2);
        TooFew(ParsedPart(headers, d.value), others, boundary, h.value, e, rest[e + 2..], body);
      } else if headers == map[] && BytesOf(rest[..e]) == body {
        BytesBack(rest, e, body);
        StraddleGap(x, TextOf(body), others, boundary, e);
        StraddleShape(x, TextOf(body), others, boundary, e);
        StraddleRest(others, boundary, e);
        NextFailsMeans(x, body, others, boundary);
        OtherRest(ParsedPart(headers, d.value), rest[e + 2..], Marker(boundary), body, others);
      } else {
        OtherBody(headers, rest[..e], rest[e + 2..], Marker(boundary), body, others);
      }
    }
  }

  lemma BytesBack(rest: string, e: nat, body: seq<byte>)
    requires IsBytes(rest) && e <= |rest| && BytesOf(rest[..e]) == body
    ensures rest[..e] == TextOf(body)
  {
    TextOfBytes(rest[..e]);
  }

  lemma NextFailsMeans(x: string, body: seq<byte>, others: seq<Part>, boundary: string)
    requires NextAlike(x, body, others, boundary) ==> NextFails(others, boundary)
    requires |x| >= 2 && others != [] && others[0].headers == [] && TextOf(body) == Marker(boundary) + CRLF
    requires Marker(boundary) <= TextOf(others[0].body)
    ensures ParseParts(TextOf(others[0].body) + CRLF + PartsText(others[1..], boundary), Marker(boundary)) != Success(ParsedForms(others))
  {
    hide ParseParts, ParsedForms, PartsText, Marker, TextOf;
  }

  lemma AfterMarkerSuffix(x: string, text: string, marker: string)
    requires AfterMarker(x, text, marker)
    ensures |x| <= |text| + 2 && x == (CRLF + text)[|text| + 2 - |x|..]
  {
    var all := CRLF + text;
    if x != all {
      assert x == text[|text| - |x|..];
      assert all[2..] == text;
    }
  }

  lemma StraddlePiece(x: string, body: seq<byte>, others: seq<Part>, boundary: string)
    requires GoodBoundary(boundary) && FairParts(others, boundary) && AfterMarker(x, TextOf(body), Marker(boundary))
    requires |x| >= 2 && x[|x| - 2..] == CRLF && IsBytes(PartsText(others, boundary))
    requires NextAlike(x, body, others, boundary) ==> NextFails(others, boundary)
    ensures var headers := ParsedHeaders(x[..|x| - 2]);
            Continued(PartAfterHeaders(headers, PartsText(others, boundary), Marker(boundary)), Marker(boundary)) != Success(Wanted(body, others))
  {
    hide *;
    var headers, rest := ParsedHeaders(x[..|x| - 2]), PartsText(others, boundary);
    DelimiterIs(boundary);
    EndsAt(headers, rest, Marker(boundary), body, others);
    var end := Find(rest, Delimiter(boundary), 0);
    if end.Some? {
      Straddle(x, body, others, boundary, end.value, headers, Find(rest, GAP, 0));
    }
  }

  /** Wherever the parser finds a blank line, it does not find this part and then the others. */
  lemma NotFound(x: string, body: seq<byte>, others: seq<Part>, boundary: string)
    requires GoodBoundary(boundary) && FairParts(others, boundary) && AfterMarker(x, TextOf(body), Marker(boundary))
    requires Free(TextOf(body), Delimiter(boundary)) && IsBytes(PartsText(others, boundary))
    requires NextAlike(x, body, others, boundary) ==> NextFails(others, boundary)
    ensures Continued(PartIn(x + CRLF + PartsText(others, boundary), Marker(boundary)), Marker(boundary)) != Success(Wanted(body, others))
  {
    hide *;
    var rest := PartsText(others, boundary);
    var inner := x + CRLF + rest;
    NoGapBroken(inner, Marker(boundary), body, others);
    var gap := Find(inner, GAP, 0);
    if gap.Some? {
      FoundMatches(inner, GAP);
      RestBegins(others, boundary);
      GapPlace(x, rest, gap.value);
      PartInIs(inner, Marker(boundary), gap.value);
      AfterMarkerSuffix(x, TextOf(body), Marker(boundary));
      if gap.value + 4 <= |x| {
        GapInBody(x, body, others, boundary, gap.value);
      } else if gap.value + 2 == |x| {
        assert inner[gap.value + 4..] == rest && inner[..gap.value] == x[..|x| - 2];
        StraddlePiece(x, body, others, boundary);
      } else {
        var p := gap.value - |x| - 2;
        GapBeyond(ParsedHeaders(inner[..gap.value]), body, others, boundary, p);
        DropJoin(x, rest, gap.value + 4);
      }
    }
  }

  lemma DropJoin(x: string, rest: string, k: nat)
    requires |x| + 2 <= k <= |x| + 2 + |rest|
    ensures (x + CRLF + rest)[k..] == rest[k - |x| - 2..]
  {
  }

  lemma NoGapBroken(inner: string, marker: string, body: seq<byte>, others: seq<Part>)
    ensures Find(inner, GAP, 0).None? ==> Continued(PartIn(inner, marker), marker) != Success(Wanted(body, others))
  {
    hide Find, ParsedForms, PartAfterHeaders, ParsedHeaders, ParseParts;
  }

  lemma RestBegins(others: seq<Part>, boundary: string)
    ensures PartsText(others, boundary) != [] && PartsText(others, boundary)[0] == '-'
  {
    PartsBegin(others, boundary);
    assert Marker(boundary)[0] == PartsText(others, boundary)[0];
  }

  lemma SkipKeeps(left: string, rest: string)
    requires left != []
    ensures SkipLineEnd(left + CRLF + rest) == SkipLineEnd(left) + CRLF + rest
  {
    var all := left + CRLF + rest;
    if |left| >= 2 {
      assert all[..2] == left[..2];
    } else {
      assert all[1] == '\r';
      assert all[..2][1] == '\r';
    }
  }

  lemma SkipFirst(rest: string)
    ensures SkipLineEnd(CRLF + rest) == rest
  {
    assert (CRLF + rest)[..2] == CRLF && (CRLF + rest)[2..] == rest;
  }

  /** A marker at the beginning is passed over. */
  lemma AfterFirstMarker(marker: string, after: string)
    ensures NextPart(marker + after, marker) ==
            if |after| > 1 && after[0] == '-' && after[1] == '-' then Finished else PartIn(SkipLineEnd(after), marker)
  {
    hide Find, PartAfterHeaders, ParsedHeaders, SkipLineEnd;
    FindAtStart(marker, after);
    assert (marker + after)[|marker|..] == after;
  }

  /** A body that begins like a marker is not found again when the parser starts at that marker. */
  lemma BodyLikeMarker(body: seq<byte>, others: seq<Part>, boundary: string)
    requires GoodBoundary(boundary) && FairParts(others, boundary) && Marker(boundary) <= TextOf(body)
    requires Free(TextOf(body), Delimiter(boundary)) && IsBytes(PartsText(others, boundary))
    ensures ParseParts(TextOf(body) + CRLF + PartsText(others, boundary), Marker(boundary)) != Success(Wanted(body, others))
  {
    hide *;
    var marker, rest := Marker(boundary), PartsText(others, boundary);
    var left := TextOf(body)[|marker|..];
    var after := left + CRLF + rest;
    assert TextOf(body) + CRLF + rest == marker + after;
    ContinuedIs(marker + after, marker);
    AfterFirstMarker(marker, after);
    FinishedIsNone(marker, body, others);
    if left == [] {
      assert after == CRLF + rest;
      SkipFirst(rest);
      NoGapBroken(rest, marker, body, others);
      FoundMatches(rest, GAP);
      var gap := Find(rest, GAP, 0);
      if gap.Some? {
        PartInIs(rest, marker, gap.value);
        GapBeyond(ParsedHeaders(rest[..gap.value]), body, others, boundary, gap.value);
      }
    } else {
      SkipKeeps(left, rest);
      var x := SkipLineEnd(left);
      LeftIsAfterMarker(x, TextOf(body), marker, others);
      NotAlike(x, body, others, boundary);
      NotFound(x, body, others, boundary);
    }
  }

  lemma FinishedIsNone(marker: string, body: seq<byte>, others: seq<Part>)
    ensures Continued(Finished, marker) != Success(Wanted(body, others))
  {
    hide ParsedForms;
  }

  lemma LeftIsAfterMarker(x: string, text: string, marker: string, others: seq<Part>)
    requires marker <= text && x == SkipLineEnd(text[|marker|..])
    ensures AfterMarker(x, text, marker)
  {
    hide SkipLineEnd;
  }

  lemma NotAlike(x: string, body: seq<byte>, others: seq<Part>, boundary: string)
    requires Marker(boundary) <= TextOf(body) && x == SkipLineEnd(TextOf(body)[|Marker(boundary)|..])
    ensures !NextAlike(x, body, others, boundary)
  {
    hide TextOf, Marker;
    if TextOf(body) == Marker(boundary) + CRLF {
      assert TextOf(body)[|Marker(boundary)|..] == CRLF + [];
      SkipFirst([]);
    }
  }

  lemma FairBody(p: Part, boundary: string)
    requires FairPart(p, boundary) && p.headers == []
    ensures Free(TextOf(p.body), Delimiter(boundary))
  {
    PlainBody(p);
    hide Free, EncodeBody, EncodingOf, MapOf;
  }

  lemma PlainBody(p: Part)
    requires p.headers == []
    ensures EncodeBody(p.body, EncodingOf(MapOf(p.headers))) == TextOf(p.body)
  {
  }

  lemma WantedIs(parts: seq<Part>)
    requires parts != [] && parts[0].headers == []
    ensures ParsedForms(parts) == Wanted(parts[0].body, parts[1..])
  {
    hide ParsedForms;
    FormsFirst(parts);
  }

  lemma FormsFirst(parts: seq<Part>)
    requires parts != []
    ensures ParsedForms(parts) == [ParsedForm(parts[0])] + ParsedForms(parts[1..])
    ensures parts[0].headers == [] ==> ParsedForm(parts[0]) == ParsedPart(map[], parts[0].body)
  {
  }

  lemma RestFair(parts: seq<Part>, boundary: string)
    requires parts != [] && FairParts(parts, boundary) && IsBytes(PartsText(parts, boundary))
    ensures FairPart(parts[0], boundary) && FairParts(parts[1..], boundary) && IsBytes(PartsText(parts[1..], boundary))
  {
    PartsTextNext(parts, boundary);
    hide PartsText, FairPart, Lines, EncodeBody, Marker;
    var text, rest := PartsText(parts, boundary), PartsText(parts[1..], boundary);
    assert rest == text[|text| - |rest|..];
    forall i | 0 <= i < |rest|
      ensures rest[i] as int < 256
    {
      assert rest[i] == text[|text| - |rest| + i];
    }
  }

  lemma FirstAlike(x: string, parts: seq<Part>, boundary: string)
    requires GoodBoundary(boundary) && parts != [] && FairParts(parts[1..], boundary) && IsBytes(PartsText(parts[1..], boundary))
    ensures NextAlike(x, parts[0].body, parts[1..], boundary) ==> NextFails(parts[1..], boundary)
  {
    hide PartsText, FairParts, ParseParts, ParsedForms, IsBytes, Marker, TextOf;
    var others := parts[1..];
    if NextAlike(x, parts[0].body, others, boundary) {
      RestFair(others, boundary);
      FairBody(others[0], boundary);
      BodyLikeMarker(others[0].body, others[1..], boundary);
      WantedIs(others);
    }
  }

  lemma Regrouped(marker: string, text: string, rest: string)
    ensures marker + CRLF + [] + CRLF + (text + CRLF + rest) == marker + (CRLF + ((CRLF + text) + CRLF + rest))
    ensures var after := CRLF + ((CRLF + text) + CRLF + rest); |after| > 1 && after[0] != '-'
  {
  }

  /** What the parser sees of a part without headers. */
  lemma HeaderlessPiece(parts: seq<Part>, boundary: string)
    requires parts != [] && parts[0].headers == []
    ensures ParseParts(PartsText(parts, boundary), Marker(boundary)) ==
            Continued(PartIn((CRLF + TextOf(parts[0].body)) + CRLF + PartsText(parts[1..], boundary), Marker(boundary)), Marker(boundary))
  {
    hide *;
    var marker, text, rest := Marker(boundary), TextOf(parts[0].body), PartsText(parts[1..], boundary);
    var inner := (CRLF + text) + CRLF + rest;
    PlainBody(parts[0]);
    PartsTextNext(parts, boundary);
    NoLines(parts[0].headers);
    Regrouped(marker, text, rest);
    ContinuedIs(marker + (CRLF + inner), marker);
    AfterFirstMarker(marker, CRLF + inner);
    SkipFirst(inner);
  }

  /** A part without headers, and what follows it. */
  lemma HeaderlessFirst(parts: seq<Part>, boundary: string)
    requires GoodBoundary(boundary) && parts != [] && FairParts(parts, boundary) && IsBytes(PartsText(parts, boundary))
    requires parts[0].headers == []
    ensures ParseParts(PartsText(parts, boundary), Marker(boundary)) != Success(ParsedForms(parts))
  {
    hide *;
    RestFair(parts, boundary);
    FairBody(parts[0], boundary);
    WantedIs(parts);
    HeaderlessPiece(parts, boundary);
    var x := CRLF + TextOf(parts[0].body);
    FirstAlike(x, parts, boundary);
    BreakIsAfterMarker(x, TextOf(parts[0].body), Marker(boundary));
    NotFound(x, parts[0].body, parts[1..], boundary);
  }

  lemma NoLines(headers: seq<Header>)
    requires headers == []
    ensures Lines(headers) == []
  {
  }

  lemma BreakIsAfterMarker(x: string, text: string, marker: string)
    requires x == CRLF + text
    ensures AfterMarker(x, text, marker)
  {
    hide SkipLineEnd;
  }

  // ---------------------------------------------------------------------------------------
  // The whole message

  ghost predicate AllHaveHeaders(parts: seq<Part>) { forall i :: 0 <= i < |parts| ==> parts[i].headers != [] }

  lemma {:induction false} PartsComeBack(parts: seq<Part>, boundary: string)
    requires GoodBoundary(boundary) && FairParts(parts, boundary) && IsBytes(PartsText(parts, boundary))
    ensures ParseParts(PartsText(parts, boundary), Marker(boundary)) == Success(ParsedForms(parts)) <==> AllHaveHeaders(parts)
  {
    hide ParseParts, ParsedForms, Marker, FairPart, Lines, EncodeBody, IsBytes;
    if parts == [] {
      PartsRoundTrip(parts, boundary);
    } else if parts[0].headers == [] {
      HeaderlessFirst(parts, boundary);
    } else {
      RestFair(parts, boundary);
      PartsComeBack(parts[1..], boundary);
      FirstComesBack(parts, boundary);
      FormsFirst(parts);
      hide PartsText;
      var r := ParseParts(PartsText(parts[1..], boundary), Marker(boundary));
      if r.Success? {
        assert ([ParsedForm(parts[0])] + r.value)[1..] == r.value;
        assert ParsedForms(parts)[1..] == ParsedForms(parts[1..]);
      }
      HeadersSplit(parts);
    }
  }

  lemma HeadersSplit(parts: seq<Part>)
    requires parts != []
    ensures AllHaveHeaders(parts) <==> parts[0].headers != [] && AllHaveHeaders(parts[1..])
  {
    if AllHaveHeaders(parts[1..]) && parts[0].headers != [] {
      forall i | 0 <= i < |parts|
        ensures parts[i].headers != []
      {
        if i > 0 { assert parts[i] == parts[1..][i - 1]; }
      }
    }
  }

  lemma FairIsGood(p: Part, boundary: string)
    requires FairPart(p, boundary) && p.headers != []
    ensures GoodPart(p, boundary)
  {
    hide GoodHeaders, Free;
  }

  lemma PartsTextFirst(parts: seq<Part>, boundary: string)
    requires parts != []
    ensures PartsText(parts, boundary) == Marker(boundary) + CRLF + PartText(parts[0]) + CRLF + PartsText(parts[1..], boundary)
  {
    hide PartText, Marker;
  }

  lemma FirstComesBack(parts: seq<Part>, boundary: string)
    requires GoodBoundary(boundary) && parts != [] && FairPart(parts[0], boundary) && parts[0].headers != []
    ensures ParseParts(PartsText(parts, boundary), Marker(boundary)) ==
            Continued(Next(ParsedForm(parts[0]), PartsText(parts[1..], boundary)), Marker(boundary))
  {
    hide *;
    var rest := PartsText(parts[1..], boundary);
    PartsBegin(parts[1..], boundary);
    FairIsGood(parts[0], boundary);
    OnePart(parts[0], boundary, rest);
    PartsTextFirst(parts, boundary);
    ContinuedIs(PartsText(parts, boundary), Marker(boundary));
  }

  /** Of a message whose parts may lack headers, the parts come back exactly when none does. */
  lemma MessageComesBack(m: Message, boundary: string)
    requires GoodBoundary(boundary) && GoodHeaders(m.headers) && FairParts(m.parts, boundary)
    requires IsBytes(PartsText(m.parts, boundary))
    ensures var r := Parse(Render(m, boundary));
            r.Success? && r.value.parts == ParsedForms(m.parts) <==> AllHaveHeaders(m.parts)
  {
    hide ParseParts, ParsedForms, PartsText, Parse, Render, Expected, FairParts, Marker, AllHaveHeaders;
    RenderedParses(m, boundary);
    PartsComeBack(m.parts, boundary);
  }

  /** An instance: a body comes back without its first line break. */
  lemma FirstBreakIsLost()
    ensures ParseParts(PartsText([Part([], [13, 10, 120])], "b"), Marker("b")) == Success([ParsedPart(map[], [120])])
  {
    hide *;
    var parts, rest, marker := [Part([], [13, 10, 120])], PartsText([], "b"), Marker("b");
    assert parts[1..] == [];
    HeaderlessPiece(parts, "b");
    var inner := (CRLF + TextOf(parts[0].body)) + CRLF + rest;
    ExampleGap(rest);
    PartInIs(inner, marker, 0);
    ExampleGood();
    PartsBegin([], "b");
    PieceAt(map[], "x", "b", rest);
    NoPart("b");
    ExampleEnds(rest, marker);
  }

  lemma ExampleGap(rest: string)
    ensures var inner := (CRLF + TextOf([13, 10, 120])) + CRLF + rest;
            Find(inner, GAP, 0) == Some(0) && |inner| >= 4 && inner[..0] == [] && inner[4..] == "x" + CRLF + rest
  {
    assert TextOf([13, 10, 120]) == CRLF + "x";
    var inner := (CRLF + TextOf([13, 10, 120])) + CRLF + rest;
    assert inner[..4] == GAP;
  }

  lemma ExampleGood()
    ensures GoodBoundary("b") && Free("x", Delimiter("b")) && ParsedHeaders([]) == map[]
    ensures DecodeBody("x", EncodingOf(map[])) == Some([120])
  {
    assert BytesOf("x") == [120];
  }

  lemma ExampleEnds(rest: string, marker: string)
    requires NextPart(rest, marker) == Finished
    ensures Continued(Next(ParsedPart(map[], [120]), rest), marker) == Success([ParsedPart(map[], [120])])
  {
    hide NextPart;
    assert ParseParts(rest, marker) == Success([]);
    assert [ParsedPart(map[], [120])] + [] == [ParsedPart(map[], [120])];
  }

  // ---------------------------------------------------------------------------------------
  // One part, unreadable

  /** No blank line where the only carriage returns are far apart. */
  lemma NoGap(body: string, tail: string, i: nat)
    requires body != [] && tail != [] && '\r' !in body && '\r' !in tail
    ensures !MatchAt(CRLF + body + CRLF + tail + CRLF, GAP, i)
  {
    hide MatchAt;
    var s := CRLF + body + CRLF + tail + CRLF;
    if i + 4 > |s| {
      ShortRest(s, i);
    } else if i == 0 {
      assert s[2] == body[0] && body[0] in body;
      NoMatch(s, GAP, i, 2);
    } else if i == |body| + 2 {
      assert s[i + 2] == tail[0] && tail[0] in tail;
      NoMatch(s, GAP, i, 2);
    } else {
      assert s[i] == '\n' || s[i] in body || s[i] in tail;
      NoMatch(s, GAP, i, 0);
    }
  }

  lemma ShortRest(s: string, i: nat)
    requires i + 4 > |s|
    ensures !MatchAt(s, GAP, i)
  {
  }

  lemma HeaderlessPart(body: seq<byte>, boundary: string)
    requires GoodBoundary(boundary) && body != [] && '\r' !in TextOf(body)
    ensures ParseParts(PartsText([Part([], body)], boundary), Marker(boundary)).Failure?
  {
    var parts, text, tail := [Part([], body)], TextOf(body), Marker(boundary) + DASHES;
    assert parts[1..] == [] && PartsText([], boundary) == tail + CRLF;
    assert '\r' !in tail;
    hide Marker, PartsText, ParsedHeaders, PartAfterHeaders, TextOf, MatchAt;
    HeaderlessPiece(parts, boundary);
    var inner := (CRLF + text) + CRLF + (tail + CRLF);
    assert inner == CRLF + text + CRLF + tail + CRLF;
    forall i: nat
      ensures !MatchAt(inner, GAP, i)
    {
      NoGap(text, tail, i);
    }
    assert Find(inner, GAP, 0).None?;
  }

  /** Why a part needs a header: without one the parser takes the line end that closes the marker's
      line for one that begins a blank line, and a message with one such part cannot be read. */
  lemma HeaderlessPartUnreadable(headers: seq<Header>, body: seq<byte>, boundary: string)
    requires GoodBoundary(boundary) && GoodHeaders(headers) && body != [] && '\r' !in TextOf(body)
    ensures Parse(Render(Message(headers, [Part([], body)]), boundary)).Failure?
  {
    hide Parse, Render, Expected, Marker, PartsText, ParseParts, TextOf;
    RenderedParses(Message(headers, [Part([], body)]), boundary);
    HeaderlessPart(body, boundary);
  }
}
