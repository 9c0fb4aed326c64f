/** Headers whose values are folded over several lines, as other mail programs print them. */
module FoldedHeaders {
  import opened Basics
  import opened Text
  import opened Mime
  import opened MimeRoundTrip

  /** A further line of a value: blanks, and a piece of the value. */
  datatype Continuation = Continuation(blanks: string, piece: string)
  datatype Folded = Folded(key: string, first: string, more: seq<Continuation>)

  ghost predicate GoodContinuation(c: Continuation) {
    && c.blanks != [] && (forall i :: 0 <= i < |c.blanks| ==> c.blanks[i] == ' ' || c.blanks[i] == '\t')
    && GoodText(c.piece)
  }

  ghost predicate GoodFolded(h: Folded) {
    && GoodKey(h.key) && GoodText(h.first)
    && forall i :: 0 <= i < |h.more| ==> GoodContinuation(h.more[i])
  }

  ghost predicate AllGood(headers: seq<Folded>) { forall i :: 0 <= i < |headers| ==> GoodFolded(headers[i]) }

  function MoreLines(more: seq<Continuation>): seq<string> {
    if more == [] then [] else [more[0].blanks + more[0].piece] + MoreLines(more[1..])
  }

  function FoldedLines(headers: seq<Folded>): seq<string> {
    if headers == [] then []
    else [headers[0].key + ": " + headers[0].first] + MoreLines(headers[0].more) + FoldedLines(headers[1..])
  }

  /** The pieces put together without the blanks between them. */
  function Pieces(more: seq<Continuation>): string {
    if more == [] then [] else more[0].piece + Pieces(more[1..])
  }

  /** The value with its line ends taken out, as section 2.2.3 of RFC 5322 has it. */
  function Unfolded(more: seq<Continuation>): string {
    if more == [] then [] else more[0].blanks + more[0].piece + Unfolded(more[1..])
  }

  function AsHeaders(headers: seq<Folded>): seq<Header> {
    if headers == [] then []
    else [Header(headers[0].key, headers[0].first + Pieces(headers[0].more))] + AsHeaders(headers[1..])
  }

  // ---------------------------------------------------------------------------------------
  // The lines are lines

  lemma {:induction false} MoreLinesGood(more: seq<Continuation>)
    requires forall i :: 0 <= i < |more| ==> GoodContinuation(more[i])
    ensures GoodLines(MoreLines(more))
  {
    if more != [] {
      MoreLinesGood(more[1..]);
      assert GoodContinuation(more[0]);
      BlanksOneLine(more[0].blanks);
      OneLineJoin(more[0].blanks, more[0].piece);
    }
  }

  lemma BlanksOneLine(blanks: string)
    requires forall i :: 0 <= i < |blanks| ==> blanks[i] == ' ' || blanks[i] == '\t'
    ensures OneLine(blanks)
  {
  }

  lemma {:induction false} FoldedLinesGood(headers: seq<Folded>)
    requires AllGood(headers)
    ensures GoodLines(FoldedLines(headers)) && (headers != [] ==> FoldedLines(headers) != [])
  {
    if headers != [] {
      FoldedLinesGood(headers[1..]);
      assert GoodFolded(headers[0]);
      MoreLinesGood(headers[0].more);
    }
  }

  // ---------------------------------------------------------------------------------------
  // Reading

  lemma {:induction false} ReadAllJoin(s: HeaderState, a: seq<string>, b: seq<string>)
    ensures ReadAll(s, a + b) == ReadAll(ReadAll(s, a), b)
    decreases |a|
  {
    hide ReadLine;
    if a == [] {
      assert a + b == b;
    } else {
      assert (a + b)[1..] == a[1..] + b;
      ReadAllJoin(ReadLine(s, a[0]), a[1..], b);
    }
  }

  lemma PieceTrimmed(c: Continuation)
    requires GoodContinuation(c)
    ensures TrimValue(c.blanks + c.piece) == c.piece
  {
    var blanks := {'\r', '\n', ' ', '\t'};
    var line := c.blanks + c.piece;
    if c.piece == [] {
      assert line == c.blanks;
      AllTrimmed(c.blanks, blanks);
    } else {
      assert c.piece[|c.piece| - 1] in c.piece && line[|line| - 1] == c.piece[|c.piece| - 1];
      assert TrimRight(line, blanks) == line;
      LeftTrimmed(c.blanks, c.piece, {' ', '\t'});
    }
  }

  lemma ReadContinuation(s: HeaderState, c: Continuation)
    requires GoodContinuation(c) && s.current != [] && s.current in s.headers
    ensures ReadLine(s, c.blanks + c.piece) == s.(headers := s.headers[s.current := s.headers[s.current] + c.piece])
  {
    PieceTrimmed(c);
    hide TrimValue;
    assert (c.blanks + c.piece)[0] == c.blanks[0];
  }

  lemma {:induction false} ReadMore(s: HeaderState, more: seq<Continuation>)
    requires s.current != [] && s.current in s.headers && forall i :: 0 <= i < |more| ==> GoodContinuation(more[i])
    ensures ReadAll(s, MoreLines(more)) == s.(headers := s.headers[s.current := s.headers[s.current] + Pieces(more)])
    decreases |more|
  {
    hide ReadLine, GoodContinuation;
    if more == [] {
      assert s.headers[s.current] + Pieces(more) == s.headers[s.current];
    } else {
      var next := ReadLine(s, more[0].blanks + more[0].piece);
      ReadContinuation(s, more[0]);
      ReadMore(next, more[1..]);
      var value := s.headers[s.current];
      assert value + (more[0].piece + Pieces(more[1..])) == value + more[0].piece + Pieces(more[1..]);
    }
  }

  lemma {:induction false} ReadFolded(s: HeaderState, headers: seq<Folded>)
    requires AllGood(headers)
    ensures ReadAll(s, FoldedLines(headers)).headers == Merge(s.headers, AsHeaders(headers))
    decreases |headers|
  {
    hide ReadLine, GoodContinuation, MoreLines, GoodKey, GoodText;
    if headers != [] {
      var h, others := headers[0], headers[1..];
      assert GoodFolded(h);
      var line := h.key + ": " + h.first;
      var one := HeaderState(s.headers[h.key := h.first], h.key);
      FirstRead(s, h);
      ReadMore(one, h.more);
      var next := one.(headers := one.headers[h.key := h.first + Pieces(h.more)]);
      assert next.headers == s.headers[h.key := h.first + Pieces(h.more)];
      ReadAllJoin(s, [line], MoreLines(h.more));
      ReadAllJoin(s, [line] + MoreLines(h.more), FoldedLines(others));
      assert ReadAll(s, [line]) == one by { assert [line][1..] == []; }
      ReadFolded(next, others);
    }
  }

  lemma FirstRead(s: HeaderState, h: Folded)
    requires GoodFolded(h)
    ensures h.key != [] && ReadLine(s, h.key + ": " + h.first) == HeaderState(s.headers[h.key := h.first], h.key)
  {
    hide ReadLine;
    ReadHeaderLine(s, Header(h.key, h.first));
    assert ": " == [':', ' '];
    assert h.key + ": " + h.first == Line(Header(h.key, h.first));
  }

  /** Headers folded at blanks over any number of lines are read with the pieces of each value put
      together, without the blanks at the folds. */
  lemma FoldedHeadersRead(headers: seq<Folded>, rest: string)
    requires headers != [] && AllGood(headers)
    ensures var raw := TextLines(FoldedLines(headers)) + "\r\n" + rest;
            var gap := Find(raw, "\r\n\r\n", 0);
            && gap.Some? && gap.value + 4 <= |raw|
            && ParsedHeaders(raw[..gap.value]) == MapOf(AsHeaders(headers)) && raw[gap.value + 4..] == rest
  {
    hide ReadLines, TextLines, FoldedLines, AsHeaders, Merge, Find, AllGood, GoodLines;
    var lines := FoldedLines(headers);
    FoldedLinesGood(headers);
    GapAfterTexts(lines, rest);
    ReadTextLines(HeaderState(map[], []), lines);
    ReadFolded(HeaderState(map[], []), headers);
    var raw, at := TextLines(lines) + CRLF + rest, |TextLines(lines)| - 2;
    assert raw[..at] == TextLines(lines)[..at];
    assert raw[at + 4..] == rest;
  }

  /** A value is read as the standard unfolds it exactly when it stands on one line. */
  lemma {:induction false} UnfoldedIff(more: seq<Continuation>)
    requires forall i :: 0 <= i < |more| ==> GoodContinuation(more[i])
    ensures |Pieces(more)| <= |Unfolded(more)|
    ensures Pieces(more) == Unfolded(more) <==> more == []
  {
    if more != [] {
      UnfoldedIff(more[1..]);
      assert GoodContinuation(more[0]);
      assert |Pieces(more)| < |Unfolded(more)|;
    }
  }
}
