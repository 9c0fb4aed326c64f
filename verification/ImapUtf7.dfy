/** Mailbox names in the modified UTF-7 of section 5.1.3 of RFC 3501. */
module ImapUtf7 {
  import opened Basics
  import opened Text
  import opened Unicode
  import opened ModifiedBase64
  import B = Base64

  /** Printable characters of ASCII but the ampersand. */
  predicate IsDirectChar(u: int) { 0x20 <= u <= 0x7e && u != 0x26 }

  function UnitBytes(units: seq<CodeUnit>): (bytes: seq<byte>)
    ensures |bytes| == 2 * |units|
  {
    if units == [] then [] else [units[0] / 256, units[0] % 256] + UnitBytes(units[1..])
  }

  function UnitsOf(bytes: seq<byte>): seq<CodeUnit>
    requires |bytes| % 2 == 0
  {
    if bytes == [] then [] else [bytes[0] as int * 256 + bytes[1]] + UnitsOf(bytes[2..])
  }

  // ---------------------------------------------------------------------------------------
  // Encoding

  function EncodeSegment(units: seq<CodeUnit>): string { ['&'] + EncodeModified(UnitBytes(units)) + ['-'] }

  function Flush(pending: seq<CodeUnit>): string {
    if pending == [] then [] else EncodeSegment(pending)
  }

  /** The rest of the encoding, with units waiting to be shifted together. */
  function EncodeFrom(units: seq<CodeUnit>, pending: seq<CodeUnit>): string
    decreases |units|
  {
    if units == [] then Flush(pending)
    else if IsDirectChar(units[0]) then Flush(pending) + [units[0] as char] + EncodeFrom(units[1..], [])
    else if units[0] == 0x26 then Flush(pending) + ['&', '-'] + EncodeFrom(units[1..], [])
    else EncodeFrom(units[1..], pending + [units[0]])
  }

  function EncodeUnits(units: seq<CodeUnit>): string { EncodeFrom(units, []) }

  function EncodeName(name: seq<Scalar>): string { EncodeUnits(Utf16(name)) }

  lemma EncodeFromNext(units: seq<CodeUnit>, i: nat, pending: seq<CodeUnit>, out: string)
    requires i < |units|
    ensures out + EncodeFrom(units[i..], pending) ==
            if IsDirectChar(units[i]) then out + Flush(pending) + [units[i] as char] + EncodeFrom(units[i + 1..], [])
            else if units[i] == 0x26 then out + Flush(pending) + ['&', '-'] + EncodeFrom(units[i + 1..], [])
            else out + EncodeFrom(units[i + 1..], pending + [units[i]])
  {
    hide Flush;
    assert units[i..][1..] == units[i + 1..];
  }

  method EncodeImapUtf7(name: seq<Scalar>) returns (encoded: string)
    ensures encoded == EncodeName(name)
  {
    hide EncodeFrom, EncodeModified;
    var units := Utf16(name);
    encoded := [];
    var pending: seq<CodeUnit> := [];
    assert units[0..] == units;
    for i := 0 to |units|
      invariant encoded + EncodeFrom(units[i..], pending) == EncodeUnits(units)
    {
      EncodeFromNext(units, i, pending, encoded);
      if units[i] <= 0x7f && IsDirectChar(units[i]) {
        encoded, pending := FlushPending(encoded, pending);
        encoded := encoded + [units[i] as char];
        continue;
      }
      if units[i] == 0x26 {
        encoded, pending := FlushPending(encoded, pending);
        encoded := encoded + ['&', '-'];
        continue;
      }
      pending := pending + [units[i]];
    }
    assert units[|units|..] == [];
    EncodeNothing(pending);
    encoded, pending := FlushPending(encoded, pending);
  }

  lemma EncodeNothing(pending: seq<CodeUnit>)
    ensures EncodeFrom([], pending) == Flush(pending)
  {
  }

  method FlushPending(encoded: string, pending: seq<CodeUnit>) returns (r: string, left: seq<CodeUnit>)
    ensures r == encoded + Flush(pending) && left == []
  {
    if pending == [] {
      return encoded, [];
    }
    var segment := EncodeModifiedBase64(UnitBytes(pending));
    return encoded + (['&'] + segment + ['-']), [];
  }

  // ---------------------------------------------------------------------------------------
  // Decoding

  /** `None` when decoding the segment raises. */
  ghost function DecodeSegment(segment: string): Option<string> {
    if segment == [] then Some(['&'])
    else
      var bytes := Decoded(segment);
      if bytes.None? || |bytes.value| % 2 != 0 then None else NameOf(FromUtf16(UnitsOf(bytes.value)))
  }

  function NameOf(name: Option<seq<Scalar>>): Option<string> {
    if name.None? then None else Some(Utf8(name.value))
  }

  /** Where the shift that begins the text is closed. */
  function Close(text: string): (at: Option<nat>)
    requires text != [] && text[0] == '&'
    ensures at == Find(text, ['-'], 0)
    ensures at.Some? ==> 0 < at.value < |text| && text[at.value] == '-'
  {
    var at := Find(text, ['-'], 0);
    assert at.Some? ==> text[at.value..at.value + 1][0] == '-';
    at
  }

  /** A shift that is not closed is copied with all that follows, one that does not decode is copied
      as it stands. */
  ghost function DecodeName(text: string): string
    decreases |text|
  {
    if text == [] then []
    else if text[0] != '&' then [text[0]] + DecodeName(text[1..])
    else
      var end := Close(text);
      if end.None? then text
      else
        var segment := DecodeSegment(text[1..end.value]);
        (if segment.Some? then segment.value else text[..end.value + 1]) + DecodeName(text[end.value + 1..])
  }

  lemma UnitsNext(bytes: seq<byte>, i: nat, units: seq<CodeUnit>)
    requires i + 1 < |bytes| && |bytes| % 2 == 0 && i % 2 == 0
    ensures units + [bytes[i] as int * 256 + bytes[i + 1]] + UnitsOf(bytes[i + 2..]) == units + UnitsOf(bytes[i..])
  {
    assert bytes[i..][2..] == bytes[i + 2..];
  }

  lemma NoUnits()
    ensures UnitsOf([]) == []
  {
  }

  method JoinBytes(bytes: seq<byte>) returns (units: seq<CodeUnit>)
    requires |bytes| % 2 == 0
    ensures units == UnitsOf(bytes)
  {
    hide UnitsOf;
    units := [];
    var i := 0;
    assert bytes[0..] == bytes;
    while i < |bytes|
      invariant 0 <= i <= |bytes| && i % 2 == 0
      invariant units + UnitsOf(bytes[i..]) == UnitsOf(bytes)
    {
      UnitsNext(bytes, i, units);
      units := units + [bytes[i] as int * 256 + bytes[i + 1]];
      i := i + 2;
    }
    NoUnits();
    assert bytes[|bytes|..] == [];
  }

  method DecodeUtf16Segment(segment: string) returns (r: Option<string>)
    ensures r == DecodeSegment(segment)
  {
    hide Spells, UnitsOf, FromUtf16, Utf8, Decoded;
    if segment == [] {
      return Some(['&']);
    }
    var bytes := DecodeModifiedBase64(segment);
    DecodedIs(segment, bytes);
    if bytes.None? || |bytes.value| % 2 != 0 {
      return None;
    }
    var units := JoinBytes(bytes.value);
    r := NameOf(FromUtf16(units));
  }

  lemma DecodedIs(text: string, r: Option<seq<byte>>)
    requires r.Some? ==> Spells(text, r.value)
    requires r.None? ==> forall bytes :: !Spells(text, bytes)
    ensures r == Decoded(text)
  {
    hide Spells;
    if r.Some? { SpellsOne(text, r.value, Decoded(text).value); }
  }

  method DecodeImapUtf7(text: string) returns (decoded: string)
    ensures decoded == DecodeName(text)
  {
    hide DecodeName, Find, DecodeSegment;
    decoded := [];
    var i := 0;
    assert text[0..] == text;
    while i < |text|
      invariant 0 <= i <= |text|
      invariant decoded + DecodeName(text[i..]) == DecodeName(text)
    {
      ghost var rest := text[i..];
      DecodeNameNext(rest, decoded);
      if text[i] != '&' {
        decoded := decoded + [text[i]];
        assert rest[1..] == text[i + 1..];
        i := i + 1;
        continue;
      }
      FindFrom(text, ['-'], i);
      var end := Find(text, ['-'], i);
      if end.None? {
        decoded := decoded + text[i..];
        return;
      }
      AfterAmpersand(text, i, end.value);
      SamePieces(text, i, end.value);
      var segment := DecodeUtf16Segment(text[i + 1..end.value]);
      decoded := decoded + (if segment.Some? then segment.value else text[i..end.value + 1]);
      i := end.value + 1;
    }
    NothingToDecode();
    assert text[|text|..] == [];
  }

  lemma NothingToDecode()
    ensures DecodeName([]) == []
  {
  }

  lemma SamePieces(text: string, i: nat, at: nat)
    requires i < at < |text|
    ensures var rest, close := text[i..], at - i;
            && rest[1..close] == text[i + 1..at] && rest[..close + 1] == text[i..at + 1]
            && rest[close + 1..] == text[at + 1..]
  {
  }

  lemma AfterAmpersand(text: string, i: nat, at: nat)
    requires i <= at && i < |text| && text[i] == '&' && MatchAt(text, ['-'], at)
    ensures i < at < |text|
  {
    assert text[at..at + 1][0] == '-';
  }

  lemma DecodeNameIs(text: string)
    requires text != []
    ensures DecodeName(text) ==
            if text[0] != '&' then [text[0]] + DecodeName(text[1..])
            else
              var end := Close(text);
              if end.None? then text
              else
                var segment := DecodeSegment(text[1..end.value]);
                (if segment.Some? then segment.value else text[..end.value + 1]) + DecodeName(text[end.value + 1..])
  {
    hide DecodeSegment, Find, Close;
  }

  lemma DecodeNameNext(text: string, out: string)
    requires text != []
    ensures out + DecodeName(text) ==
            if text[0] != '&' then out + [text[0]] + DecodeName(text[1..])
            else
              var end := Close(text);
              if end.None? then out + text
              else
                var segment := DecodeSegment(text[1..end.value]);
                out + (if segment.Some? then segment.value else text[..end.value + 1]) + DecodeName(text[end.value + 1..])
  {
    hide DecodeName, DecodeSegment, Find, Close;
    DecodeNameIs(text);
    if text[0] != '&' {
      Regroup(out, [text[0]], DecodeName(text[1..]));
    } else {
      var end := Close(text);
      if end.Some? {
        var segment := DecodeSegment(text[1..end.value]);
        Regroup(out, if segment.Some? then segment.value else text[..end.value + 1], DecodeName(text[end.value + 1..]));
      }
    }
  }

  lemma Regroup(a: string, b: string, c: string)
    ensures a + (b + c) == a + b + c
  {
  }

  // ---------------------------------------------------------------------------------------
  // What names look like

  function Doubled(name: seq<Scalar>): string
    requires forall i :: 0 <= i < |name| ==> 0x20 <= name[i] <= 0x7e
  {
    if name == [] then [] else (if name[0] == '&' as int then ['&', '-'] else [name[0] as char]) + Doubled(name[1..])
  }

  /** Printable ASCII stays as it is, but for ampersands, which become `&-`. */
  lemma {:induction false} PrintableNames(name: seq<Scalar>)
    requires forall i :: 0 <= i < |name| ==> 0x20 <= name[i] <= 0x7e
    ensures EncodeName(name) == Doubled(name)
  {
    if name != [] {
      PrintableNames(name[1..]);
      assert Utf16(name) == [name[0]] + Utf16(name[1..]);
    }
  }

  /** The example of section 5.1.3 of RFC 3501: the name of a city in two Chinese characters. */
  lemma CityName()
    ensures EncodeName([0x53F0, 0x5317]) == "&U,BTFw-"
  {
    var name: seq<Scalar> := [0x53F0, 0x5317];
    assert name[1..] == [0x5317] && name[1..][1..] == [];
    assert Utf16(name) == [0x53F0, 0x5317];
    var units: seq<CodeUnit> := [0x53F0, 0x5317];
    assert units[1..] == [0x5317] && units[1..][1..] == [];
    assert UnitBytes(units) == [0x53, 0xF0, 0x53, 0x17];
    CityBytes();
  }

  lemma FirstThreeBytes()
    ensures Group([0x53, 0xF0, 0x53]) == "U,BT"
  {
    var bytes: seq<byte> := [0x53, 0xF0, 0x53];
    GroupByShifts(bytes, 0xF0, 0x53);
    hide Group, B.DigitChar;
    var block := 0x53F053;
    assert block / 262144 % 64 == 20 && block / 4096 % 64 == 63 && block / 64 % 64 == 1 && block % 64 == 19;
    CityDigits();
  }

  lemma CityDigits()
    ensures B.DigitChar(20, B.MODIFIED) == 'U' && B.DigitChar(63, B.MODIFIED) == ','
    ensures B.DigitChar(1, B.MODIFIED) == 'B' && B.DigitChar(19, B.MODIFIED) == 'T'
    ensures B.DigitChar(5, B.MODIFIED) == 'F' && B.DigitChar(48, B.MODIFIED) == 'w'
  {
  }

  lemma LastByte()
    ensures Group([0x17]) == "Fw"
  {
    var bytes: seq<byte> := [0x17];
    GroupByShifts(bytes, 0, 0);
    hide Group, B.DigitChar;
    var block := 0x170000;
    assert block / 262144 % 64 == 5 && block / 4096 % 64 == 48;
    CityDigits();
  }

  lemma CityBytes()
    ensures EncodeModified([0x53, 0xF0, 0x53, 0x17]) == "U,BTFw"
  {
    FirstThreeBytes();
    LastByte();
    EmptyEncoding();
    GroupOfFirst([0x53, 0xF0, 0x53], [0x17]);
    var bytes: seq<byte> := [0x53, 0xF0, 0x53, 0x17];
    assert bytes == [0x53, 0xF0, 0x53] + [0x17] && bytes[3..] == [0x17] && bytes[3..][1..] == [];
    hide Group;
    assert "U,BT" + ("Fw" + []) == "U,BTFw";
  }

  lemma GroupOfFirst(first: seq<byte>, rest: seq<byte>)
    requires |first| == 3
    ensures Group(first + rest) == Group(first)
  {
  }

  // ---------------------------------------------------------------------------------------
  // Shifts that cannot be read

  /** A shift that is not closed is copied with all that follows. */
  lemma UnclosedShiftStays(text: string)
    requires '-' !in text
    ensures DecodeName("&" + text) == "&" + text
  {
    hide Find;
    FindNoChar("&" + text, '-');
  }

  /** A shift with a character outside the alphabet is copied as it stands. */
  lemma ForeignShiftStays(segment: string, i: nat, rest: string)
    requires '-' !in segment && i < |segment| && segment[i] !in B.DigitsOf(B.MODIFIED)
    ensures DecodeName("&" + segment + "-" + rest) == "&" + segment + "-" + DecodeName(rest)
  {
    NotSpelled(segment, i);
    var text, start := "&" + segment + "-" + rest, "&" + segment;
    assert text == start + ['-'] + rest;
    FindChar(start, '-', rest);
    assert text[1..|start|] == segment && text[..|start| + 1] == start + "-" && text[|start| + 1..] == rest;
    hide Find, Decoded, B.DigitsOf;
    assert DecodeSegment(segment) == None;
  }
}
