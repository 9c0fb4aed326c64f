/** Decoding an encoded mailbox name gives the name back, and the encoding is the canonical one. */
module ImapUtf7RoundTrip {
  import opened Basics
  import opened Text
  import opened Unicode
  import opened ModifiedBase64
  import opened ImapUtf7
  import B = Base64

  // ---------------------------------------------------------------------------------------
  // Round trip

  lemma {:induction false} UnitsRoundTrip(units: seq<CodeUnit>)
    ensures UnitsOf(UnitBytes(units)) == units
  {
    if units != [] {
      UnitsRoundTrip(units[1..]);
      assert UnitBytes(units)[2..] == UnitBytes(units[1..]);
      assert units == [units[0]] + units[1..];
    }
  }

  /** A digit of modified base64 is printable and neither closes nor opens a shift. */
  lemma DigitPrintable(c: char)
    requires B.DigitValue(c, B.MODIFIED) >= 0
    ensures 0x20 <= c as int <= 0x7e && c != '-' && c != '&'
  {
  }

  lemma SegmentChars(units: seq<CodeUnit>)
    ensures var code := EncodeModified(UnitBytes(units));
            && (units != [] ==> code != [])
            && forall i :: 0 <= i < |code| ==> 0x20 <= code[i] as int <= 0x7e && code[i] != '-' && code[i] != '&'
  {
    EncodedSpells(UnitBytes(units));
    hide EncodeModified, Spells, ByteBits, TextBits;
    SpelledDigits(EncodeModified(UnitBytes(units)), UnitBytes(units));
  }

  lemma SpelledDigits(code: string, bytes: seq<byte>)
    requires Spells(code, bytes)
    ensures bytes != [] ==> code != []
    ensures forall i :: 0 <= i < |code| ==> 0x20 <= code[i] as int <= 0x7e && code[i] != '-' && code[i] != '&'
  {
    SpelledLength(code, bytes);
    forall i | 0 <= i < |code|
      ensures 0x20 <= code[i] as int <= 0x7e && code[i] != '-' && code[i] != '&'
    {
      DigitPrintable(code[i]);
    }
  }

  /** A shift and the character that closes it. */
  lemma DecodeClosed(code: string, rest: string)
    requires '-' !in code && DecodeSegment(code).Some?
    ensures DecodeName(['&'] + code + ['-'] + rest) == DecodeSegment(code).value + DecodeName(rest)
  {
    hide DecodeSegment, Find;
    var text := ['&'] + code + ['-'] + rest;
    assert '-' !in ['&'] + code;
    FindChar(['&'] + code, '-', rest);
    assert text[1..|code| + 1] == code && text[|code| + 2..] == rest;
  }

  lemma SegmentRoundTrip(name: seq<Scalar>)
    requires name != []
    ensures DecodeSegment(EncodeModified(UnitBytes(Utf16(name)))) == Some(Utf8(name))
  {
    hide EncodeModified, Decoded, Utf8, UnitBytes, UnitsOf, FromUtf16;
    var units := Utf16(name);
    SegmentChars(units);
    DecodedEncoding(UnitBytes(units));
    UnitsRoundTrip(units);
    Utf16RoundTrip(name);
  }

  lemma DecodeShift(name: seq<Scalar>, rest: string)
    requires name != []
    ensures DecodeName(EncodeSegment(Utf16(name)) + rest) == Utf8(name) + DecodeName(rest)
  {
    hide EncodeModified, Find, Utf8, Utf16, DecodeName, DecodeSegment;
    var code := EncodeModified(UnitBytes(Utf16(name)));
    SegmentChars(Utf16(name));
    SegmentRoundTrip(name);
    DecodeClosed(code, rest);
  }

  lemma DecodeFlushed(name: seq<Scalar>, rest: string)
    ensures DecodeName(Flush(Utf16(name)) + rest) == Utf8(name) + DecodeName(rest)
  {
    hide DecodeName, EncodeSegment;
    if name == [] {
      assert Flush(Utf16(name)) + rest == rest;
    } else {
      DecodeShift(name, rest);
    }
  }

  lemma DecodeDirect(c: char, rest: string)
    requires c != '&'
    ensures DecodeName([c] + rest) == [c] + DecodeName(rest)
  {
    assert ([c] + rest)[1..] == rest;
  }

  lemma DecodeAmpersand(rest: string)
    ensures DecodeName(['&', '-'] + rest) == ['&'] + DecodeName(rest)
  {
    var text := ['&', '-'] + rest;
    FindChar(['&'], '-', rest);
    assert text == ['&'] + ['-'] + rest;
    assert text[1..1] == [] && text[2..] == rest;
    hide Find;
  }

  lemma Utf16Last(name: seq<Scalar>, c: Scalar)
    ensures Utf16(name + [c]) == Utf16(name) + Utf16Of(c) && Utf8(name + [c]) == Utf8(name) + TextOf(Utf8Of(c))
  {
    Utf16Concat(name, [c]);
    Utf8Concat(name, [c]);
    assert Utf16([c]) == Utf16Of(c) && Utf8([c]) == TextOf(Utf8Of(c));
  }

  /** A scalar that is not printable ASCII joins the shift, both halves of it. */
  lemma Shifts(c: Scalar, units: seq<CodeUnit>, pending: seq<CodeUnit>)
    requires !IsDirectChar(c) && c != 0x26
    ensures EncodeFrom(Utf16Of(c) + units, pending) == EncodeFrom(units, pending + Utf16Of(c))
  {
    hide Flush;
    var all := Utf16Of(c) + units;
    if c < 0x10000 {
      assert all[1..] == units;
    } else {
      var high, low := Utf16Of(c)[0], Utf16Of(c)[1];
      assert all[1..] == [low] + units && ([low] + units)[1..] == units;
      assert pending + [high] + [low] == pending + Utf16Of(c);
    }
  }

  /** Whatever waits to be shifted and whatever follows the encoding. */
  lemma {:induction false} DecodeEncodedFrom(name: seq<Scalar>, pending: seq<Scalar>, rest: string)
    ensures DecodeName(EncodeFrom(Utf16(name), Utf16(pending)) + rest) == Utf8(pending) + Utf8(name) + DecodeName(rest)
    decreases |name|
  {
    hide *;
    EmptyName();
    if name == [] {
      EncodeNothing(Utf16(pending));
      DecodeFlushed(pending, rest);
      assert Utf8(pending) + [] == Utf8(pending);
    } else {
      var c, others := name[0], name[1..];
      var more := EncodeFrom(Utf16(others), []);
      NameFirst(name);
      if Unshifted(c) {
        DecodeEncodedFrom(others, [], rest);
        assert [] + Utf8(others) == Utf8(others);
        EncodesUnshifted(c, Utf16(others), Utf16(pending));
        DecodeUnshifted(c, more + rest);
        DecodeFlushed(pending, WrittenAscii(c) + (more + rest));
        var out := EncodeFrom(Utf16(name), Utf16(pending));
        assert out + rest == Flush(Utf16(pending)) + (WrittenAscii(c) + (more + rest));
        assert Utf8(pending) + (TextOf(Utf8Of(c)) + (Utf8(others) + DecodeName(rest))) ==
               Utf8(pending) + (TextOf(Utf8Of(c)) + Utf8(others)) + DecodeName(rest);
      } else {
        ShiftsName(c, Utf16(others), Utf16(pending));
        Utf16Last(pending, c);
        DecodeEncodedFrom(others, pending + [c], rest);
        assert Utf8(pending) + TextOf(Utf8Of(c)) + Utf8(others) == Utf8(pending) + (TextOf(Utf8Of(c)) + Utf8(others));
      }
    }
  }

  predicate Unshifted(c: Scalar) { IsDirectChar(c) || c == 0x26 }

  function WrittenAscii(c: Scalar): string
    requires Unshifted(c)
  {
    if c == 0x26 then ['&', '-'] else [c as char]
  }

  lemma EncodesUnshifted(c: Scalar, units: seq<CodeUnit>, pending: seq<CodeUnit>)
    requires Unshifted(c)
    ensures EncodeFrom(Utf16Of(c) + units, pending) == Flush(pending) + WrittenAscii(c) + EncodeFrom(units, [])
  {
    hide Flush;
    assert (Utf16Of(c) + units)[1..] == units;
  }

  lemma DecodeUnshifted(c: Scalar, rest: string)
    requires Unshifted(c)
    ensures DecodeName(WrittenAscii(c) + rest) == TextOf(Utf8Of(c)) + DecodeName(rest)
  {
    hide DecodeName;
    assert TextOf(Utf8Of(c)) == [c as char];
    if c == 0x26 {
      DecodeAmpersand(rest);
    } else {
      DecodeDirect(c as char, rest);
    }
  }

  lemma ShiftsName(c: Scalar, units: seq<CodeUnit>, pending: seq<CodeUnit>)
    requires !Unshifted(c)
    ensures EncodeFrom(Utf16Of(c) + units, pending) == EncodeFrom(units, pending + Utf16Of(c))
  {
    hide EncodeFrom;
    Shifts(c, units, pending);
  }

  lemma NameFirst(name: seq<Scalar>)
    requires name != []
    ensures Utf16(name) == Utf16Of(name[0]) + Utf16(name[1..]) && Utf8(name) == TextOf(Utf8Of(name[0])) + Utf8(name[1..])
  {
  }

  /** Decoding an encoded name, with anything after it, gives the name. */
  lemma DecodeEncoded(name: seq<Scalar>, rest: string)
    ensures DecodeName(EncodeName(name) + rest) == Utf8(name) + DecodeName(rest)
  {
    hide DecodeName, EncodeFrom, Utf8;
    EmptyName();
    DecodeEncodedFrom(name, [], rest);
  }

  lemma EmptyName()
    ensures Utf16([]) == [] && Utf8([]) == [] && DecodeName([]) == []
  {
  }

  /** Section 5.1.3 of RFC 3501: every name comes back, and so do two names in a row. */
  lemma NameRoundTrip(a: seq<Scalar>, b: seq<Scalar>)
    ensures DecodeName(EncodeName(a)) == Utf8(a)
    ensures DecodeName(EncodeName(a) + EncodeName(b)) == Utf8(a) + Utf8(b)
  {
    hide DecodeName, EncodeName, Utf8;
    EmptyName();
    DecodeEncoded(a, []);
    DecodeEncoded(a, EncodeName(b));
    DecodeEncoded(b, []);
    assert EncodeName(a) + [] == EncodeName(a) && EncodeName(b) + [] == EncodeName(b);
  }

  // ---------------------------------------------------------------------------------------
  // Canonical form

  type DirectUnit = u: CodeUnit | IsDirectChar(u) witness 0x20

  datatype Token = Direct(unit: DirectUnit) | Ampersand | Shift(units: seq<CodeUnit>)

  function Meaning(t: Token): seq<CodeUnit> {
    match t
    case Direct(unit) => [unit]
    case Ampersand => [0x26]
    case Shift(units) => units
  }

  function Meanings(tokens: seq<Token>): seq<CodeUnit> {
    if tokens == [] then [] else Meaning(tokens[0]) + Meanings(tokens[1..])
  }

  function Written(t: Token): string {
    match t
    case Direct(unit) => [unit as char]
    case Ampersand => ['&', '-']
    case Shift(units) => EncodeSegment(units)
  }

  function WrittenAll(tokens: seq<Token>): string {
    if tokens == [] then [] else Written(tokens[0]) + WrittenAll(tokens[1..])
  }

  predicate MustShift(u: CodeUnit) { !IsDirectChar(u) && u != 0x26 }

  ghost predicate AllShift(units: seq<CodeUnit>) { forall i :: 0 <= i < |units| ==> MustShift(units[i]) }

  ghost predicate GoodToken(t: Token) {
    match t
    case Direct(unit) => true
    case Ampersand => true
    case Shift(units) => units != [] && AllShift(units)
  }

  /** Shifts hold only what must be shifted, and no two of them meet. */
  ghost predicate Canonical(tokens: seq<Token>) {
    && (forall i :: 0 <= i < |tokens| ==> GoodToken(tokens[i]))
    && (forall i :: 0 <= i < |tokens| - 1 ==> !(tokens[i].Shift? && tokens[i + 1].Shift?))
  }

  function FlushTokens(pending: seq<CodeUnit>): seq<Token> { if pending == [] then [] else [Shift(pending)] }

  function TokensFrom(units: seq<CodeUnit>, pending: seq<CodeUnit>): seq<Token>
    decreases |units|
  {
    if units == [] then FlushTokens(pending)
    else if IsDirectChar(units[0]) then FlushTokens(pending) + [Direct(units[0])] + TokensFrom(units[1..], [])
    else if units[0] == 0x26 then FlushTokens(pending) + [Ampersand] + TokensFrom(units[1..], [])
    else TokensFrom(units[1..], pending + [units[0]])
  }

  lemma {:induction false} WrittenConcat(a: seq<Token>, b: seq<Token>)
    ensures WrittenAll(a + b) == WrittenAll(a) + WrittenAll(b) && Meanings(a + b) == Meanings(a) + Meanings(b)
  {
    hide Written, Meaning;
    if a == [] {
      assert a + b == b;
    } else {
      assert (a + b)[1..] == a[1..] + b;
      WrittenConcat(a[1..], b);
    }
  }

  lemma OneToken(t: Token)
    ensures WrittenAll([t]) == Written(t) && Meanings([t]) == Meaning(t)
  {
    hide Written, Meaning;
  }

  lemma CanonicalJoin(a: seq<Token>, t: Token, b: seq<Token>)
    requires Canonical(a) && Canonical(b) && GoodToken(t) && !t.Shift?
    ensures Canonical(a + [t] + b)
  {
    hide GoodToken;
    var all := a + [t] + b;
    forall i | 0 <= i < |all|
      ensures GoodToken(all[i])
    {
      if i < |a| { assert all[i] == a[i]; } else if i > |a| { assert all[i] == b[i - |a| - 1]; }
    }
    forall i | 0 <= i < |all| - 1
      ensures !(all[i].Shift? && all[i + 1].Shift?)
    {
      if i + 1 < |a| { assert all[i] == a[i] && all[i + 1] == a[i + 1]; }
      else if i > |a| { assert all[i] == b[i - |a| - 1] && all[i + 1] == b[i - |a|]; }
    }
  }

  lemma FlushCanonical(pending: seq<CodeUnit>)
    requires AllShift(pending)
    ensures Canonical(FlushTokens(pending))
    ensures WrittenAll(FlushTokens(pending)) == Flush(pending) && Meanings(FlushTokens(pending)) == pending
  {
    hide EncodeSegment;
    if pending != [] { OneToken(Shift(pending)); }
  }

  lemma {:induction false} TokensCanonical(units: seq<CodeUnit>, pending: seq<CodeUnit>)
    requires AllShift(pending)
    ensures var tokens := TokensFrom(units, pending);
            Canonical(tokens) && WrittenAll(tokens) == EncodeFrom(units, pending) && Meanings(tokens) == pending + units
    decreases |units|
  {
    hide Canonical, FlushTokens, Flush, WrittenAll, Meanings, GoodToken, EncodeSegment;
    FlushCanonical(pending);
    if units == [] {
      assert pending + units == pending;
    } else {
      var u, others := units[0], units[1..];
      assert units == [u] + others;
      if MustShift(u) {
        TokensCanonical(others, pending + [u]);
        assert pending + [u] + others == pending + units;
      } else {
        var t := if IsDirectChar(u) then Direct(u) else Ampersand;
        TokensCanonical(others, []);
        NotShifted(u);
        CanonicalJoin(FlushTokens(pending), t, TokensFrom(others, []));
        WrittenConcat(FlushTokens(pending) + [t], TokensFrom(others, []));
        WrittenConcat(FlushTokens(pending), [t]);
        OneToken(t);
        assert [] + others == others && pending + [u] + others == pending + units;
      }
    }
  }

  lemma NotShifted(u: CodeUnit)
    requires !MustShift(u)
    ensures GoodToken(if IsDirectChar(u) then Direct(u) else Ampersand)
    ensures Meaning(if IsDirectChar(u) then Direct(u) else Ampersand) == [u]
  {
  }

  /** The encoding of every name is written in canonical tokens. */
  lemma EncodingIsCanonical(units: seq<CodeUnit>) returns (tokens: seq<Token>)
    ensures Canonical(tokens) && Meanings(tokens) == units && EncodeUnits(units) == WrittenAll(tokens)
  {
    tokens := TokensFrom(units, []);
    TokensCanonical(units, []);
    assert [] + units == units;
  }

  lemma FirstMeaning(tokens: seq<Token>)
    requires Canonical(tokens) && tokens != []
    ensures Meanings(tokens) != []
    ensures MustShift(Meanings(tokens)[0]) <==> tokens[0].Shift?
    ensures Meanings(tokens)[0] == 0x26 <==> tokens[0].Ampersand?
    ensures IsDirectChar(Meanings(tokens)[0]) <==> tokens[0].Direct?
    ensures tokens[0].Direct? ==> Meanings(tokens)[0] == tokens[0].unit
  {
    assert GoodToken(tokens[0]);
  }

  lemma CanonicalTail(tokens: seq<Token>)
    requires Canonical(tokens) && tokens != []
    ensures Canonical(tokens[1..])
    ensures tokens[0].Shift? && tokens[1..] != [] ==> !tokens[1].Shift?
  {
    hide GoodToken;
    var tail := tokens[1..];
    assert forall i :: 0 <= i < |tail| ==> tail[i] == tokens[i + 1];
    if |tokens| > 1 { assert !(tokens[0].Shift? && tokens[0 + 1].Shift?); }
  }

  /** A shift is as long as it can be. */
  lemma ShiftNotLonger(a: seq<Token>, b: seq<Token>)
    requires Canonical(a) && Canonical(b) && a != [] && b != [] && Meanings(a) == Meanings(b) && a[0].Shift? && b[0].Shift?
    ensures |a[0].units| >= |b[0].units|
  {
    var n, units := |a[0].units|, Meanings(a);
    assert GoodToken(b[0]);
    if n < |b[0].units| {
      assert units[n] == b[0].units[n] && MustShift(b[0].units[n]);
      assert units[n..] == Meanings(a[1..]);
      CanonicalTail(a);
      FirstMeaning(a[1..]);
    }
  }

  /** There is only one canonical way to write a name. */
  lemma {:induction false} CanonicalUnique(a: seq<Token>, b: seq<Token>)
    requires Canonical(a) && Canonical(b) && Meanings(a) == Meanings(b)
    ensures a == b
  {
    if a == [] || b == [] {
      if a != [] { FirstMeaning(a); }
      if b != [] { FirstMeaning(b); }
    } else {
      FirstMeaning(a);
      FirstMeaning(b);
      CanonicalTail(a);
      CanonicalTail(b);
      hide Canonical;
      if a[0].Shift? {
        ShiftNotLonger(a, b);
        ShiftNotLonger(b, a);
        var n := |a[0].units|;
        assert a[0].units == Meanings(a)[..n] == Meanings(b)[..n] == b[0].units;
      }
      var n := |Meaning(a[0])|;
      assert a[0] == b[0];
      assert Meanings(a)[n..] == Meanings(a[1..]) && Meanings(b)[n..] == Meanings(b[1..]);
      CanonicalUnique(a[1..], b[1..]);
      assert a == [a[0]] + a[1..] && b == [b[0]] + b[1..];
    }
  }

  ghost predicate Printable(text: string) { forall i :: 0 <= i < |text| ==> 0x20 <= text[i] as int <= 0x7e }

  lemma WrittenPrintable(t: Token)
    requires GoodToken(t)
    ensures Printable(Written(t))
  {
    if t.Shift? {
      SegmentChars(t.units);
      hide EncodeModified;
    }
  }

  lemma {:induction false} AllPrintable(tokens: seq<Token>)
    requires Canonical(tokens)
    ensures Printable(WrittenAll(tokens))
  {
    if tokens != [] {
      CanonicalTail(tokens);
      AllPrintable(tokens[1..]);
      assert GoodToken(tokens[0]);
      hide Written;
      WrittenPrintable(tokens[0]);
    }
  }

  /** The encoding of every name is printable ASCII. */
  lemma EncodingIsPrintable(units: seq<CodeUnit>)
    ensures Printable(EncodeUnits(units))
  {
    hide EncodeUnits, Printable, WrittenAll, Meanings, Canonical;
    var tokens := EncodingIsCanonical(units);
    AllPrintable(tokens);
  }
}
