/** Quoted-printable: bytes that are not plain text become `=` and two hexadecimal digits. */
module QuotedPrintable {
  // The encoder never breaks lines; the decoder drops soft line breaks and passes everything that is
  // not a proper escape.

  import opened Basics
  import opened Text

  /** The bytes that stand for themselves: printable ones but `=`, blanks, tabs and line breaks. */
  predicate Plain(b: byte) {
    (33 <= b <= 60) || (62 <= b <= 126) || b == 32 || b == 9 || b == 13 || b == 10
  }

  function EncodeByte(b: byte): string {
    if Plain(b) then [CharOf(b)] else ['=', HexDigit(b / 16, 'A'), HexDigit(b % 16, 'A')]
  }

  function Encode(bytes: seq<byte>): string {
    if bytes == [] then [] else EncodeByte(bytes[0]) + Encode(bytes[1..])
  }

  /** How many characters the decoder takes at once. */
  function Step(text: string): (n: nat)
    requires text != []
    ensures 1 <= n <= |text|
  {
    if text[0] != '=' then 1
    else if |text| > 1 && text[1] == '\n' then 2
    else if |text| > 2 && text[1] == '\r' && text[2] == '\n' then 3
    else if |text| > 2 && HexValue(text[1]) >= 0 && HexValue(text[2]) >= 0 then 3
    else 1
  }

  /** What they stand for: nothing when they are a soft line break. */
  function Unit(text: string): seq<byte>
    requires text != []
  {
    if text[0] != '=' then [ByteOf(text[0])]
    else if |text| > 1 && text[1] == '\n' then []
    else if |text| > 2 && text[1] == '\r' && text[2] == '\n' then []
    else if |text| > 2 && HexValue(text[1]) >= 0 && HexValue(text[2]) >= 0 then
      [HexValue(text[1]) * 16 + HexValue(text[2])]
    else [ByteOf('=')]
  }

  function Decode(text: string): seq<byte>
    decreases |text|
  {
    if text == [] then [] else Unit(text) + Decode(text[Step(text)..])
  }

  lemma EncodeNext(bytes: seq<byte>, i: nat, out: string)
    requires i < |bytes|
    ensures out + EncodeByte(bytes[i]) + Encode(bytes[i + 1..]) == out + Encode(bytes[i..])
  {
    assert bytes[i..][1..] == bytes[i + 1..];
  }

  method EncodeQuotedPrintable(bytes: seq<byte>) returns (out: string)
    ensures out == Encode(bytes)
  {
    out := [];
    for i := 0 to |bytes|
      invariant out + Encode(bytes[i..]) == Encode(bytes)
    {
      hide Encode, HexDigit;
      EncodeNext(bytes, i, out);
      var b := bytes[i];
      var code: string;
      if (33 <= b <= 60) || (62 <= b <= 126) || b == 32 || b == 9 {
        code := [CharOf(b)];
      } else if b == 13 {
        code := ['\r'];
      } else if b == 10 {
        code := ['\n'];
      } else {
        code := ['=', HexDigit(b / 16, 'A'), HexDigit(b % 16, 'A')];
      }
      assert code == EncodeByte(b);
      out := out + code;
    }
  }

  lemma DecodeNext(text: string, i: nat, out: seq<byte>)
    requires i < |text|
    ensures i + Step(text[i..]) <= |text|
    ensures out + Unit(text[i..]) + Decode(text[i + Step(text[i..])..]) == out + Decode(text[i..])
  {
    hide Step, Unit;
    assert text[i..][Step(text[i..])..] == text[i + Step(text[i..])..];
  }

  method DecodeQuotedPrintable(text: string) returns (out: seq<byte>)
    ensures out == Decode(text)
  {
    hide Decode, HexValue;
    out := [];
    var i := 0;
    assert text[0..] == text;
    while i < |text|
      invariant 0 <= i <= |text|
      invariant out + Decode(text[i..]) == Decode(text)
    {
      DecodeNext(text, i, out);
      ghost var rest := text[i..];
      var n, unit: seq<byte> := 1, [];
      if text[i] != '=' {
        unit := [ByteOf(text[i])];
      } else if i + 1 < |text| && text[i + 1] == '\n' {
        n := 2;
      } else if i + 2 < |text| && text[i + 1] == '\r' && text[i + 2] == '\n' {
        n := 3;
      } else if i + 2 < |text| && HexValue(text[i + 1]) >= 0 && HexValue(text[i + 2]) >= 0 {
        unit := [HexValue(text[i + 1]) * 16 + HexValue(text[i + 2])];
        n := 3;
      } else {
        unit := [ByteOf(text[i])];
      }
      assert n == Step(rest) && unit == Unit(rest);
      out := out + unit;
      i := i + n;
    }
    DecodeNothing();
    assert text[|text|..] == [];
  }

  lemma DecodeNothing()
    ensures Decode([]) == []
  {
  }

  // ---------------------------------------------------------------------------------------
  // Properties

  lemma DecodeEncodedByte(b: byte, rest: string)
    ensures Decode(EncodeByte(b) + rest) == [b] + Decode(rest)
  {
    hide HexDigit, HexValue, Decode;
    var text := EncodeByte(b) + rest;
    assert text[|EncodeByte(b)|..] == rest;
    assert Step(text) == |EncodeByte(b)| && Unit(text) == [b] by {
      if Plain(b) {
        assert text[0] == CharOf(b) != '=';
      } else {
        assert HexValue(text[1]) == b / 16 && HexValue(text[2]) == b % 16;
        assert text[1] != '\n' && text[1] != '\r' by { NoLineEnd(); }
      }
    }
    DecodeOne(text);
  }

  lemma NoLineEnd()
    ensures HexValue('\n') == -1 && HexValue('\r') == -1
  {
  }

  lemma DecodeOne(text: string)
    requires text != []
    ensures Decode(text) == Unit(text) + Decode(text[Step(text)..])
  {
    hide Step, Unit;
  }

  /** Section 6.7 of RFC 2045: every byte sequence comes back. */
  lemma {:induction false} DecodeEncode(bytes: seq<byte>)
    ensures Decode(Encode(bytes)) == bytes
  {
    if bytes != [] {
      DecodeEncodedByte(bytes[0], Encode(bytes[1..]));
      DecodeEncode(bytes[1..]);
    }
  }

  /** Printable characters but the equals sign, blanks, tabs and line breaks stand for themselves, any
      other byte is written with two capital hexadecimal digits. */
  lemma EncodeOne(b: byte)
    ensures Encode([b]) ==
            if (32 <= b <= 126 && b != '=' as int) || b == 9 || b == 10 || b == 13 then [b as char]
            else ['=', UPPER_HEX[b / 16], UPPER_HEX[b % 16]]
  {
    hide HexDigit;
    HexTables(b / 16);
    HexTables(b % 16);
    assert [b][1..] == [];
  }

  lemma {:induction false} EncodeJoin(a: seq<byte>, b: seq<byte>)
    ensures Encode(a + b) == Encode(a) + Encode(b)
  {
    hide EncodeByte;
    if a == [] {
      assert a + b == b;
    } else {
      assert (a + b)[1..] == a[1..] + b;
      EncodeJoin(a[1..], b);
    }
  }

  /** What an encoder may print: a byte, as itself or as an escape, or a soft line break. */
  datatype Token = Letter(b: byte, code: string) | SoftBreak(code: string)

  predicate GoodToken(token: Token) {
    match token
    case Letter(b, code) =>
      || (b != '=' as int && code == [b as char])
      || (|code| == 3 && code[0] == '=' && IsHexOf(code[1], b / 16) && IsHexOf(code[2], b % 16))
    case SoftBreak(code) => code == ['=', '\n'] || code == ['=', '\r', '\n']
  }

  function Printed(tokens: seq<Token>): string {
    if tokens == [] then [] else tokens[0].code + Printed(tokens[1..])
  }

  function Meant(tokens: seq<Token>): seq<byte> {
    if tokens == [] then [] else (if tokens[0].Letter? then [tokens[0].b] else []) + Meant(tokens[1..])
  }

  lemma EscapeUnit(high: char, low: char, b: byte, rest: string)
    requires IsHexOf(high, b / 16) && IsHexOf(low, b % 16)
    ensures Step(['=', high, low] + rest) == 3 && Unit(['=', high, low] + rest) == [b]
  {
    HexOfIs(high, b / 16);
    HexOfIs(low, b % 16);
    NoLineEnd();
    hide HexValue, IsHexOf;
  }

  lemma DecodeToken(token: Token, rest: string)
    requires GoodToken(token)
    ensures Decode(token.code + rest) == (if token.Letter? then [token.b] else []) + Decode(rest)
  {
    hide HexValue, Decode, IsHexOf, LOWER_HEX, UPPER_HEX;
    var text := token.code + rest;
    assert text[|token.code|..] == rest;
    if token.Letter? && token.code != [token.b as char] {
      assert token.code == ['=', token.code[1], token.code[2]];
      EscapeUnit(token.code[1], token.code[2], token.b, rest);
    } else {
      assert token.SoftBreak? ==> text[1] == token.code[1];
      assert |token.code| > 2 ==> text[2] == token.code[2];
      assert Step(text) == |token.code|;
    }
    hide Step, Unit;
    DecodeOne(text);
  }

  /** Whatever an encoder escapes, in whichever case, and wherever it breaks lines, the bytes come back
      (section 6.7 of RFC 2045). */
  lemma {:induction false} DecodeLoose(tokens: seq<Token>)
    requires forall i :: 0 <= i < |tokens| ==> GoodToken(tokens[i])
    ensures Decode(Printed(tokens)) == Meant(tokens)
  {
    hide GoodToken, Decode;
    if tokens == [] {
      DecodeNothing();
    } else {
      DecodeToken(tokens[0], Printed(tokens[1..]));
      DecodeLoose(tokens[1..]);
    }
  }

  /** An equals sign that begins neither an escape nor a soft line break is passed on. */
  lemma LoneEquals(rest: string)
    requires rest != [] ==> rest[0] != '\n' && !(|rest| > 1 && rest[0] == '\r' && rest[1] == '\n')
    requires |rest| > 1 ==> !((rest[0] in LOWER_HEX || rest[0] in UPPER_HEX) && (rest[1] in LOWER_HEX || rest[1] in UPPER_HEX))
    ensures Decode(['='] + rest) == ['=' as int] + Decode(rest)
  {
    hide HexValue, Decode, LOWER_HEX, UPPER_HEX;
    if |rest| > 1 {
      HexDigits(rest[0]);
      HexDigits(rest[1]);
    }
    LoneUnit(rest);
    hide Step, Unit;
    DecodeOne(['='] + rest);
    assert (['='] + rest)[1..] == rest;
  }

  lemma LoneUnit(rest: string)
    requires rest != [] ==> rest[0] != '\n' && !(|rest| > 1 && rest[0] == '\r' && rest[1] == '\n')
    requires |rest| > 1 ==> HexValue(rest[0]) < 0 || HexValue(rest[1]) < 0
    ensures Step(['='] + rest) == 1 && Unit(['='] + rest) == ['=' as int]
  {
    hide HexValue;
  }

  /** Text without `=` is left as it is. */
  lemma {:induction false} DecodePlain(text: string)
    requires '=' !in text
    ensures Decode(text) == BytesOf(text)
  {
    if text != [] {
      DecodePlain(text[1..]);
    }
  }

  /** Text in place of bytes, for the metadata that is decoded a second time. */
  function DecodeText(text: string): string { TextOf(Decode(text)) }

  /** A pattern of plain characters that begins with a line break is in the encoding only where
      it is in the bytes. */
  lemma {:induction false} EncodedMatch(bytes: seq<byte>, pat: string, i: nat)
    requires MatchAt(Encode(bytes), pat, i) && pat != [] && pat[0] == '\r' && '=' !in pat
    ensures exists j: nat :: MatchAt(TextOf(bytes), pat, j)
  {
    if i == 0 {
      EncodedPrefix(bytes, pat);
      assert MatchAt(TextOf(bytes), pat, 0);
    } else {
      var n := |EncodeByte(bytes[0])|;
      MatchInRest(bytes, pat, i);
      EncodedMatch(bytes[1..], pat, i - n);
      var j: nat :| MatchAt(TextOf(bytes[1..]), pat, j);
      MatchShifts(bytes, pat, j);
    }
  }

  lemma MatchShifts(bytes: seq<byte>, pat: string, j: nat)
    requires bytes != [] && MatchAt(TextOf(bytes[1..]), pat, j)
    ensures MatchAt(TextOf(bytes), pat, j + 1)
  {
    var text := TextOf(bytes);
    assert text[1..] == TextOf(bytes[1..]);
    assert text[j + 1..j + 1 + |pat|] == text[1..][j..j + |pat|];
  }

  lemma NoReturnInside(b: byte)
    ensures EncodeByte(b) != [] && forall k :: 0 < k < |EncodeByte(b)| ==> EncodeByte(b)[k] != '\r'
  {
    NoLineEnd();
    hide HexValue;
  }

  /** No escape contains a carriage return, so a later match is in what follows the first byte. */
  lemma MatchInRest(bytes: seq<byte>, pat: string, i: nat)
    requires MatchAt(Encode(bytes), pat, i) && pat != [] && pat[0] == '\r' && i > 0
    ensures bytes != [] && |EncodeByte(bytes[0])| <= i && MatchAt(Encode(bytes[1..]), pat, i - |EncodeByte(bytes[0])|)
  {
    assert bytes != [];
    NoReturnInside(bytes[0]);
    assert Encode(bytes) == EncodeByte(bytes[0]) + Encode(bytes[1..]);
    hide EncodeByte, Encode, MatchAt;
    MatchAfter(EncodeByte(bytes[0]), Encode(bytes[1..]), pat, i);
  }

  lemma MatchAfter(head: string, rest: string, pat: string, i: nat)
    requires MatchAt(head + rest, pat, i) && pat != [] && pat[0] == '\r' && i > 0
    requires forall k :: 0 < k < |head| ==> head[k] != '\r'
    ensures |head| <= i && MatchAt(rest, pat, i - |head|)
  {
    var all := head + rest;
    assert all[i..i + |pat|][0] == all[i];
    assert all[i..i + |pat|] == rest[i - |head|..i - |head| + |pat|];
  }

  lemma {:induction false} EncodedPrefix(bytes: seq<byte>, pat: string)
    requires pat <= Encode(bytes) && '=' !in pat
    ensures pat <= TextOf(bytes)
  {
    if pat != [] {
      assert pat[0] == Encode(bytes)[0] != '=';
      assert pat[1..] <= Encode(bytes[1..]);
      EncodedPrefix(bytes[1..], pat[1..]);
      assert TextOf(bytes)[1..] == TextOf(bytes[1..]);
      assert pat == [pat[0]] + pat[1..];
    }
  }

  // ---------------------------------------------------------------------------------------
  // Decoding text that was never encoded

  /** An `=` and two hexadecimal digits. */
  predicate EscapeAt(s: string, i: nat) {
    i + 2 < |s| && s[i] == '=' && HexValue(s[i + 1]) >= 0 && HexValue(s[i + 2]) >= 0
  }

  predicate HasEscape(s: string) { exists i: nat :: i < |s| && EscapeAt(s, i) }

  /** With a line end after it, the last `=` becomes a soft line break. */
  predicate EndsSoft(line: string) { line != [] && line[|line| - 1] == '=' }

  /** A line that decoding leaves alone, wherever it stands in a text. */
  predicate Harmless(line: string) { !HasEscape(line) && !EndsSoft(line) }

  lemma NoEqualsHarmless(s: string)
    requires '=' !in s
    ensures Harmless(s)
  {
    forall i: nat | i < |s|
      ensures !EscapeAt(s, i)
    {
      assert s[i] in s;
    }
  }

  lemma {:induction false} DecodeNoLonger(text: string)
    ensures |Decode(text)| <= |text|
    decreases |text|
  {
    if text != [] {
      DecodeNoLonger(text[Step(text)..]);
    }
  }

  /** An escape is taken as one: nothing before it can begin one that covers it. */
  lemma {:induction false} DecodeShortens(text: string, i: nat)
    requires EscapeAt(text, i)
    ensures |Decode(text)| < |text|
    decreases |text|
  {
    var rest := text[Step(text)..];
    if i == 0 {
      assert HexValue(text[1]) >= 0 && HexValue('\n') == HexValue('\r') == -1;
      DecodeNoLonger(rest);
    } else {
      assert Step(text) <= i by { EscapeNotInside(text, i); }
      assert EscapeAt(rest, i - Step(text));
      DecodeShortens(rest, i - Step(text));
    }
  }

  lemma EscapeNotInside(text: string, i: nat)
    requires 0 < i < |text| && text[i] == '='
    ensures Step(text) <= i
  {
    assert HexValue('=') == -1;
  }

  lemma DecodeNotEmpty(line: string)
    requires line != [] && OneLine(line)
    ensures Decode(line) != []
  {
    hide Decode;
    DecodeOne(line);
    if |line| > 1 { assert line[1] in line; }
  }

  lemma {:induction false} DecodeAfter(before: string, text: string)
    requires '=' !in before
    ensures Decode(before + text) == BytesOf(before) + Decode(text)
  {
    if before == [] {
      assert before + text == text && BytesOf(before) == [];
    } else {
      var all := before + text;
      assert all[0] == before[0] != '=' && all[1..] == before[1..] + text;
      DecodeAfter(before[1..], text);
      assert Decode(all) == [ByteOf(before[0])] + Decode(all[1..]);
      assert BytesOf(before) == [ByteOf(before[0])] + BytesOf(before[1..]);
    }
  }

  lemma DecodeBreak(rest: string)
    ensures Decode(['\r', '\n'] + rest) == [13, 10] + Decode(rest)
  {
    hide Decode;
    DecodeAfter(['\r', '\n'], rest);
    assert BytesOf(['\r', '\n']) == [13, 10];
  }

  /** Decoding goes line by line where no soft line break joins two. */
  lemma {:induction false} DecodeLine(line: string, rest: string)
    requires OneLine(line) && !EndsSoft(line)
    ensures Decode(line + ['\r', '\n'] + rest) == Decode(line) + [13, 10] + Decode(rest)
    decreases |line|
  {
    hide Decode, Unit, Step;
    var text := line + ['\r', '\n'] + rest;
    if line == [] {
      assert text == ['\r', '\n'] + rest;
      DecodeBreak(rest);
      DecodeNothing();
      assert Decode(line) + [13, 10] == [13, 10];
    } else {
      var n := Step(line);
      SameStep(line, rest);
      var next := line[n..];
      assert text[n..] == next + ['\r', '\n'] + rest;
      assert OneLine(next) && !EndsSoft(next);
      hide OneLine, EndsSoft;
      DecodeLine(next, rest);
      DecodeOne(text);
      DecodeOne(line);
    }
  }

  lemma SameStep(line: string, rest: string)
    requires line != [] && OneLine(line) && !EndsSoft(line)
    ensures var text := line + ['\r', '\n'] + rest; Step(text) == Step(line) && Unit(text) == Unit(line)
  {
    var text := line + ['\r', '\n'] + rest;
    NoLineEnd();
    assert text[0] == line[0];
    if |line| > 1 { assert text[1] == line[1] && line[1] in line; }
    if |line| == 2 { assert text[2] == '\r'; }
    if |line| > 2 { assert text[2] == line[2]; }
  }

  lemma {:induction false} DecodeUnescaped(line: string)
    requires OneLine(line) && !HasEscape(line)
    ensures Decode(line) == BytesOf(line)
  {
    if line != [] {
      var rest := line[1..];
      if |line| > 1 { assert line[1] in line; }
      assert !EscapeAt(line, 0);
      forall i: nat | i < |rest|
        ensures !EscapeAt(rest, i)
      {
        assert !EscapeAt(line, i + 1);
      }
      DecodeUnescaped(rest);
      DecodeOne(line);
    }
  }

  /** How many `=` there are. */
  function Equals(s: string): nat {
    if s == [] then 0 else (if s[0] == '=' then 1 else 0) + Equals(s[1..])
  }

  lemma {:induction false} EqualsConcat(a: string, b: string)
    ensures Equals(a + b) == Equals(a) + Equals(b)
  {
    if a == [] {
      assert a + b == b;
    } else {
      assert (a + b)[1..] == a[1..] + b;
      EqualsConcat(a[1..], b);
    }
  }

  lemma EqualsSlice(s: string, i: nat, j: nat)
    requires i <= j <= |s|
    ensures Equals(s[i..j]) <= Equals(s)
  {
    assert s == s[..i] + s[i..j] + s[j..];
    EqualsConcat(s[..i] + s[i..j], s[j..]);
    EqualsConcat(s[..i], s[i..j]);
  }

  lemma {:induction false} NoEquals(s: string)
    requires '=' !in s
    ensures Equals(s) == 0
  {
    if s != [] {
      assert s[0] in s;
      NoEquals(s[1..]);
    }
  }

  /** What stands for itself or for one byte has no more `=` than what it is read from. */
  lemma UnitEquals(text: string)
    requires text != [] && IsBytes(text)
    ensures Equals(TextOf(Unit(text))) <= Equals(text[..Step(text)])
  {
    var head, unit := text[..Step(text)], TextOf(Unit(text));
    assert head[0] == text[0];
    if unit != [] { assert unit[1..] == []; }
    if text[0] != '=' { assert unit[0] as int == text[0] as int % 256; }
  }

  ghost predicate SoftAt(text: string, i: nat) {
    i + 2 < |text| && text[i] == '=' && text[i + 1] == '\r' && text[i + 2] == '\n'
  }

  /** Decoding makes no `=`, and a soft line break takes one away. */
  lemma {:induction false} DecodeEquals(text: string)
    requires IsBytes(text)
    ensures Equals(DecodeText(text)) <= Equals(text)
    decreases |text|
  {
    if text != [] {
      SplitEquals(text);
      DecodeEquals(text[Step(text)..]);
      UnitEquals(text);
    }
  }

  lemma SplitEquals(text: string)
    requires text != []
    ensures Equals(text) == Equals(text[..Step(text)]) + Equals(text[Step(text)..])
    ensures Equals(DecodeText(text)) == Equals(TextOf(Unit(text))) + Equals(DecodeText(text[Step(text)..]))
  {
    var n := Step(text);
    assert text == text[..n] + text[n..];
    EqualsConcat(text[..n], text[n..]);
    assert DecodeText(text) == TextOf(Unit(text)) + DecodeText(text[n..]);
    EqualsConcat(TextOf(Unit(text)), DecodeText(text[n..]));
  }

  lemma {:induction false} SoftBreakEquals(text: string, i: nat)
    requires IsBytes(text) && SoftAt(text, i)
    ensures Equals(DecodeText(text)) < Equals(text)
    decreases |text|
  {
    var n := Step(text);
    SplitEquals(text);
    if i == 0 {
      DecodeEquals(text[n..]);
      assert text[..n][0] == '=';
    } else {
      EscapeNotInside(text, i);
      assert SoftAt(text[n..], i - n);
      SoftBreakEquals(text[n..], i - n);
      UnitEquals(text);
    }
  }
}
