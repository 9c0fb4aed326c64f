/** Byte strings: decimal numbers, searching, trimming and splitting. A `char` stands for one byte.

    The program keeps bytes in `std::string`, so a text here is a sequence of characters below 256
    wherever bytes are meant; conversions to and from `seq<byte>` are explicit. Searching returns
    the first match at or after an index, as `std::string::find` does. */
module Text {
  import opened Basics

  // ---------------------------------------------------------------------------------------
  // Bytes

  function ByteOf(c: char): byte { c as int % 256 }

  function CharOf(b: byte): char { b as char }

  function BytesOf(text: string): (bytes: seq<byte>)
    ensures |bytes| == |text|
  {
    seq(|text|, i requires 0 <= i < |text| => ByteOf(text[i]))
  }

  function TextOf(bytes: seq<byte>): (text: string)
    ensures |text| == |bytes|
  {
    seq(|bytes|, i requires 0 <= i < |bytes| => CharOf(bytes[i]))
  }

  /** A text whose characters are bytes, as every `std::string` is. */
  ghost predicate IsBytes(text: string) { forall i :: 0 <= i < |text| ==> text[i] as int < 256 }

  lemma TextOfBytes(text: string)
    requires IsBytes(text)
    ensures TextOf(BytesOf(text)) == text
  {
  }

  lemma BytesOfText(bytes: seq<byte>)
    ensures BytesOf(TextOf(bytes)) == bytes && IsBytes(TextOf(bytes))
  {
  }

  /** The value of a hexadecimal digit of either case, or -1. */
  function HexValue(c: char): (v: int)
    ensures -1 <= v < 16
  {
    if '0' <= c <= '9' then c as int - '0' as int
    else if 'A' <= c <= 'F' then c as int - 'A' as int + 10
    else if 'a' <= c <= 'f' then c as int - 'a' as int + 10
    else -1
  }

  /** A hexadecimal digit; `ten` is the letter for ten. */
  function HexDigit(d: nat, ten: char): (c: char)
    requires d < 16 && (ten == 'A' || ten == 'a')
    ensures HexValue(c) == d
  {
    if d < 10 then (d + '0' as int) as char else (d - 10 + ten as int) as char
  }

  const LOWER_HEX: string := "0123456789abcdef"
  const UPPER_HEX: string := "0123456789ABCDEF"

  /** The digit in either case. */
  predicate IsHexOf(c: char, d: nat)
    requires d < 16
  {
    c == UPPER_HEX[d] || c == LOWER_HEX[d]
  }

  lemma HexTables(d: nat)
    requires d < 16
    ensures HexValue(LOWER_HEX[d]) == HexValue(UPPER_HEX[d]) == d
    ensures HexDigit(d, 'a') == LOWER_HEX[d] && HexDigit(d, 'A') == UPPER_HEX[d]
  {
  }

  lemma HexOfIs(c: char, d: nat)
    requires d < 16 && IsHexOf(c, d)
    ensures HexValue(c) == d
  {
    HexTables(d);
  }

  /** The digits are those of either case, and no other character is one. */
  lemma HexDigits(c: char)
    ensures HexValue(c) >= 0 <==> c in LOWER_HEX || c in UPPER_HEX
  {
    if c in LOWER_HEX {
      var d :| 0 <= d < 16 && LOWER_HEX[d] == c;
      HexTables(d);
    }
    if c in UPPER_HEX {
      var d :| 0 <= d < 16 && UPPER_HEX[d] == c;
      HexTables(d);
    }
    if HexValue(c) >= 0 {
      HexTables(HexValue(c));
      assert LOWER_HEX[HexValue(c)] in LOWER_HEX && UPPER_HEX[HexValue(c)] in UPPER_HEX;
    }
  }

  // ---------------------------------------------------------------------------------------
  // Decimal numbers

  predicate IsDigit(c: char) { '0' <= c <= '9' }

  ghost predicate AllDigits(s: string) { forall i :: 0 <= i < |s| ==> IsDigit(s[i]) }

  function Digit(d: nat): (c: char)
    requires d < 10
    ensures IsDigit(c) && c as int - '0' as int == d
  {
    ((d + '0' as int) as char)
  }

  /** The number as `std::to_string` and the stream operators print it. */
  function Decimal(n: nat): (s: string)
    ensures s != [] && AllDigits(s)
  {
    if n < 10 then [Digit(n)] else Decimal(n / 10) + [Digit(n % 10)]
  }

  /** The digits stand in the order in which they are written. */
  lemma DecimalExample()
    ensures Decimal(1203) == "1203"
  {
    assert Decimal(1) == "1" && Decimal(12) == "12" && Decimal(120) == "120";
  }

  /** A number that may be negative. */
  function IntText(n: int): string { if n < 0 then ['-'] + Decimal(-n) else Decimal(n) }

  lemma DigitsExclude(s: string, c: char)
    requires AllDigits(s) && !IsDigit(c)
    ensures c !in s
  {
  }

  /** The value of a string of digits. */
  function DigitsValue(s: string): nat
    requires AllDigits(s)
  {
    if s == [] then 0
    else DigitsValue(s[..|s| - 1]) * 10 + (s[|s| - 1] as int - '0' as int)
  }

  lemma {:induction false} DecimalValue(n: nat)
    ensures DigitsValue(Decimal(n)) == n
  {
    if n >= 10 {
      DecimalValue(n / 10);
      assert Decimal(n)[..|Decimal(n)| - 1] == Decimal(n / 10);
    }
  }

  lemma DecimalInjective(m: nat, n: nat)
    requires Decimal(m) == Decimal(n)
    ensures m == n
  {
    DecimalValue(m);
    DecimalValue(n);
  }

  /** `std::stoull` in base ten: blanks, a sign, digits, and anything after them ignored. A value
      that does not fit 64 bits, or no digit at all, raises; a minus sign wraps around. */
  function ParseUnsigned(text: string): (r: Option<nat>)
    ensures r.Some? ==> r.value < TWO_64
  {
    var body := TrimLeft(text, SPACE);
    var signed := body != [] && (body[0] == '+' || body[0] == '-');
    var digits := DigitPrefix(if signed then body[1..] else body);
    if digits == [] || DigitsValue(digits) >= TWO_64 then None
    else if signed && body[0] == '-' then Some((TWO_64 - DigitsValue(digits)) % TWO_64)
    else Some(DigitsValue(digits))
  }

  const TWO_64: nat := 0x1_0000_0000_0000_0000

  function DigitPrefix(s: string): (d: string)
    ensures AllDigits(d) && d <= s
  {
    if s == [] || !IsDigit(s[0]) then [] else [s[0]] + DigitPrefix(s[1..])
  }

  lemma {:induction false} DigitPrefixAll(s: string)
    requires AllDigits(s)
    ensures DigitPrefix(s) == s
  {
    if s != [] {
      DigitPrefixAll(s[1..]);
    }
  }

  /** Reading back a printed number that fits 64 bits. */
  lemma ParseUnsignedDecimal(n: nat)
    requires n < TWO_64
    ensures ParseUnsigned(Decimal(n)) == Some(n)
  {
    ParseUnsignedDigits(Decimal(n));
    DecimalValue(n);
  }

  /** And one that does not. */
  lemma ParseUnsignedLarge(n: nat)
    requires n >= TWO_64
    ensures ParseUnsigned(Decimal(n)) == None
  {
    ParseUnsignedDigits(Decimal(n));
    DecimalValue(n);
  }

  lemma ParseUnsignedDigits(s: string)
    requires AllDigits(s)
    ensures ParseUnsigned(s) == if s == [] || DigitsValue(s) >= TWO_64 then None else Some(DigitsValue(s))
  {
    if s != [] {
      assert IsDigit(s[0]) && s[0] !in SPACE;
      assert TrimLeft(s, SPACE) == s;
      DigitPrefixAll(s);
    }
  }

  lemma {:induction false} DigitPrefixOf(digits: string, rest: string)
    requires AllDigits(digits) && (rest == [] || !IsDigit(rest[0]))
    ensures DigitPrefix(digits + rest) == digits
  {
    if digits == [] {
      assert digits + rest == rest;
    } else {
      assert (digits + rest)[1..] == digits[1..] + rest;
      DigitPrefixOf(digits[1..], rest);
    }
  }

  /** The start of a number: what stands before its digits is blanks and at most a sign. */
  ghost predicate NumberText(space: string, sign: string, digits: string, rest: string) {
    && (forall i :: 0 <= i < |space| ==> space[i] in SPACE)
    && (sign == [] || sign == ['+'] || sign == ['-'])
    && AllDigits(digits) && (rest == [] || !IsDigit(rest[0]))
    && (sign == [] && digits == [] && rest != [] ==> rest[0] !in SPACE && rest[0] != '+' && rest[0] != '-')
  }

  /** The text, its blanks dropped, is a sign and what the digits are taken from. */
  ghost predicate StartsNumber(text: string, sign: string, digits: string) {
    var body := TrimLeft(text, SPACE);
    && (sign != [] ==> body != [] && body[0] == sign[0] && DigitPrefix(body[1..]) == digits)
    && (sign == [] ==> (body != [] ==> body[0] != '+' && body[0] != '-') && DigitPrefix(body) == digits)
  }

  lemma NumberBegins(sign: string, digits: string, rest: string)
    requires NumberText([], sign, digits, rest)
    ensures var body := sign + digits + rest;
            body != [] ==> body[0] !in SPACE && (sign == [] ==> body[0] != '+' && body[0] != '-')
  {
    var body := sign + digits + rest;
    if sign != [] {
      assert body[0] == sign[0];
    } else if digits != [] {
      assert body[0] == digits[0] && IsDigit(digits[0]);
    } else {
      assert body == rest;
    }
  }

  lemma NumberDigits(sign: string, digits: string, rest: string)
    requires NumberText([], sign, digits, rest)
    ensures var body := sign + digits + rest;
            && (sign != [] ==> body != [] && body[0] == sign[0] && DigitPrefix(body[1..]) == digits)
            && (sign == [] ==> DigitPrefix(body) == digits)
  {
    hide DigitPrefix, IsDigit, SPACE;
    var body := sign + digits + rest;
    DigitPrefixOf(digits, rest);
    if sign == [] { assert body == digits + rest; } else { assert body[1..] == digits + rest; }
  }

  lemma NumberStarts(space: string, sign: string, digits: string, rest: string)
    requires NumberText(space, sign, digits, rest)
    ensures StartsNumber(space + (sign + digits + rest), sign, digits)
  {
    assert forall i :: 0 <= i < |space| ==> space[i] in SPACE;
    assert NumberText([], sign, digits, rest);
    hide *;
    var body := sign + digits + rest;
    NumberBegins(sign, digits, rest);
    NumberDigits(sign, digits, rest);
    LeftTrimmed(space, body, SPACE);
    StartsFromBody(space + body, body, sign, digits);
  }

  lemma StartsFromBody(text: string, body: string, sign: string, digits: string)
    requires TrimLeft(text, SPACE) == body
    requires sign != [] ==> body != [] && body[0] == sign[0] && DigitPrefix(body[1..]) == digits
    requires sign == [] ==> (body != [] ==> body[0] != '+' && body[0] != '-') && DigitPrefix(body) == digits
    ensures StartsNumber(text, sign, digits)
  {
    hide TrimLeft, DigitPrefix, SPACE;
  }

  lemma UnsignedOf(text: string, sign: string, digits: string)
    requires StartsNumber(text, sign, digits) && (sign == [] || sign == ['+'] || sign == ['-']) && AllDigits(digits)
    ensures ParseUnsigned(text) ==
            if digits == [] || DigitsValue(digits) >= 18446744073709551616 then None
            else if sign == ['-'] && DigitsValue(digits) > 0 then Some(18446744073709551616 - DigitsValue(digits))
            else Some(DigitsValue(digits))
  {
    hide TrimLeft, DigitPrefix, DigitsValue, SPACE, AllDigits;
    assert sign == ['-'] <==> sign != [] && sign[0] == '-';
  }

  /** Blanks are skipped, a sign is taken, what follows the digits is ignored; without digits, or with a
      value of 2^64 or more, reading raises, and a minus sign wraps around. */
  lemma ReadsUnsigned(space: string, sign: string, digits: string, rest: string)
    requires NumberText(space, sign, digits, rest)
    ensures ParseUnsigned(space + (sign + digits + rest)) ==
            if digits == [] || DigitsValue(digits) >= 18446744073709551616 then None
            else if sign == ['-'] && DigitsValue(digits) > 0 then Some(18446744073709551616 - DigitsValue(digits))
            else Some(DigitsValue(digits))
  {
    NumberStarts(space, sign, digits, rest);
    hide ParseUnsigned, StartsNumber, DigitsValue, SPACE, AllDigits;
    UnsignedOf(space + (sign + digits + rest), sign, digits);
  }

  // ---------------------------------------------------------------------------------------
  // Trimming

  /** What `std::isspace` accepts. */
  const SPACE: set<char> := {' ', '\t', '\n', '\r', '\U{0B}', '\U{0C}'}

  function TrimLeft(s: string, blanks: set<char>): (r: string)
    ensures |r| <= |s|
    ensures s != [] && s[0] !in blanks ==> r == s
    ensures r != [] ==> r[0] !in blanks && r == s[|s| - |r|..]
  {
    if s != [] && s[0] in blanks then TrimLeft(s[1..], blanks) else s
  }

  lemma {:induction false} LeftTrimmed(space: string, v: string, blanks: set<char>)
    requires (forall i :: 0 <= i < |space| ==> space[i] in blanks) && (v != [] ==> v[0] !in blanks)
    ensures TrimLeft(space + v, blanks) == v
  {
    if space == [] {
      assert space + v == v;
    } else {
      assert (space + v)[1..] == space[1..] + v;
      LeftTrimmed(space[1..], v, blanks);
    }
  }

  function TrimRight(s: string, blanks: set<char>): (r: string)
    ensures r <= s
    ensures s != [] && s[|s| - 1] !in blanks ==> r == s
    ensures r != [] ==> r[|r| - 1] !in blanks
  {
    if s != [] && s[|s| - 1] in blanks then TrimRight(s[..|s| - 1], blanks) else s
  }

  function Trim(s: string, blanks: set<char>): string {
    TrimLeft(TrimRight(s, blanks), blanks)
  }

  lemma {:induction false} TrimRightAfter(before: string, e: string, blanks: set<char>)
    requires before != [] && before[|before| - 1] !in blanks
    ensures TrimRight(before + e, blanks) == before + TrimRight(e, blanks)
    decreases |e|
  {
    if e == [] {
      assert before + e == before;
    } else {
      var s := before + e;
      assert s[|s| - 1] == e[|e| - 1];
      if e[|e| - 1] in blanks {
        assert s[..|s| - 1] == before + e[..|e| - 1];
        TrimRightAfter(before, e[..|e| - 1], blanks);
      }
    }
  }

  lemma {:induction false} AllTrimmed(s: string, blanks: set<char>)
    requires forall i :: 0 <= i < |s| ==> s[i] in blanks
    ensures TrimRight(s, blanks) == []
  {
    if s != [] {
      AllTrimmed(s[..|s| - 1], blanks);
    }
  }

  ghost predicate Trimmed(s: string, blanks: set<char>) {
    s != [] ==> s[0] !in blanks && s[|s| - 1] !in blanks
  }

  lemma TrimTrimmed(s: string, blanks: set<char>)
    requires Trimmed(s, blanks)
    ensures Trim(s, blanks) == s
  {
  }

  // ---------------------------------------------------------------------------------------
  // Lines

  predicate OneLine(s: string) { '\r' !in s && '\n' !in s }

  /** What `std::getline` reads. */
  function TakeLine(text: string): string {
    var end := Find(text, ['\n'], 0);
    if end.None? then text else text[..end.value]
  }

  /** And what it leaves. */
  function DropLine(text: string): (rest: string)
    ensures text != [] ==> |rest| < |text|
  {
    var end := Find(text, ['\n'], 0);
    if end.None? then [] else text[end.value + 1..]
  }

  lemma NextLine(line: string, rest: string)
    requires '\n' !in line
    ensures TakeLine(line + ['\n'] + rest) == line && DropLine(line + ['\n'] + rest) == rest
  {
    var text := line + ['\n'] + rest;
    FindChar(line, '\n', rest);
    assert text[..|line|] == line && text[|line| + 1..] == rest;
  }

  lemma LastLine(line: string)
    requires '\n' !in line
    ensures TakeLine(line) == line && DropLine(line) == []
  {
    FindNoChar(line, '\n');
  }

  // ---------------------------------------------------------------------------------------
  // Searching

  predicate MatchAt(s: string, pat: string, i: nat) {
    i + |pat| <= |s| && s[i..i + |pat|] == pat
  }

  /** `std::string::find`: the first occurrence at or after `from`. */
  function Find(s: string, pat: string, from: nat): (r: Option<nat>)
    ensures r.Some? ==> from <= r.value && MatchAt(s, pat, r.value)
    ensures forall i :: from <= i < (if r.Some? then r.value else |s| + 1) ==> !MatchAt(s, pat, i)
    decreases |s| - from
  {
    if from + |pat| > |s| then None
    else if MatchAt(s, pat, from) then Some(from)
    else Find(s, pat, from + 1)
  }

  lemma FindFirst(s: string, pat: string, from: nat, at: nat)
    requires from <= at && MatchAt(s, pat, at)
    requires forall i :: from <= i < at ==> !MatchAt(s, pat, i)
    ensures Find(s, pat, from) == Some(at)
  {
  }

  /** Searching from a position is searching what follows it. */
  lemma {:induction false} FindFrom(s: string, pat: string, from: nat)
    requires from <= |s|
    ensures var here, there := Find(s, pat, from), Find(s[from..], pat, 0);
            if there.None? then here.None? else here == Some(from + there.value)
  {
    var rest := s[from..];
    forall i: nat
      ensures MatchAt(rest, pat, i) <==> MatchAt(s, pat, from + i)
    {
      if i + |pat| <= |rest| {
        assert rest[i..i + |pat|] == s[from + i..from + i + |pat|];
      }
    }
    var there := Find(rest, pat, 0);
    if there.Some? {
      forall j | from <= j < from + there.value
        ensures !MatchAt(s, pat, j)
      {
        assert !MatchAt(rest, pat, j - from);
      }
      FindFirst(s, pat, from, from + there.value);
    } else {
      forall j | from <= j <= |s|
        ensures !MatchAt(s, pat, j)
      {
        assert !MatchAt(rest, pat, j - from);
      }
    }
  }

  lemma FindChar(before: string, c: char, after: string)
    requires c !in before
    ensures Find(before + [c] + after, [c], 0) == Some(|before|)
  {
    var s := before + [c] + after;
    forall i | 0 <= i < |before|
      ensures !MatchAt(s, [c], i)
    {
      assert s[i] == before[i];
      assert s[i..i + 1] == [s[i]];
    }
    assert s[|before|..|before| + 1] == [c];
    FindFirst(s, [c], 0, |before|);
  }

  lemma FindNoChar(s: string, c: char)
    requires c !in s
    ensures Find(s, [c], 0) == None
  {
    forall i | 0 <= i < |s|
      ensures !MatchAt(s, [c], i)
    {
      assert s[i..i + 1] == [s[i]];
    }
  }

  predicate StartsWith(s: string, prefix: string) { MatchAt(s, prefix, 0) }
}
