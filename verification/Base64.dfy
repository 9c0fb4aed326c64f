/** Base64 as the mail parts, the playlist URLs and the download server use it: one encoder, and
    decoders that differ in the alphabet, in where padding may stand and in what they skip. */
module Base64 {
  import opened Basics
  import opened Radix

  /** The last two of the 64 digits; the others are letters and decimal digits. */
  datatype Alphabet = Alphabet(plus: char, slash: char)

  const STANDARD: Alphabet := Alphabet('+', '/')
  const URL_SAFE: Alphabet := Alphabet('-', '_')
  const MODIFIED: Alphabet := Alphabet('+', ',')

  ghost predicate Usable(a: Alphabet) { a == STANDARD || a == URL_SAFE || a == MODIFIED }

  const PAD: char := '='

  function DigitChar(d: nat, a: Alphabet): char
    requires d < 64
  {
    if d < 26 then (d + 'A' as int) as char
    else if d < 52 then (d - 26 + 'a' as int) as char
    else if d < 62 then (d - 52 + '0' as int) as char
    else if d == 62 then a.plus
    else a.slash
  }

  /** The value of a digit, or -1. */
  function DigitValue(c: char, a: Alphabet): (v: int)
    ensures -1 <= v < 64
  {
    if 'A' <= c <= 'Z' then c as int - 'A' as int
    else if 'a' <= c <= 'z' then c as int - 'a' as int + 26
    else if '0' <= c <= '9' then c as int - '0' as int + 52
    else if c == a.plus then 62
    else if c == a.slash then 63
    else -1
  }

  lemma DigitRoundTrip(d: nat, a: Alphabet)
    requires d < 64 && Usable(a)
    ensures DigitValue(DigitChar(d, a), a) == d && DigitChar(d, a) != PAD
  {
  }

  lemma CharRoundTrip(c: char, a: Alphabet)
    requires DigitValue(c, a) >= 0 && Usable(a)
    ensures DigitChar(DigitValue(c, a), a) == c
  {
  }

  const CAPITALS: string := "ABCDEFGHIJKLMNOPQRSTUVWXYZ"
  const SMALL_LETTERS: string := "abcdefghijklmnopqrstuvwxyz"
  const DECIMALS: string := "0123456789"

  /** The digits of an alphabet, written out. */
  function DigitsOf(a: Alphabet): (digits: string)
    ensures |digits| == 64
  {
    CAPITALS + SMALL_LETTERS + DECIMALS + FinalDigits(a)
  }

  function FinalDigits(a: Alphabet): string { if a == STANDARD then "+/" else if a == URL_SAFE then "-_" else "+," }

  lemma LetterTable(d: nat)
    requires d < 26
    ensures CAPITALS[d] as int == 65 + d && SMALL_LETTERS[d] as int == 97 + d
  {
  }

  lemma DecimalTable(d: nat)
    requires d < 10
    ensures DECIMALS[d] as int == 48 + d
  {
  }

  /** The digit of each value is the one that stands at its place. */
  lemma DigitTable(d: nat, a: Alphabet)
    requires d < 64 && Usable(a)
    ensures DigitChar(d, a) == DigitsOf(a)[d]
  {
    FinalTable(a);
    DigitParts(CAPITALS, SMALL_LETTERS, DECIMALS, FinalDigits(a), d);
    if d < 26 {
      LetterTable(d);
    } else if d < 52 {
      LetterTable(d - 26);
    } else if d < 62 {
      DecimalTable(d - 52);
    }
  }

  lemma FinalTable(a: Alphabet)
    requires Usable(a)
    ensures |FinalDigits(a)| == 2 && FinalDigits(a)[0] == a.plus && FinalDigits(a)[1] == a.slash
  {
  }

  lemma DigitParts(p: string, q: string, r: string, s: string, d: nat)
    requires |p| == 26 && |q| == 26 && |r| == 10 && |s| == 2 && d < 64
    ensures (p + q + r + s)[d] == if d < 26 then p[d] else if d < 52 then q[d - 26] else if d < 62 then r[d - 52] else s[d - 62]
  {
  }

  /** Characters outside the alphabet have no value. */
  lemma ValueTable(c: char, a: Alphabet)
    requires Usable(a)
    ensures DigitValue(c, a) >= 0 <==> c in DigitsOf(a)
    ensures DigitValue(c, a) >= 0 ==> DigitsOf(a)[DigitValue(c, a)] == c
  {
    hide DigitsOf;
    if DigitValue(c, a) >= 0 {
      CharRoundTrip(c, a);
      DigitTable(DigitValue(c, a), a);
    }
    if c in DigitsOf(a) {
      var d :| 0 <= d < 64 && DigitsOf(a)[d] == c;
      DigitTable(d, a);
      DigitRoundTrip(d, a);
    }
  }

  // ---------------------------------------------------------------------------------------
  // Encoding

  /** The first three bytes, with zeros for missing ones. */
  function FirstThree(bytes: seq<byte>): (r: seq<nat>)
    requires bytes != []
    ensures |r| == 3 && Below(r, 256)
  {
    [bytes[0], if |bytes| > 1 then bytes[1] else 0, if |bytes| > 2 then bytes[2] else 0]
  }

  /** The four characters for the first three bytes, or for the one or two that are left: the same
      number, written in base 64. */
  function Quad(bytes: seq<byte>, a: Alphabet): (q: string)
    requires bytes != []
    ensures |q| == 4
  {
    var digits := Sextets(FirstThree(bytes));
    [DigitChar(digits[0], a),
     DigitChar(digits[1], a),
     if |bytes| > 1 then DigitChar(digits[2], a) else PAD,
     if |bytes| > 2 then DigitChar(digits[3], a) else PAD]
  }

  function Encode(bytes: seq<byte>, a: Alphabet): (text: string)
    ensures |text| == 4 * ((|bytes| + 2) / 3)
  {
    if bytes == [] then []
    else Quad(bytes, a) + Encode(bytes[Min(3, |bytes|)..], a)
  }

  lemma QuadByShifts(bytes: seq<byte>, a: Alphabet, b1: nat, b2: nat)
    requires bytes != []
    requires b1 == (if |bytes| > 1 then bytes[1] else 0) && b2 == (if |bytes| > 2 then bytes[2] else 0)
    ensures var block := bytes[0] * 65536 + b1 * 256 + b2;
            Quad(bytes, a) == [DigitChar(block / 262144 % 64, a),
                               DigitChar(block / 4096 % 64, a),
                               if |bytes| > 1 then DigitChar(block / 64 % 64, a) else PAD,
                               if |bytes| > 2 then DigitChar(block % 64, a) else PAD]
  {
    SextetsByShifts(bytes[0], b1, b2);
  }

  /** Bit `p` of the bytes, counted from the most significant one of the first byte; zero past the end. */
  function BitAt(bytes: seq<byte>, p: nat): nat {
    if p / 8 < |bytes| then bytes[p / 8] / Weight(p % 8) % 2 else 0
  }

  function Weight(j: nat): (w: nat)
    ensures w > 0
  {
    if j == 0 then 128 else if j == 1 then 64 else if j == 2 then 32 else if j == 3 then 16
    else if j == 4 then 8 else if j == 5 then 4 else if j == 6 then 2 else 1
  }

  /** The number that bits 6i to 6i + 5 make. */
  function SixBits(bytes: seq<byte>, i: nat): (v: nat)
    ensures v < 64
  {
    32 * BitAt(bytes, 6 * i) + 16 * BitAt(bytes, 6 * i + 1) + 8 * BitAt(bytes, 6 * i + 2)
      + 4 * BitAt(bytes, 6 * i + 3) + 2 * BitAt(bytes, 6 * i + 4) + BitAt(bytes, 6 * i + 5)
  }

  /** The text is made of the digits, written out in the alphabet, of six bits each, as long as there
      are bits, and of pads. */
  ghost predicate InDigits(text: string, bytes: seq<byte>, a: Alphabet) {
    forall i: nat :: i < |text| ==> text[i] == if 6 * i < 8 * |bytes| then DigitsOf(a)[SixBits(bytes, i)] else PAD
  }

  lemma Halved(n: nat)
    ensures n == 2 * (n / 2) + n % 2
  {
  }

  lemma HalvesOf(b: nat)
    ensures b / 2 / 2 == b / 4 && b / 4 / 2 == b / 8 && b / 8 / 2 == b / 16 && b / 16 / 2 == b / 32
    ensures b / 32 / 2 == b / 64 && b / 64 / 2 == b / 128
  {
  }

  /** A byte and its bits, from the last one up. */
  lemma BitsOfByte(b: byte)
    ensures b == 2 * (b / 2) + b % 2 && b / 2 == 2 * (b / 4) + b / 2 % 2 && b / 4 == 2 * (b / 8) + b / 4 % 2
    ensures b / 8 == 2 * (b / 16) + b / 8 % 2 && b / 16 == 2 * (b / 32) + b / 16 % 2 && b / 32 == 2 * (b / 64) + b / 32 % 2
    ensures b / 64 == 2 * (b / 128) + b / 64 % 2 && b / 128 == b / 128 % 2
  {
    HalvesOf(b);
    Halved(b);
    Halved(b / 2);
    Halved(b / 4);
    Halved(b / 8);
    Halved(b / 16);
    Halved(b / 32);
    Halved(b / 64);
  }

  lemma Remainders(b: byte)
    ensures b == 4 * (b / 4) + b % 4 && b == 16 * (b / 16) + b % 16 && b == 64 * (b / 64) + b % 64
    ensures b % 4 < 4 && b % 16 < 16 && b % 64 < 64 && b / 4 < 64 && b / 16 < 16 && b / 64 < 4
  {
  }

  lemma UpperBits(b: byte)
    ensures b / 4 == 32 * (b / 128 % 2) + 16 * (b / 64 % 2) + 8 * (b / 32 % 2) + 4 * (b / 16 % 2) + 2 * (b / 8 % 2) + b / 4 % 2
    ensures b / 16 == 8 * (b / 128 % 2) + 4 * (b / 64 % 2) + 2 * (b / 32 % 2) + b / 16 % 2
    ensures b / 64 == 2 * (b / 128 % 2) + b / 64 % 2
  {
    BitsOfByte(b);
  }

  lemma LowerBits(b: byte)
    ensures b % 64 == 32 * (b / 32 % 2) + 16 * (b / 16 % 2) + 8 * (b / 8 % 2) + 4 * (b / 4 % 2) + 2 * (b / 2 % 2) + b % 2
    ensures b % 16 == 8 * (b / 8 % 2) + 4 * (b / 4 % 2) + 2 * (b / 2 % 2) + b % 2
    ensures b % 4 == 2 * (b / 2 % 2) + b % 2
  {
    BitsOfByte(b);
    Remainders(b);
  }

  lemma BlockInBytes(b0: byte, b1: byte, b2: byte)
    ensures var block := b0 * 65536 + b1 * 256 + b2;
            && block / 262144 % 64 == b0 / 4 && block / 4096 % 64 == b0 % 4 * 16 + b1 / 16
            && block / 64 % 64 == b1 % 16 * 4 + b2 / 64 && block % 64 == b2 % 64
  {
    var block := b0 * 65536 + b1 * 256 + b2;
    Remainders(b0);
    Remainders(b1);
    Remainders(b2);
    DivMod(b0 / 4, b0 % 4 * 65536 + b1 * 256 + b2, 262144);
    DivMod(0, b0 / 4, 64);
    DivMod(b0 * 16 + b1 / 16, b1 % 16 * 256 + b2, 4096);
    DivMod(b0 / 4, b0 % 4 * 16 + b1 / 16, 64);
    DivMod(b0 * 1024 + b1 * 4 + b2 / 64, b2 % 64, 64);
    DivMod(b0 * 16 + b1 / 16, b1 % 16 * 4 + b2 / 64, 64);
  }

  /** Bits that a byte sequence, or one with zeros in place of missing bytes, begins with. */
  lemma FirstBits(bytes: seq<byte>, three: seq<byte>, p: nat)
    requires |three| == 3 && p < 24 && bytes != []
    requires three[0] == bytes[0] && three[1] == (if |bytes| > 1 then bytes[1] else 0) && three[2] == (if |bytes| > 2 then bytes[2] else 0)
    ensures BitAt(bytes, p) == BitAt(three, p)
  {
    var k := p / 8;
    assert k == 0 || k == 1 || k == 2;
    hide Weight;
  }

  lemma BitIs(bytes: seq<byte>, k: nat, j: nat)
    requires k < |bytes| && j < 8
    ensures BitAt(bytes, 8 * k + j) == bytes[k] / Weight(j) % 2
  {
    hide Weight;
    DivMod(k, j, 8);
    assert (8 * k + j) / 8 == k && (8 * k + j) % 8 == j;
  }

  lemma FirstSix(three: seq<byte>)
    requires |three| == 3
    ensures SixBits(three, 0) == three[0] / 4
  {
    BitIs(three, 0, 0);
    BitIs(three, 0, 1);
    BitIs(three, 0, 2);
    BitIs(three, 0, 3);
    BitIs(three, 0, 4);
    BitIs(three, 0, 5);
    hide BitAt;
    UpperBits(three[0]);
  }

  lemma SecondSix(three: seq<byte>)
    requires |three| == 3
    ensures SixBits(three, 1) == three[0] % 4 * 16 + three[1] / 16
  {
    BitIs(three, 0, 6);
    BitIs(three, 0, 7);
    BitIs(three, 1, 0);
    BitIs(three, 1, 1);
    BitIs(three, 1, 2);
    BitIs(three, 1, 3);
    hide BitAt;
    LowerBits(three[0]);
    UpperBits(three[1]);
  }

  lemma ThirdSix(three: seq<byte>)
    requires |three| == 3
    ensures SixBits(three, 2) == three[1] % 16 * 4 + three[2] / 64
  {
    BitIs(three, 1, 4);
    BitIs(three, 1, 5);
    BitIs(three, 1, 6);
    BitIs(three, 1, 7);
    BitIs(three, 2, 0);
    BitIs(three, 2, 1);
    hide BitAt;
    LowerBits(three[1]);
    UpperBits(three[2]);
  }

  lemma FourthSix(three: seq<byte>)
    requires |three| == 3
    ensures SixBits(three, 3) == three[2] % 64
  {
    BitIs(three, 2, 2);
    BitIs(three, 2, 3);
    BitIs(three, 2, 4);
    BitIs(three, 2, 5);
    BitIs(three, 2, 6);
    BitIs(three, 2, 7);
    hide BitAt;
    LowerBits(three[2]);
  }

  /** The digits of a group are six bits each. */
  lemma QuadInDigits(bytes: seq<byte>, a: Alphabet, i: nat)
    requires bytes != [] && Usable(a) && i < 4
    ensures Quad(bytes, a)[i] == if 6 * i < 8 * |bytes| then DigitsOf(a)[SixBits(bytes, i)] else PAD
  {
    hide DigitsOf, BitAt, SixBits, Quad, DigitChar, Weight;
    var b1, b2 := if |bytes| > 1 then bytes[1] else 0, if |bytes| > 2 then bytes[2] else 0;
    var three: seq<byte> := [bytes[0], b1, b2];
    QuadByShifts(bytes, a, b1, b2);
    BlockInBytes(bytes[0], b1, b2);
    FirstSix(three);
    SecondSix(three);
    ThirdSix(three);
    FourthSix(three);
    FirstSixBits(bytes, three, i);
    DigitTable(SixBits(three, i), a);
  }

  lemma FirstSixBits(bytes: seq<byte>, three: seq<byte>, i: nat)
    requires |three| == 3 && i < 4 && bytes != []
    requires three[0] == bytes[0] && three[1] == (if |bytes| > 1 then bytes[1] else 0) && three[2] == (if |bytes| > 2 then bytes[2] else 0)
    ensures SixBits(bytes, i) == SixBits(three, i)
  {
    FirstBits(bytes, three, 6 * i);
    FirstBits(bytes, three, 6 * i + 1);
    FirstBits(bytes, three, 6 * i + 2);
    FirstBits(bytes, three, 6 * i + 3);
    FirstBits(bytes, three, 6 * i + 4);
    FirstBits(bytes, three, 6 * i + 5);
    hide BitAt;
  }

  lemma LaterBits(bytes: seq<byte>, p: nat)
    requires |bytes| >= 3
    ensures BitAt(bytes[3..], p) == BitAt(bytes, p + 24)
  {
    assert (p + 24) / 8 == p / 8 + 3 && (p + 24) % 8 == p % 8;
  }

  lemma LaterSixBits(bytes: seq<byte>, i: nat)
    requires |bytes| >= 3
    ensures SixBits(bytes[3..], i) == SixBits(bytes, i + 4)
  {
    LaterBits(bytes, 6 * i);
    LaterBits(bytes, 6 * i + 1);
    LaterBits(bytes, 6 * i + 2);
    LaterBits(bytes, 6 * i + 3);
    LaterBits(bytes, 6 * i + 4);
    LaterBits(bytes, 6 * i + 5);
    hide BitAt;
  }

  lemma {:induction false} EncodedInDigits(bytes: seq<byte>, a: Alphabet)
    requires Usable(a)
    ensures InDigits(Encode(bytes, a), bytes, a)
  {
    hide DigitsOf, SixBits, Quad;
    if bytes != [] {
      var rest := bytes[Min(3, |bytes|)..];
      EncodedInDigits(rest, a);
      forall i: nat | i < |Encode(bytes, a)|
        ensures Encode(bytes, a)[i] == if 6 * i < 8 * |bytes| then DigitsOf(a)[SixBits(bytes, i)] else PAD
      {
        if i < 4 {
          QuadInDigits(bytes, a, i);
        } else {
          LaterSixBits(bytes, i - 4);
        }
      }
    }
  }

  lemma EncodeNext(bytes: seq<byte>, i: nat, a: Alphabet, out: string)
    requires i < |bytes|
    ensures out + Encode(bytes[i..], a) == out + Quad(bytes[i..], a) + Encode(bytes[Min(i + 3, |bytes|)..], a)
  {
    assert bytes[i..][Min(3, |bytes| - i)..] == bytes[Min(i + 3, |bytes|)..];
  }

  method Base64Encode(bytes: seq<byte>, a: Alphabet) returns (out: string)
    ensures out == Encode(bytes, a) && |out| == 4 * ((|bytes| + 2) / 3)
    ensures Usable(a) ==> InDigits(out, bytes, a)
  {
    hide Quad, DigitChar, InDigits;
    if Usable(a) { EncodedInDigits(bytes, a); }
    out := [];
    var i := 0;
    while i < |bytes|
      invariant 0 <= i
      invariant out + Encode(bytes[Min(i, |bytes|)..], a) == Encode(bytes, a)
    {
      var b0: nat := bytes[i];
      var b1: nat := if i + 1 < |bytes| then bytes[i + 1] else 0;
      var b2: nat := if i + 2 < |bytes| then bytes[i + 2] else 0;
      var block := b0 * 65536 + b1 * 256 + b2;
      QuadByShifts(bytes[i..], a, b1, b2);
      EncodeNext(bytes, i, a, out);
      out := out + [DigitChar(block / 262144 % 64, a),
                    DigitChar(block / 4096 % 64, a),
                    if i + 1 < |bytes| then DigitChar(block / 64 % 64, a) else PAD,
                    if i + 2 < |bytes| then DigitChar(block % 64, a) else PAD];
      i := i + 3;
    }
  }

  // ---------------------------------------------------------------------------------------
  // Decoding

  /** Where a pad may stand: anywhere, as if it were a zero, or only in the last two places. */
  datatype Padding = Anywhere | LastTwo

  function PlaceValue(c: char, a: Alphabet, padding: Padding, place: nat): int {
    if c == PAD && (padding == Anywhere || place >= 2) then 0 else DigitValue(c, a)
  }

  /** The bytes of four characters, one fewer for a pad in the third place and in the fourth. */
  function DecodeQuad(q: string, a: Alphabet, padding: Padding): Option<seq<byte>>
    requires |q| == 4
  {
    var c0, c1 := PlaceValue(q[0], a, padding, 0), PlaceValue(q[1], a, padding, 1);
    var c2, c3 := PlaceValue(q[2], a, padding, 2), PlaceValue(q[3], a, padding, 3);
    if c0 < 0 || c1 < 0 || c2 < 0 || c3 < 0 then None
    else
      var bytes := Octets([c0, c1, c2, c3]);
      Some([bytes[0]] + (if q[2] != PAD then [bytes[1]] else []) + (if q[3] != PAD then [bytes[2]] else []))
  }

  function DecodeQuads(text: string, a: Alphabet, padding: Padding): Option<seq<byte>>
    requires |text| % 4 == 0
  {
    if text == [] then Some([])
    else
      var head, tail := DecodeQuad(text[..4], a, padding), DecodeQuads(text[4..], a, padding);
      if head.None? || tail.None? then None else Some(head.value + tail.value)
  }

  function Compact(text: string, blanks: set<char>): string {
    if text == [] then []
    else (if text[0] in blanks then [] else [text[0]]) + Compact(text[1..], blanks)
  }

  /** The line breaks and blanks that the decoder of mail parts skips. */
  const LINE_BLANKS: set<char> := {'\r', '\n', ' ', '\t'}

  /** The decoder of mail parts; `None` when it raises. */
  function Decode(text: string): Option<seq<byte>> {
    var compact := Compact(text, LINE_BLANKS);
    if |compact| % 4 != 0 then None else DecodeQuads(compact, STANDARD, Anywhere)
  }

  function Joined(head: seq<byte>, tail: Option<seq<byte>>): Option<seq<byte>> {
    if tail.None? then None else Some(head + tail.value)
  }

  lemma DecodeNext(text: string, i: nat, a: Alphabet, padding: Padding, out: seq<byte>)
    requires i + 4 <= |text| && |text| % 4 == 0 && i % 4 == 0
    ensures var group := DecodeQuad(text[i..i + 4], a, padding);
            var rest := DecodeQuads(text[i + 4..], a, padding);
            Joined(out, DecodeQuads(text[i..], a, padding)) ==
              if group.None? then None else Joined(out + group.value, rest)
  {
    assert text[i..][..4] == text[i..i + 4] && text[i..][4..] == text[i + 4..];
    var group, rest := DecodeQuad(text[i..i + 4], a, padding), DecodeQuads(text[i + 4..], a, padding);
    if group.Some? && rest.Some? {
      assert out + (group.value + rest.value) == out + group.value + rest.value;
    }
  }

  /** The loop over groups of four that all decoders share; it stops at the first bad group. */
  method DecodeGroups(text: string, a: Alphabet, padding: Padding) returns (r: Option<seq<byte>>)
    requires |text| % 4 == 0
    ensures r == DecodeQuads(text, a, padding)
  {
    hide DecodeQuad;
    var out: seq<byte> := [];
    var i := 0;
    ghost var whole := DecodeQuads(text, a, padding);
    assert text[0..] == text;
    assert whole.Some? ==> [] + whole.value == whole.value;
    while i < |text|
      invariant 0 <= i <= |text| && i % 4 == 0
      invariant whole == Joined(out, DecodeQuads(text[i..], a, padding))
    {
      DecodeNext(text, i, a, padding, out);
      var group := DecodeQuad(text[i..i + 4], a, padding);
      if group.None? {
        return None;
      }
      out := out + group.value;
      i := i + 4;
    }
    assert text[i..] == [] && out + [] == out;
    r := Some(out);
  }

  lemma CompactNext(text: string, i: nat, out: string, blanks: set<char>)
    requires i < |text|
    ensures out + Compact(text[i..], blanks) ==
            out + (if text[i] in blanks then [] else [text[i]]) + Compact(text[i + 1..], blanks)
  {
    assert text[i..][1..] == text[i + 1..];
  }

  lemma CompactNothing(blanks: set<char>)
    ensures Compact([], blanks) == []
  {
  }

  method Base64Decode(text: string) returns (r: Option<seq<byte>>)
    ensures r == Decode(text)
  {
    hide Compact, DecodeQuads;
    var compact := [];
    assert text[0..] == text;
    for i := 0 to |text|
      invariant compact + Compact(text[i..], LINE_BLANKS) == Compact(text, LINE_BLANKS)
    {
      CompactNext(text, i, compact, LINE_BLANKS);
      if text[i] != '\r' && text[i] != '\n' && text[i] != ' ' && text[i] != '\t' {
        compact := compact + [text[i]];
      }
    }
    CompactNothing(LINE_BLANKS);
    assert text[|text|..] == [];
    assert compact == Compact(text, LINE_BLANKS);
    if |compact| % 4 != 0 {
      return None;
    }
    r := DecodeGroups(compact, STANDARD, Anywhere);
  }

  // ---------------------------------------------------------------------------------------
  // Round trips

  lemma QuadRoundTrip(bytes: seq<byte>, a: Alphabet, padding: Padding)
    requires bytes != [] && Usable(a)
    ensures DecodeQuad(Quad(bytes, a), a, padding) == Some(bytes[..Min(3, |bytes|)])
  {
    hide DigitValue, DigitChar, Sextets, Octets;
    var three := FirstThree(bytes);
    var digits, q := Sextets(three), Quad(bytes, a);
    OctetsOfSextets(three);
    SextetsOfPadded(three[0], three[1]);
    assert three == [three[0], three[1], three[2]];
    forall i | 0 <= i < 4
      ensures DigitValue(DigitChar(digits[i], a), a) == digits[i] && DigitChar(digits[i], a) != PAD
    {
      DigitRoundTrip(digits[i], a);
    }
    assert PlaceValue(q[0], a, padding, 0) == digits[0] && PlaceValue(q[1], a, padding, 1) == digits[1];
    assert PlaceValue(q[2], a, padding, 2) == digits[2] && PlaceValue(q[3], a, padding, 3) == digits[3];
    assert [digits[0], digits[1], digits[2], digits[3]] == digits;
    assert Octets(digits) == three;
    var n := Min(3, |bytes|);
    assert |bytes| == 1 || |bytes| == 2 || n == 3;
    assert bytes[..n] == [bytes[0]] + (if n > 1 then [bytes[1]] else []) + (if n > 2 then [bytes[2]] else []);
  }

  lemma {:induction false} QuadsRoundTrip(bytes: seq<byte>, a: Alphabet, padding: Padding)
    requires Usable(a)
    ensures DecodeQuads(Encode(bytes, a), a, padding) == Some(bytes)
  {
    if bytes != [] {
      var text, n := Encode(bytes, a), Min(3, |bytes|);
      assert text[..4] == Quad(bytes, a) && text[4..] == Encode(bytes[n..], a);
      QuadRoundTrip(bytes, a, padding);
      QuadsRoundTrip(bytes[n..], a, padding);
      assert bytes[..n] + bytes[n..] == bytes;
    }
  }

  /** Section 6.8 of RFC 2045: the bytes come back from any text that is their encoding with line
      breaks, blanks and tabs put in anywhere. */
  lemma DecodesEncoded(bytes: seq<byte>, text: string)
    requires Compact(text, LINE_BLANKS) == Encode(bytes, STANDARD)
    ensures Decode(text) == Some(bytes)
  {
    hide Encode, Compact, DecodeQuads;
    QuadsRoundTrip(bytes, STANDARD, Anywhere);
  }

  lemma {:induction false} CompactInserted(before: string, blank: char, after: string, blanks: set<char>)
    requires blank in blanks
    ensures Compact(before + [blank] + after, blanks) == Compact(before + after, blanks)
  {
    var text := before + [blank] + after;
    if before == [] {
      assert text[1..] == after && before + after == after;
    } else {
      assert text[1..] == before[1..] + [blank] + after && (before + after)[1..] == before[1..] + after;
      CompactInserted(before[1..], blank, after, blanks);
    }
  }

  /** The alphabet leaves only digits and pads in an encoding. */
  lemma {:induction false} EncodedChars(bytes: seq<byte>, a: Alphabet)
    ensures forall i :: 0 <= i < |Encode(bytes, a)| ==>
              Encode(bytes, a)[i] == PAD || exists d: nat :: d < 64 && Encode(bytes, a)[i] == DigitChar(d, a)
  {
    if bytes != [] {
      var rest := Encode(bytes[Min(3, |bytes|)..], a);
      EncodedChars(bytes[Min(3, |bytes|)..], a);
      assert Encode(bytes, a) == Quad(bytes, a) + rest;
      assert forall i :: 4 <= i < |Encode(bytes, a)| ==> Encode(bytes, a)[i] == rest[i - 4];
    }
  }

  lemma {:induction false} CompactAlready(text: string, blanks: set<char>)
    requires forall i :: 0 <= i < |text| ==> text[i] !in blanks
    ensures Compact(text, blanks) == text
  {
    if text != [] {
      CompactAlready(text[1..], blanks);
    }
  }

  lemma DecodeEncode(bytes: seq<byte>)
    ensures Decode(Encode(bytes, STANDARD)) == Some(bytes)
  {
    EncodedChars(bytes, STANDARD);
    CompactAlready(Encode(bytes, STANDARD), LINE_BLANKS);
    DecodesEncoded(bytes, Encode(bytes, STANDARD));
  }

  /** A digit, or a pad where one may stand. */
  predicate Accepted(c: char, a: Alphabet, padding: Padding, place: nat) {
    c in DigitsOf(a) || (c == '=' && (padding == Anywhere || place >= 2))
  }

  lemma QuadAccepted(q: string, a: Alphabet, padding: Padding)
    requires |q| == 4 && Usable(a)
    ensures DecodeQuad(q, a, padding).Some? <==>
              Accepted(q[0], a, padding, 0) && Accepted(q[1], a, padding, 1) && Accepted(q[2], a, padding, 2) && Accepted(q[3], a, padding, 3)
  {
    hide DigitsOf, DigitValue;
    ValueTable(q[0], a);
    ValueTable(q[1], a);
    ValueTable(q[2], a);
    ValueTable(q[3], a);
  }

  /** Groups are decoded exactly when they consist of digits and of pads where those may stand. */
  lemma {:induction false} QuadsAccepted(text: string, a: Alphabet, padding: Padding)
    requires |text| % 4 == 0 && Usable(a)
    ensures DecodeQuads(text, a, padding).Some? <==> forall i :: 0 <= i < |text| ==> Accepted(text[i], a, padding, i % 4)
  {
    hide Accepted, DecodeQuad;
    if text != [] {
      var q, rest := text[..4], text[4..];
      QuadAccepted(q, a, padding);
      QuadsAccepted(rest, a, padding);
      assert forall i :: 0 <= i < |rest| ==> rest[i] == text[i + 4] && i % 4 == (i + 4) % 4;
      assert q[0] == text[0] && q[1] == text[1] && q[2] == text[2] && q[3] == text[3];
      if forall i :: 0 <= i < |text| ==> Accepted(text[i], a, padding, i % 4) {
        assert Accepted(text[0], a, padding, 0 % 4) && Accepted(text[1], a, padding, 1 % 4);
        assert Accepted(text[2], a, padding, 2 % 4) && Accepted(text[3], a, padding, 3 % 4);
        forall i | 0 <= i < |rest|
          ensures Accepted(rest[i], a, padding, i % 4)
        {
          assert Accepted(text[i + 4], a, padding, (i + 4) % 4);
        }
      }
      if DecodeQuads(text, a, padding).Some? {
        forall i | 0 <= i < |text|
          ensures Accepted(text[i], a, padding, i % 4)
        {
          if i >= 4 { assert Accepted(rest[i - 4], a, padding, (i - 4) % 4); }
        }
      }
    }
  }

  /** Mail parts are decoded exactly when, blanks and line breaks aside, they are groups of four digits or pads. */
  lemma DecodeIff(text: string)
    ensures Decode(text).Some? <==>
              var compact := Compact(text, {'\r', '\n', ' ', '\t'});
              |compact| % 4 == 0 && forall i :: 0 <= i < |compact| ==> compact[i] in DigitsOf(STANDARD) || compact[i] == '='
  {
    hide DigitsOf, DecodeQuads, Compact;
    var compact := Compact(text, LINE_BLANKS);
    if |compact| % 4 == 0 { QuadsAccepted(compact, STANDARD, Anywhere); }
  }
}
