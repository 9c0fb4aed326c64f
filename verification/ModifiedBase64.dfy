/** The base64 of modified UTF-7: no padding characters, and a decoder that shifts bits through an
    accumulator. The bits themselves are the reference for both directions. */
module ModifiedBase64 {
  import opened Basics
  import opened Radix
  import opened Base64

  function Naturals(bytes: seq<byte>): (r: seq<nat>)
    ensures |r| == |bytes| && Below(r, 256)
    ensures forall i :: 0 <= i < |r| ==> r[i] == bytes[i]
  {
    seq(|bytes|, i requires 0 <= i < |bytes| => bytes[i])
  }

  /** The bytes as bits, most significant first. */
  function ByteBits(bytes: seq<byte>): seq<nat> { BitsOf(Naturals(bytes), 8) }

  ghost predicate AllDigits64(text: string) {
    forall i :: 0 <= i < |text| ==> DigitValue(text[i], MODIFIED) >= 0
  }

  function Values(text: string): (r: seq<nat>)
    requires AllDigits64(text)
    ensures |r| == |text| && Below(r, 64)
    ensures forall i :: 0 <= i < |r| ==> r[i] == DigitValue(text[i], MODIFIED)
  {
    seq(|text|, i requires 0 <= i < |text| => DigitValue(text[i], MODIFIED))
  }

  function TextBits(text: string): seq<nat>
    requires AllDigits64(text)
  {
    BitsOf(Values(text), 6)
  }

  /** The text spells the bytes: its bits are theirs, and at most seven zeros. */
  ghost predicate Spells(text: string, bytes: seq<byte>) {
    && AllDigits64(text)
    && |ByteBits(bytes)| <= |TextBits(text)| < |ByteBits(bytes)| + 8
    && TextBits(text) == ByteBits(bytes) + Zeros(|TextBits(text)| - |ByteBits(bytes)|)
  }

  lemma BitCounts(text: string, bytes: seq<byte>)
    ensures |ByteBits(bytes)| == 8 * |bytes|
    ensures AllDigits64(text) ==> |TextBits(text)| == 6 * |text|
  {
    BitsLength(Naturals(bytes), 8);
    if AllDigits64(text) { BitsLength(Values(text), 6); }
  }

  /** A text spells at most one byte sequence. */
  lemma SpellsOne(text: string, a: seq<byte>, b: seq<byte>)
    requires Spells(text, a) && Spells(text, b)
    ensures a == b
  {
    BitCounts(text, a);
    BitCounts(text, b);
    ByteAndSextet();
    assert |a| == |b|;
    var n := 8 * |a|;
    assert ByteBits(a) == TextBits(text)[..n] == ByteBits(b);
    BitsInjective(Naturals(a), Naturals(b), 8);
    assert forall i :: 0 <= i < |a| ==> a[i] == Naturals(a)[i] && b[i] == Naturals(b)[i];
  }

  /** Bytes are spelled by at most one text of each length. */
  lemma SpelledByOne(a: string, b: string, bytes: seq<byte>)
    requires Spells(a, bytes) && Spells(b, bytes) && |a| == |b|
    ensures a == b
  {
    BitCounts(a, bytes);
    BitCounts(b, bytes);
    ByteAndSextet();
    BitsInjective(Values(a), Values(b), 6);
    forall i | 0 <= i < |a|
      ensures a[i] == b[i]
    {
      assert Values(a)[i] == Values(b)[i];
      CharRoundTrip(a[i], MODIFIED);
      CharRoundTrip(b[i], MODIFIED);
    }
  }

  // ---------------------------------------------------------------------------------------
  // Encoding

  /** Two characters for one byte that is left, three for two, four for three. */
  function Group(bytes: seq<byte>): (text: string)
    requires bytes != []
    ensures |text| == Min(3, |bytes|) + 1
  {
    var digits := Sextets(FirstThree(bytes));
    seq(Min(3, |bytes|) + 1, i requires 0 <= i < Min(3, |bytes|) + 1 => DigitChar(digits[i], MODIFIED))
  }

  function EncodeModified(bytes: seq<byte>): string {
    if bytes == [] then [] else Group(bytes) + EncodeModified(bytes[Min(3, |bytes|)..])
  }

  lemma GroupByShifts(bytes: seq<byte>, b1: nat, b2: nat)
    requires bytes != []
    requires b1 == (if |bytes| > 1 then bytes[1] else 0) && b2 == (if |bytes| > 2 then bytes[2] else 0)
    ensures var block := bytes[0] * 65536 + b1 * 256 + b2;
            Group(bytes) == [DigitChar(block / 262144 % 64, MODIFIED), DigitChar(block / 4096 % 64, MODIFIED)]
              + (if |bytes| > 1 then [DigitChar(block / 64 % 64, MODIFIED)] else [])
              + (if |bytes| > 2 then [DigitChar(block % 64, MODIFIED)] else [])
  {
    hide Sextets, DigitChar;
    SextetsByShifts(bytes[0], b1, b2);
    assert FirstThree(bytes) == [bytes[0], b1, b2];
    assert |bytes| == 1 || |bytes| == 2 || Min(3, |bytes|) == 3;
  }

  lemma EncodeModifiedNext(bytes: seq<byte>, i: nat, out: string)
    requires i < |bytes|
    ensures out + EncodeModified(bytes[i..]) == out + Group(bytes[i..]) + EncodeModified(bytes[Min(i + 3, |bytes|)..])
  {
    hide Group;
    assert bytes[i..][Min(3, |bytes| - i)..] == bytes[Min(i + 3, |bytes|)..];
  }

  method EncodeModifiedBase64(bytes: seq<byte>) returns (out: string)
    ensures out == EncodeModified(bytes)
  {
    hide Group, DigitChar, EncodeModified;
    out := [];
    var i := 0;
    EmptyEncoding();
    assert bytes[0..] == bytes;
    while i + 3 <= |bytes|
      invariant 0 <= i <= |bytes|
      invariant out + EncodeModified(bytes[i..]) == EncodeModified(bytes)
    {
      var b0: nat, b1: nat, b2: nat := bytes[i], bytes[i + 1], bytes[i + 2];
      var block := b0 * 65536 + b1 * 256 + b2;
      GroupByShifts(bytes[i..], b1, b2);
      EncodeModifiedNext(bytes, i, out);
      out := out + [DigitChar(block / 262144 % 64, MODIFIED), DigitChar(block / 4096 % 64, MODIFIED),
                    DigitChar(block / 64 % 64, MODIFIED), DigitChar(block % 64, MODIFIED)];
      i := i + 3;
    }
    var remaining := |bytes| - i;
    if remaining == 1 {
      var b0: nat := bytes[i];
      var block := b0 * 65536;
      GroupByShifts(bytes[i..], 0, 0);
      EncodeModifiedNext(bytes, i, out);
      out := out + [DigitChar(block / 262144 % 64, MODIFIED), DigitChar(block / 4096 % 64, MODIFIED)];
    } else if remaining == 2 {
      var b0: nat, b1: nat := bytes[i], bytes[i + 1];
      var block := b0 * 65536 + b1 * 256;
      GroupByShifts(bytes[i..], b1, 0);
      EncodeModifiedNext(bytes, i, out);
      out := out + [DigitChar(block / 262144 % 64, MODIFIED), DigitChar(block / 4096 % 64, MODIFIED),
                    DigitChar(block / 64 % 64, MODIFIED)];
    }
    assert bytes[|bytes|..] == [];
  }

  lemma EmptyEncoding()
    ensures EncodeModified([]) == []
  {
  }

  lemma GroupValues(bytes: seq<byte>)
    requires bytes != []
    ensures AllDigits64(Group(bytes))
    ensures Values(Group(bytes)) == Sextets(FirstThree(bytes))[..Min(3, |bytes|) + 1]
  {
    hide Sextets, DigitChar, DigitValue;
    var digits, text := Sextets(FirstThree(bytes)), Group(bytes);
    forall i | 0 <= i < |text|
      ensures DigitValue(text[i], MODIFIED) == digits[i]
    {
      DigitRoundTrip(digits[i], MODIFIED);
    }
  }

  lemma {:induction false} BitsPrefix(values: seq<nat>, n: nat, width: nat)
    requires n <= |values|
    ensures |BitsOf(values[..n], width)| <= |BitsOf(values, width)|
    ensures BitsOf(values[..n], width) == BitsOf(values, width)[..|BitsOf(values[..n], width)|]
  {
    assert values == values[..n] + values[n..];
    BitsConcat(values[..n], values[n..], width);
  }

  lemma {:induction false} ZeroValues(n: nat)
    ensures BitsOf(Zeros(n), 8) == Zeros(8 * n)
  {
    if n > 0 {
      assert Zeros(n)[..n - 1] == Zeros(n - 1);
      ZeroValues(n - 1);
      DigitsOfZero(8);
    }
  }

  lemma GroupSpells(bytes: seq<byte>)
    requires 0 < |bytes| <= 3
    ensures Spells(Group(bytes), bytes) && (|bytes| == 3 ==> TextBits(Group(bytes)) == ByteBits(bytes))
  {
    hide Sextets, Group, Digits;
    var three, n := FirstThree(bytes), |bytes|;
    GroupValues(bytes);
    SextetBits(three);
    BitsPrefix(Sextets(three), n + 1, 6);
    BitsLength(Sextets(three)[..n + 1], 6);
    assert three == Naturals(bytes) + Zeros(3 - n);
    BitsConcat(Naturals(bytes), Zeros(3 - n), 8);
    ZeroValues(3 - n);
    BitsLength(Naturals(bytes), 8);
    var all, k := BitsOf(three, 8), 6 * (n + 1);
    assert all == ByteBits(bytes) + Zeros(8 * (3 - n));
    assert all[..k] == ByteBits(bytes) + Zeros(k - 8 * n);
  }

  lemma ValuesConcat(a: string, b: string)
    requires AllDigits64(a) && AllDigits64(b)
    ensures AllDigits64(a + b) && TextBits(a + b) == TextBits(a) + TextBits(b)
  {
    assert Values(a + b) == Values(a) + Values(b);
    BitsConcat(Values(a), Values(b), 6);
  }

  /** The encoding spells its bytes, and its length is never 1 modulo 4. */
  lemma {:induction false} EncodedSpells(bytes: seq<byte>)
    ensures Spells(EncodeModified(bytes), bytes) && |EncodeModified(bytes)| % 4 != 1
  {
    hide Group, Sextets, Digits, BitsOf;
    if bytes == [] {
      EmptySpells();
    } else if |bytes| <= 3 {
      assert bytes[|bytes|..] == [];
      assert EncodeModified(bytes) == Group(bytes) + [] == Group(bytes);
      GroupSpells(bytes);
    } else {
      var first, rest := bytes[..3], bytes[3..];
      GroupOfPrefix(bytes);
      GroupSpells(first);
      EncodedSpells(rest);
      ValuesConcat(Group(first), EncodeModified(rest));
      assert Naturals(bytes) == Naturals(first) + Naturals(rest);
      BitsConcat(Naturals(first), Naturals(rest), 8);
    }
  }

  lemma GroupOfPrefix(bytes: seq<byte>)
    requires |bytes| >= 3
    ensures Group(bytes) == Group(bytes[..3])
  {
    assert FirstThree(bytes) == FirstThree(bytes[..3]);
  }

  lemma EmptySpells()
    ensures Spells([], [])
  {
  }

  // ---------------------------------------------------------------------------------------
  // Decoding

  lemma PushBits(acc: nat, bits: nat, v: nat)
    requires v < 64
    ensures Digits(acc * 64 + v, bits + 6, 2) == Digits(acc, bits, 2) + Digits(v, 6, 2)
  {
    ByteAndSextet();
    DigitsSplit(acc * 64 + v, bits, 6, 2);
    DivMod(acc, v, 64);
    DigitsOfSum(acc, v, 6, 2);
  }

  lemma TakeByte(acc: nat, bits: nat)
    ensures Power(2, bits) > 0
    ensures Digits(acc, bits + 8, 2) == Digits(acc / Power(2, bits) % 256, 8, 2) + Digits(acc, bits, 2)
  {
    ByteAndSextet();
    DigitsSplit(acc, 8, bits, 2);
    var high := acc / Power(2, bits);
    QuotientRemainder(high, 256);
    DigitsOfSum(high / 256, high % 256, 8, 2);
  }

  lemma OneMoreValue(text: string, i: nat)
    requires i < |text| && AllDigits64(text[..i + 1])
    ensures AllDigits64(text[..i])
    ensures DigitValue(text[i], MODIFIED) >= 0
    ensures TextBits(text[..i + 1]) == TextBits(text[..i]) + Digits(DigitValue(text[i], MODIFIED), 6, 2)
  {
    var longer := text[..i + 1];
    assert forall k :: 0 <= k < i ==> text[..i][k] == longer[k];
    assert longer[i] == text[i];
    assert Values(longer)[..i] == Values(text[..i]);
  }

  lemma OneMoreByte(bytes: seq<byte>, b: byte)
    ensures ByteBits(bytes + [b]) == ByteBits(bytes) + Digits(b, 8, 2)
  {
    hide Digits;
    var longer := Naturals(bytes + [b]);
    assert longer[..|longer| - 1] == Naturals(bytes) && longer[|longer| - 1] == b;
  }

  /** The bits of the first `i` characters are those of the bytes, then the last `bits` bits of the
      accumulator. */
  ghost predicate Shifted(text: string, i: nat, bytes: seq<byte>, accumulator: nat, bits: nat)
    requires i <= |text|
  {
    AllDigits64(text[..i]) && TextBits(text[..i]) == ByteBits(bytes) + Digits(accumulator, bits, 2)
  }

  lemma ShiftStart(text: string)
    ensures Shifted(text, 0, [], 0, 0)
  {
    assert text[..0] == [];
    EmptySpells();
  }

  lemma ShiftIn(text: string, i: nat, bytes: seq<byte>, accumulator: nat, bits: nat)
    requires i < |text| && DigitValue(text[i], MODIFIED) >= 0 && Shifted(text, i, bytes, accumulator, bits)
    ensures Shifted(text, i + 1, bytes, accumulator * 64 + DigitValue(text[i], MODIFIED), bits + 6)
  {
    hide Digits, ByteBits, TextBits, AllDigits64, DigitValue;
    var value := DigitValue(text[i], MODIFIED);
    AllMore(text, i);
    OneMoreValue(text, i);
    PushBits(accumulator, bits, value);
    var before, low, six := ByteBits(bytes), Digits(accumulator, bits, 2), Digits(value, 6, 2);
    assert before + low + six == before + (low + six);
  }

  lemma ShiftOut(text: string, i: nat, bytes: seq<byte>, accumulator: nat, bits: nat)
    requires i <= |text| && Shifted(text, i, bytes, accumulator, bits + 8)
    ensures Power(2, bits) > 0
    ensures Shifted(text, i, bytes + [accumulator / Power(2, bits) % 256], accumulator, bits)
  {
    hide Digits, ByteBits, TextBits, AllDigits64;
    TakeByte(accumulator, bits);
    var next: byte := accumulator / Power(2, bits) % 256;
    OneMoreByte(bytes, next);
    var head, tail := Digits(next, 8, 2), Digits(accumulator, bits, 2);
    assert ByteBits(bytes) + (head + tail) == ByteBits(bytes) + head + tail;
  }

  lemma ShiftEnd(text: string, bytes: seq<byte>, accumulator: nat, bits: nat)
    requires Shifted(text, |text|, bytes, accumulator, bits) && bits < 8
    ensures Power(2, bits) > 0
    ensures accumulator % Power(2, bits) == 0 ==> Spells(text, bytes)
    ensures accumulator % Power(2, bits) != 0 ==> forall other :: !Spells(text, other)
  {
    hide Digits, ByteBits, TextBits, AllDigits64, Spells;
    assert text[..|text|] == text;
    ZeroBits(accumulator, bits);
    Verdict(text, bytes, Digits(accumulator, bits, 2));
  }

  lemma BadCharacter(text: string, i: nat)
    requires i < |text| && DigitValue(text[i], MODIFIED) < 0
    ensures forall bytes :: !Spells(text, bytes)
  {
    hide TextBits, ByteBits;
  }

  /** The accumulator decoder; `None` when it raises. It accepts exactly the texts that spell some
      bytes, and returns those bytes. */
  method DecodeModifiedBase64(text: string) returns (r: Option<seq<byte>>)
    ensures r.Some? ==> Spells(text, r.value)
    ensures r.None? ==> forall bytes :: !Spells(text, bytes)
  {
    hide Shifted, Spells, DigitValue;
    var bytes: seq<byte> := [];
    var accumulator: nat, bits: nat := 0, 0;
    ShiftStart(text);
    for i := 0 to |text|
      invariant bits < 8 && Shifted(text, i, bytes, accumulator, bits)
    {
      var value := DigitValue(text[i], MODIFIED);
      if value < 0 {
        BadCharacter(text, i);
        return None;
      }
      ShiftIn(text, i, bytes, accumulator, bits);
      accumulator := accumulator * 64 + value;
      bits := bits + 6;
      while bits >= 8
        invariant bits < 14 && Shifted(text, i + 1, bytes, accumulator, bits)
        decreases bits
      {
        bits := bits - 8;
        ShiftOut(text, i + 1, bytes, accumulator, bits);
        bytes := bytes + [accumulator / Power(2, bits) % 256];
      }
    }
    ShiftEnd(text, bytes, accumulator, bits);
    if bits != 0 {
      if accumulator % Power(2, bits) != 0 {
        return None;
      }
    }
    r := Some(bytes);
  }

  lemma AllMore(text: string, i: nat)
    requires i < |text| && AllDigits64(text[..i]) && DigitValue(text[i], MODIFIED) >= 0
    ensures AllDigits64(text[..i + 1])
  {
    var longer := text[..i + 1];
    forall k | 0 <= k < |longer|
      ensures DigitValue(longer[k], MODIFIED) >= 0
    {
      if k < i { assert longer[k] == text[..i][k]; }
    }
  }

  /** What is left over decides: zeros, or the text spells nothing. */
  lemma Verdict(text: string, bytes: seq<byte>, left: seq<nat>)
    requires AllDigits64(text) && TextBits(text) == ByteBits(bytes) + left && |left| < 8
    ensures left == Zeros(|left|) ==> Spells(text, bytes)
    ensures left != Zeros(|left|) ==> forall other :: !Spells(text, other)
  {
    hide BitsOf;
    forall other | Spells(text, other)
      ensures left == Zeros(|left|)
    {
      BitCounts(text, bytes);
      BitCounts(text, other);
      assert |other| == |bytes|;
      assert left == TextBits(text)[8 * |bytes|..] == Zeros(|left|);
    }
  }

  /** The bytes that a text spells. */
  ghost function Decoded(text: string): Option<seq<byte>> {
    if bytes :| Spells(text, bytes) then Some(bytes) else None
  }

  lemma SpelledLength(text: string, bytes: seq<byte>)
    requires Spells(text, bytes)
    ensures 8 * |bytes| <= 6 * |text| < 8 * |bytes| + 8
  {
    BitCounts(text, bytes);
    hide ByteBits, TextBits;
  }

  /** Among the lengths that fit a number of bytes only one is not 1 modulo 4. */
  lemma SameLength(m: nat, r: nat, t: nat, u: nat)
    requires r < 3 && t % 4 != 1 && u % 4 != 1
    requires 8 * (3 * m + r) <= 6 * t < 8 * (3 * m + r) + 8 && 8 * (3 * m + r) <= 6 * u < 8 * (3 * m + r) + 8
    ensures t == u
  {
    assert t == 4 * m + (if r == 0 then 0 else r + 1);
  }

  lemma DecodedSpells(text: string)
    requires Decoded(text).Some?
    ensures Spells(text, Decoded(text).value)
  {
    hide Spells;
  }

  /** Decoding undoes encoding on every byte sequence. */
  lemma DecodedEncoding(bytes: seq<byte>)
    ensures Decoded(EncodeModified(bytes)) == Some(bytes)
  {
    hide Spells, EncodeModified;
    EncodedSpells(bytes);
    DecodedSpells(EncodeModified(bytes));
    SpellsOne(EncodeModified(bytes), bytes, Decoded(EncodeModified(bytes)).value);
  }

  /** An accepted text is reproduced by encoding what it decodes to, exactly when its length is not
      1 modulo 4. */
  lemma EncodedDecoding(text: string)
    requires Decoded(text).Some?
    ensures EncodeModified(Decoded(text).value) == text <==> |text| % 4 != 1
  {
    hide *;
    var bytes := Decoded(text).value;
    DecodedSpells(text);
    EncodedSpells(bytes);
    SpelledLength(text, bytes);
    SpelledLength(EncodeModified(bytes), bytes);
    if |text| % 4 != 1 {
      SameLength(|bytes| / 3, |bytes| % 3, |text|, |EncodeModified(bytes)|);
      SpelledByOne(EncodeModified(bytes), text, bytes);
    }
  }

  /** Different accepted texts of such lengths decode to different bytes. */
  lemma DecodingInjective(a: string, b: string)
    requires Decoded(a).Some? && Decoded(b).Some? && |a| % 4 != 1 && |b| % 4 != 1 && Decoded(a) == Decoded(b)
    ensures a == b
  {
    hide Decoded, EncodeModified;
    EncodedDecoding(a);
    EncodedDecoding(b);
  }

  // ---------------------------------------------------------------------------------------
  // Digits

  /** Standard groups without their pads. */
  lemma GroupIsQuad(bytes: seq<byte>)
    requires bytes != []
    ensures var n := if |bytes| > 2 then 4 else |bytes| + 1; |Group(bytes)| == n && Group(bytes) == Quad(bytes, MODIFIED)[..n]
  {
    hide Sextets, DigitChar;
  }

  lemma {:induction false} ModifiedIsPrefix(bytes: seq<byte>)
    ensures |EncodeModified(bytes)| == (8 * |bytes| + 5) / 6 && EncodeModified(bytes) <= Encode(bytes, MODIFIED)
  {
    if bytes != [] {
      ModifiedIsPrefix(bytes[Min(3, |bytes|)..]);
      GroupIsQuad(bytes);
      hide Group, Quad;
    }
  }

  /** The encoding is made of the digits, written out in the alphabet, of six bits each, without pads. */
  lemma ModifiedInDigits(bytes: seq<byte>)
    ensures |EncodeModified(bytes)| == (8 * |bytes| + 5) / 6
    ensures forall i :: 0 <= i < |EncodeModified(bytes)| ==>
              EncodeModified(bytes)[i] == DigitsOf(MODIFIED)[SixBits(bytes, i)]
  {
    ModifiedIsPrefix(bytes);
    EncodedInDigits(bytes, MODIFIED);
    hide EncodeModified, Encode, DigitsOf, SixBits;
  }

  lemma NotSpelled(segment: string, i: nat)
    requires i < |segment| && segment[i] !in DigitsOf(MODIFIED)
    ensures Decoded(segment) == None
  {
    ValueTable(segment[i], MODIFIED);
    hide DigitsOf, ByteBits, TextBits;
  }
}
