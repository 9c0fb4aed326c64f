/** How paths and file names of hidden mailboxes are disguised: each byte is combined with a key
    byte, and the result written in hexadecimal. The same combination undoes it, so that whoever has
    the key reads the name. */
module XorCodec {
  import opened Basics
  import opened Paths
  import opened Radix
  import opened Text

  const XOR_KEY: seq<byte> := [0xa3, 0x5f, 0xe1, 0x7c, 0x92, 0x4b, 0xd8, 0x06, 0xf7, 0x31, 0x6e, 0xb4]

  function KeyByte(i: nat): byte { XOR_KEY[i % |XOR_KEY|] }

  /** Exclusive or of the last `width` bits. */
  function XorBits(a: nat, b: nat, width: nat): (r: nat)
    ensures r < Power(2, width)
    decreases width
  {
    if width == 0 then 0
    else 2 * XorBits(a / 2, b / 2, width - 1) + (if a % 2 == b % 2 then 0 else 1)
  }

  lemma {:induction false} XorBitsTwice(a: nat, b: nat, width: nat)
    requires a < Power(2, width)
    ensures XorBits(XorBits(a, b, width), b, width) == a
    decreases width
  {
    if width > 0 {
      XorBitsTwice(a / 2, b / 2, width - 1);
    }
  }

  function Xor(b: byte, key: byte): byte {
    PowerOfByte();
    XorBits(b, key, 8)
  }

  lemma PowerOfByte()
    ensures Power(2, 8) == 256
  {
  }

  lemma XorTwice(b: byte, key: byte)
    ensures Xor(Xor(b, key), key) == b
  {
    hide XorBits;
    PowerOfByte();
    XorBitsTwice(b, key, 8);
  }

  function XorTransform(s: string): (r: string)
    ensures |r| == |s|
  {
    seq(|s|, i requires 0 <= i < |s| => CharOf(Xor(ByteOf(s[i]), KeyByte(i))))
  }

  function ToHex(s: string): string {
    if s == [] then []
    else [HexDigit(ByteOf(s[0]) / 16, 'a'), HexDigit(ByteOf(s[0]) % 16, 'a')] + ToHex(s[1..])
  }

  /** `None` when the length is odd or a character is no digit. */
  function FromHex(s: string): Option<string> {
    if s == [] then Some([])
    else if |s| == 1 || HexValue(s[0]) < 0 || HexValue(s[1]) < 0 then None
    else
      var rest := FromHex(s[2..]);
      if rest.None? then None else Some([CharOf(HexValue(s[0]) * 16 + HexValue(s[1]))] + rest.value)
  }

  function EncryptString(s: string): string { if s == [] then [] else ToHex(XorTransform(s)) }

  /** What does not look encrypted is returned as it is. */
  function DecryptString(s: string): string {
    var bytes := FromHex(s);
    if s == [] || bytes.None? then s else XorTransform(bytes.value)
  }

  /** A mailbox is hidden when the last segment of its name begins with a dot. */
  predicate ShouldEncryptMailbox(mailbox: string) {
    var tail := LastSegment(mailbox);
    tail != [] && tail[0] == '.'
  }

  lemma XorTransformTwice(s: string)
    requires IsBytes(s)
    ensures XorTransform(XorTransform(s)) == s
  {
    hide Xor, KeyByte;
    forall i | 0 <= i < |s|
      ensures XorTransform(XorTransform(s))[i] == s[i]
    {
      XorTwice(ByteOf(s[i]), KeyByte(i));
    }
  }

  lemma {:induction false} HexRoundTrip(s: string)
    requires IsBytes(s)
    ensures FromHex(ToHex(s)) == Some(s)
  {
    if s != [] {
      HexRoundTrip(s[1..]);
      var b := ByteOf(s[0]);
      assert HexValue(ToHex(s)[0]) == b / 16 && HexValue(ToHex(s)[1]) == b % 16;
      assert CharOf(b / 16 * 16 + b % 16) == s[0] && s == [s[0]] + s[1..];
      assert ToHex(s)[2..] == ToHex(s[1..]);
    }
  }

  /** Lower-case hexadecimal digits and nothing else. */
  ghost predicate HexOnly(s: string) {
    forall i :: 0 <= i < |s| ==> '0' <= s[i] <= '9' || 'a' <= s[i] <= 'f'
  }

  lemma {:induction false} ToHexOnly(s: string)
    ensures HexOnly(ToHex(s)) && |ToHex(s)| == 2 * |s|
  {
    if s != [] {
      ToHexOnly(s[1..]);
      assert ToHex(s)[2..] == ToHex(s[1..]);
      assert forall i :: 2 <= i < |ToHex(s)| ==> ToHex(s)[i] == ToHex(s[1..])[i - 2];
    }
  }

  /** Every string of bytes comes back, and its disguise is twice as long and plain text. */
  lemma EncryptionRoundTrip(s: string)
    requires IsBytes(s)
    ensures DecryptString(EncryptString(s)) == s
    ensures HexOnly(EncryptString(s)) && |EncryptString(s)| == 2 * |s|
  {
    hide Xor, KeyByte;
    if s != [] {
      ToHexOnly(XorTransform(s));
      assert IsBytes(XorTransform(s));
      HexRoundTrip(XorTransform(s));
      XorTransformTwice(s);
    }
  }

  function Bit(n: nat, i: nat): nat { if i == 0 then n % 2 else Bit(n / 2, i - 1) }

  /** Each bit of the result is set exactly when the two bits differ. */
  lemma {:induction false} XorIsBitwise(a: nat, b: nat, width: nat, i: nat)
    requires i < width
    ensures Bit(XorBits(a, b, width), i) == if Bit(a, i) == Bit(b, i) then 0 else 1
    decreases i
  {
    var rest := XorBits(a / 2, b / 2, width - 1);
    assert XorBits(a, b, width) / 2 == rest;
    if i > 0 {
      XorIsBitwise(a / 2, b / 2, width - 1, i - 1);
    }
  }

  // ---------------------------------------------------------------------------------------
  // Which mailboxes are hidden

  predicate NoSlash(s: string) { '/' !in s && '\\' !in s }

  lemma {:induction false} LastSegmentAfter(before: string, b: string)
    requires NoSlash(b) && (before == [] || before[|before| - 1] == '/' || before[|before| - 1] == '\\')
    ensures LastSegment(before + b) == b
    decreases |b|
  {
    if b == [] {
      assert before + b == before;
    } else {
      var all, init := before + b, b[..|b| - 1];
      assert all[..|all| - 1] == before + init && all[|all| - 1] == b[|b| - 1] && b[|b| - 1] in b;
      LastSegmentAfter(before, init);
      assert b == init + [b[|b| - 1]];
    }
  }

  /** Hidden are the mailboxes whose name, after the last slash of either kind, begins with a dot. */
  lemma HiddenMailbox(a: string, b: string)
    requires NoSlash(b)
    ensures ShouldEncryptMailbox(a + "/." + b) && ShouldEncryptMailbox(a + "\\." + b) && ShouldEncryptMailbox("." + b)
  {
    hide LastSegment;
    var tail := "." + b;
    assert NoSlash(tail);
    LastSegmentAfter(a + "/", tail);
    LastSegmentAfter(a + "\\", tail);
    LastSegmentAfter([], tail);
    assert a + "/." + b == a + "/" + tail && a + "\\." + b == a + "\\" + tail && [] + tail == tail;
  }

  lemma PlainMailbox(a: string, b: string)
    requires NoSlash(b) && (b == [] || b[0] != '.')
    ensures !ShouldEncryptMailbox(a + "/" + b) && !ShouldEncryptMailbox(a + "\\" + b) && !ShouldEncryptMailbox(b)
  {
    LastSegmentAfter(a + "/", b);
    LastSegmentAfter(a + "\\", b);
    LastSegmentAfter([], b);
    assert [] + b == b;
  }

  // ---------------------------------------------------------------------------------------
  // The key and the digits

  lemma {:induction false} XorWithZero(b: nat, width: nat)
    requires b < Power(2, width)
    ensures XorBits(0, b, width) == b
    decreases width
  {
    if width > 0 {
      XorWithZero(b / 2, width - 1);
    }
  }

  /** Zero bytes show the key, which repeats after twelve. */
  lemma ZerosShowKey(zeros: string, i: nat)
    requires i < |zeros| && ByteOf(zeros[i]) == 0
    ensures ByteOf(XorTransform(zeros)[i]) == [0xa3, 0x5f, 0xe1, 0x7c, 0x92, 0x4b, 0xd8, 0x06, 0xf7, 0x31, 0x6e, 0xb4][i % 12]
  {
    hide XorBits;
    PowerOfByte();
    XorWithZero(KeyByte(i), 8);
  }

  /** Each byte becomes two lower-case digits, the higher one first. */
  lemma {:induction false} HexAt(s: string, i: nat)
    requires i < |s|
    ensures |ToHex(s)| == 2 * |s|
    ensures ToHex(s)[2 * i] == LOWER_HEX[ByteOf(s[i]) / 16] && ToHex(s)[2 * i + 1] == LOWER_HEX[ByteOf(s[i]) % 16]
  {
    ToHexOnly(s);
    ToHexOnly(s[1..]);
    hide HexDigit;
    HexTables(ByteOf(s[0]) / 16);
    HexTables(ByteOf(s[0]) % 16);
    if i > 0 {
      HexAt(s[1..], i - 1);
      assert ToHex(s)[2 * i] == ToHex(s[1..])[2 * (i - 1)] && ToHex(s)[2 * i + 1] == ToHex(s[1..])[2 * (i - 1) + 1];
    }
  }

  ghost predicate HexDigitsOnly(s: string) { forall i :: 0 <= i < |s| ==> s[i] in LOWER_HEX || s[i] in UPPER_HEX }

  lemma {:induction false} FromHexIff(s: string)
    ensures FromHex(s).Some? <==> |s| % 2 == 0 && HexDigitsOnly(s)
  {
    hide HexValue, LOWER_HEX, UPPER_HEX;
    if |s| == 1 {
    } else if s != [] {
      HexDigits(s[0]);
      HexDigits(s[1]);
      FromHexIff(s[2..]);
      assert s == [s[0], s[1]] + s[2..];
    }
  }

  /** What is no disguise, being of odd length or having a character that is no hexadecimal digit of either
      case, is left as it is. */
  lemma NoDisguiseStays(s: string)
    requires |s| % 2 != 0 || !HexDigitsOnly(s)
    ensures DecryptString(s) == s
  {
    FromHexIff(s);
  }
}
