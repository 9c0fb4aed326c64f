/** Unicode scalar values and their two encodings, as the mailbox names use them.
    A name is a sequence of scalar values. UTF-16 writes one as a code unit or as two surrogates, and
    UTF-8 as one to four bytes. Reading UTF-16 is partial: a surrogate that stands alone has no
    scalar value. */
module Unicode {
  import opened Basics
  import opened Text

  type Scalar = c: int | 0 <= c < 0x110000 && !(0xD800 <= c < 0xE000)
  type CodeUnit = u: int | 0 <= u < 0x10000

  function Utf16Of(c: Scalar): seq<CodeUnit> {
    if c < 0x10000 then [c] else [0xD800 + (c - 0x10000) / 1024, 0xDC00 + (c - 0x10000) % 1024]
  }

  function Utf16(name: seq<Scalar>): seq<CodeUnit> {
    if name == [] then [] else Utf16Of(name[0]) + Utf16(name[1..])
  }

  predicate HighHalf(u: CodeUnit) { 0xD800 <= u < 0xDC00 }

  predicate LowHalf(u: CodeUnit) { 0xDC00 <= u < 0xE000 }

  /** `None` when a surrogate stands alone. */
  function FromUtf16(units: seq<CodeUnit>): Option<seq<Scalar>> {
    if units == [] then Some([])
    else if HighHalf(units[0]) then
      if |units| == 1 || !LowHalf(units[1]) then None
      else
        var high: int, low: int := units[0] as int - 0xD800, units[1] as int - 0xDC00;
        Prepended(0x10000 + high * 1024 + low, FromUtf16(units[2..]))
    else if LowHalf(units[0]) then None
    else Prepended(units[0], FromUtf16(units[1..]))
  }

  function Prepended(c: Scalar, rest: Option<seq<Scalar>>): Option<seq<Scalar>> {
    if rest.None? then None else Some([c] + rest.value)
  }

  function Utf8Of(c: Scalar): seq<byte> {
    if c < 0x80 then [c]
    else if c < 0x800 then [0xC0 + c / 64, 0x80 + c % 64]
    else if c < 0x10000 then [0xE0 + c / 4096, 0x80 + c / 64 % 64, 0x80 + c % 64]
    else [0xF0 + c / 262144, 0x80 + c / 4096 % 64, 0x80 + c / 64 % 64, 0x80 + c % 64]
  }

  /** The name as a string of bytes. */
  function Utf8(name: seq<Scalar>): string {
    if name == [] then [] else TextOf(Utf8Of(name[0])) + Utf8(name[1..])
  }

  lemma {:induction false} Utf16RoundTrip(name: seq<Scalar>)
    ensures FromUtf16(Utf16(name)) == Some(name)
  {
    if name != [] {
      Utf16RoundTrip(name[1..]);
      var units := Utf16(name);
      assert units[|Utf16Of(name[0])|..] == Utf16(name[1..]);
      assert name == [name[0]] + name[1..];
    }
  }

  lemma {:induction false} Utf16Concat(a: seq<Scalar>, b: seq<Scalar>)
    ensures Utf16(a + b) == Utf16(a) + Utf16(b)
  {
    if a == [] {
      assert a + b == b;
    } else {
      assert (a + b)[1..] == a[1..] + b;
      Utf16Concat(a[1..], b);
    }
  }

  lemma {:induction false} Utf8Concat(a: seq<Scalar>, b: seq<Scalar>)
    ensures Utf8(a + b) == Utf8(a) + Utf8(b)
  {
    if a == [] {
      assert a + b == b;
    } else {
      assert (a + b)[1..] == a[1..] + b;
      Utf8Concat(a[1..], b);
    }
  }

  /** The two surrogates of a scalar value carry its upper and its lower ten bits (section 2.1 of RFC 2781). */
  lemma SurrogatesOf(c: Scalar)
    ensures c < 0x10000 ==> Utf16([c]) == [c]
    ensures c >= 0x10000 ==>
              var units: seq<int> := Utf16([c]);
              && |units| == 2 && 0xD800 <= units[0] < 0xDC00 <= units[1] < 0xE000
              && c == 0x10000 + (units[0] - 0xD800) * 1024 + (units[1] - 0xDC00)
  {
    assert [c][1..] == [];
  }

  ghost predicate Continues(b: int) { 0x80 <= b < 0xC0 }

  lemma SixBitDigits(c: nat)
    ensures c == c / 64 * 64 + c % 64 && c / 64 == c / 4096 * 64 + c / 64 % 64 && c / 4096 == c / 262144 * 64 + c / 4096 % 64
  {
    assert c / 64 / 64 == c / 4096 && c / 4096 / 64 == c / 262144;
  }

  lemma OneScalar(c: Scalar)
    ensures Utf8([c]) == TextOf(Utf8Of(c))
  {
    hide Utf8Of;
    assert [c][1..] == [] && Utf8([]) == [];
  }

  /** The bytes of a scalar value, as section 3 of RFC 3629 tables them: the first one tells how many
      there are, and the shortest form is used. */
  lemma BytesOfScalar(c: Scalar)
    ensures var b: seq<int> := Utf8Of(c);
            && Utf8([c]) == TextOf(Utf8Of(c))
            && |b| == (if c < 0x80 then 1 else if c < 0x800 then 2 else if c < 0x10000 then 3 else 4)
            && (forall i :: 0 < i < |b| ==> Continues(b[i]))
            && (|b| == 1 ==> c == b[0])
            && (|b| == 2 ==> 0xC0 <= b[0] < 0xE0 && c == (b[0] - 0xC0) * 64 + (b[1] - 0x80))
            && (|b| == 3 ==> 0xE0 <= b[0] < 0xF0 && c == (b[0] - 0xE0) * 4096 + (b[1] - 0x80) * 64 + (b[2] - 0x80))
            && (|b| == 4 ==> 0xF0 <= b[0] < 0xF8
                             && c == (b[0] - 0xF0) * 262144 + (b[1] - 0x80) * 4096 + (b[2] - 0x80) * 64 + (b[3] - 0x80))
  {
    OneScalar(c);
    hide TextOf, Utf8;
    SixBitDigits(c);
  }
}
