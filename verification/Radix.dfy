/** Numbers written in a base, most significant digit first.

    Both base64 forms regroup bits: three bytes are four sextets because both are the digits
    of one number. The lemmas here carry that argument, for whole groups and for a last group that
    is cut short, so that the codecs need no bit arithmetic of their own. */
module Radix {

  ghost predicate Below(digits: seq<nat>, base: nat) {
    forall i :: 0 <= i < |digits| ==> digits[i] < base
  }

  function Number(digits: seq<nat>, base: nat): nat {
    if digits == [] then 0
    else Number(digits[..|digits| - 1], base) * base + digits[|digits| - 1]
  }

  /** The last `count` digits of a number. */
  function Digits(n: nat, count: nat, base: nat): (digits: seq<nat>)
    requires base > 0
    ensures |digits| == count && Below(digits, base)
    decreases count
  {
    if count == 0 then [] else Digits(n / base, count - 1, base) + [n % base]
  }

  function Power(base: nat, count: nat): nat {
    if count == 0 then 1 else Power(base, count - 1) * base
  }

  lemma {:induction false} MulStep(a: nat, b: nat, base: nat)
    requires a < b
    ensures a * base + base <= b * base
  {
    assert b * base == a * base + base + (b - a - 1) * base;
  }

  lemma {:induction false} DivMod(q: nat, r: nat, base: nat)
    requires r < base
    ensures (q * base + r) / base == q && (q * base + r) % base == r
  {
    var x := q * base + r;
    assert x == (x / base) * base + x % base;
    if x / base < q {
      MulStep(x / base, q, base);
    } else if q < x / base {
      MulStep(q, x / base, base);
    }
  }

  lemma {:induction false} DigitsOfNumber(digits: seq<nat>, base: nat)
    requires base > 0 && Below(digits, base)
    ensures Digits(Number(digits, base), |digits|, base) == digits
  {
    if digits != [] {
      var front, last := digits[..|digits| - 1], digits[|digits| - 1];
      DivMod(Number(front, base), last, base);
      DigitsOfNumber(front, base);
    }
  }

  lemma {:induction false} QuotientBound(n: nat, p: nat, base: nat)
    requires base > 0 && n < p * base
    ensures n / base < p
  {
    var d := n / base;
    assert n == d * base + n % base;
    if d > p {
      MulStep(p, d, base);
    }
  }

  lemma {:induction false} NumberOfDigits(n: nat, count: nat, base: nat)
    requires base > 0 && n < Power(base, count)
    ensures Number(Digits(n, count, base), base) == n
    decreases count
  {
    if count > 0 {
      QuotientBound(n, Power(base, count - 1), base);
      NumberOfDigits(n / base, count - 1, base);
      NumberAppend(Digits(n / base, count - 1, base), n % base, base);
      QuotientRemainder(n, base);
    }
  }

  lemma QuotientRemainder(n: nat, base: nat)
    requires base > 0
    ensures n / base * base + n % base == n
  {
  }

  lemma {:induction false} NumberAppend(digits: seq<nat>, d: nat, base: nat)
    ensures Number(digits + [d], base) == Number(digits, base) * base + d
  {
    assert (digits + [d])[..|digits|] == digits;
  }

  lemma {:induction false} NumberBound(digits: seq<nat>, base: nat)
    requires base > 0 && Below(digits, base)
    ensures Number(digits, base) < Power(base, |digits|)
  {
    if digits != [] {
      var front := digits[..|digits| - 1];
      NumberBound(front, base);
      var n, p := Number(front, base), Power(base, |front|);
      MulStep(n, p, base);
    }
  }

  // ---------------------------------------------------------------------------------------
  // The two sizes of digits in base64

  lemma Number256(b0: nat, b1: nat, b2: nat)
    ensures Number([b0, b1, b2], 256) == b0 * 65536 + b1 * 256 + b2
  {
    var s := [b0, b1, b2];
    assert s[..2] == [b0, b1] && [b0, b1][..1] == [b0] && [b0][..0] == [];
    assert Number([b0], 256) == b0;
    assert Number([b0, b1], 256) == b0 * 256 + b1;
  }

  lemma Digits64(n: nat)
    ensures Digits(n, 4, 64) == [n / 262144 % 64, n / 4096 % 64, n / 64 % 64, n % 64]
  {
    assert n / 64 / 64 == n / 4096 && n / 4096 / 64 == n / 262144;
    assert Digits(n / 262144, 1, 64) == [n / 262144 % 64];
    assert Digits(n / 4096, 2, 64) == [n / 262144 % 64, n / 4096 % 64];
    assert Digits(n / 64, 3, 64) == [n / 262144 % 64, n / 4096 % 64, n / 64 % 64];
  }

  /** A group of bytes as a number, written with one more digit of base 64. */
  function Sextets(bytes: seq<nat>): (digits: seq<nat>)
    ensures |digits| == |bytes| + 1 && Below(digits, 64)
  {
    Digits(Number(bytes, 256), |bytes| + 1, 64)
  }

  /** And back. */
  function Octets(digits: seq<nat>): (bytes: seq<nat>)
    requires digits != []
    ensures |bytes| == |digits| - 1 && Below(bytes, 256)
  {
    Digits(Number(digits, 64), |digits| - 1, 256)
  }

  lemma OctetsOfSextets(bytes: seq<nat>)
    requires |bytes| == 3 && Below(bytes, 256)
    ensures Octets(Sextets(bytes)) == bytes
  {
    NumberBound(bytes, 256);
    assert Power(256, 3) == 16777216 && Power(64, 4) == 16777216 by {
      assert Power(256, 0) == 1 && Power(256, 1) == 256 && Power(256, 2) == 65536;
      assert Power(64, 0) == 1 && Power(64, 1) == 64 && Power(64, 2) == 4096 && Power(64, 3) == 262144;
    }
    NumberOfDigits(Number(bytes, 256), 4, 64);
    DigitsOfNumber(bytes, 256);
  }

  /** The digits as the shifts and masks of the encoder compute them. */
  lemma SextetsByShifts(b0: nat, b1: nat, b2: nat)
    ensures var block := b0 * 65536 + b1 * 256 + b2;
            Sextets([b0, b1, b2]) == [block / 262144 % 64, block / 4096 % 64, block / 64 % 64, block % 64]
  {
    Number256(b0, b1, b2);
    Digits64(b0 * 65536 + b1 * 256 + b2);
  }

  lemma Multiple64(k: nat)
    ensures (64 * k) % 64 == 0 && (64 * k) / 64 == k
  {
  }

  /** A missing byte leaves its digit zero. */
  lemma SextetsOfPadded(b0: nat, b1: nat)
    ensures Sextets([b0, b1, 0])[3] == 0 && Sextets([b0, 0, 0])[2] == 0
  {
    SextetsByShifts(b0, b1, 0);
    SextetsByShifts(b0, 0, 0);
    Multiple64(b0 * 1024 + b1 * 4);
    Multiple64(b0 * 1024);
    Multiple64(b0 * 16);
  }

  // ---------------------------------------------------------------------------------------
  // Bits

  lemma {:induction false} PowerPositive(base: nat, count: nat)
    requires base > 0
    ensures Power(base, count) > 0
  {
    if count > 0 {
      PowerPositive(base, count - 1);
    }
  }

  /** Dividing twice is dividing by the product. */
  lemma {:induction false} DivTwice(n: nat, a: nat, b: nat)
    requires a > 0 && b > 0
    ensures a * b > 0 && n / a / b == n / (a * b)
  {
    var q, r := n / a, n % a;
    var p, s := q / b, q % b;
    assert n == q * a + r && q == p * b + s;
    assert n == p * (a * b) + (s * a + r) by {
      assert (p * b + s) * a == p * (b * a) + s * a;
    }
    assert s * a + r < a * b by { MulStep(s, b, a); }
    DivMod(p, s * a + r, a * b);
  }

  /** The last digits are those of the number, the others those of its quotient. */
  lemma {:induction false} DigitsSplit(n: nat, a: nat, b: nat, base: nat)
    requires base > 0
    ensures Power(base, b) > 0
    ensures Digits(n, a + b, base) == Digits(n / Power(base, b), a, base) + Digits(n, b, base)
    decreases b
  {
    PowerPositive(base, b);
    if b > 0 {
      PowerPositive(base, b - 1);
      DigitsSplit(n / base, a, b - 1, base);
      DivTwice(n, base, Power(base, b - 1));
      var high := Digits(n / Power(base, b), a, base);
      assert high + Digits(n / base, b - 1, base) + [n % base] == high + (Digits(n / base, b - 1, base) + [n % base]);
    }
  }

  /** Only the remainder matters for the last digits. */
  lemma {:induction false} DigitsOfSum(q: nat, r: nat, count: nat, base: nat)
    requires base > 0
    ensures Digits(q * Power(base, count) + r, count, base) == Digits(r, count, base)
    decreases count
  {
    if count > 0 {
      var p := Power(base, count - 1);
      var n := q * Power(base, count) + r;
      var d, m := r / base, r % base;
      assert n == (q * p + d) * base + m by {
        QuotientRemainder(r, base);
        assert q * (p * base) == (q * p) * base;
      }
      DivMod(q * p + d, m, base);
      DigitsOfSum(q, d, count - 1, base);
    }
  }

  /** The values one after the other, each as `width` bits. */
  function BitsOf(values: seq<nat>, width: nat): seq<nat> {
    if values == [] then [] else BitsOf(values[..|values| - 1], width) + Digits(values[|values| - 1], width, 2)
  }

  lemma {:induction false} BitsLength(values: seq<nat>, width: nat)
    ensures |BitsOf(values, width)| == width * |values|
  {
    if values != [] {
      BitsLength(values[..|values| - 1], width);
      assert width * |values| == width * (|values| - 1) + width;
    }
  }

  lemma {:induction false} BitsConcat(a: seq<nat>, b: seq<nat>, width: nat)
    ensures BitsOf(a + b, width) == BitsOf(a, width) + BitsOf(b, width)
  {
    hide Digits;
    if b == [] {
      assert a + b == a;
    } else {
      var all, front, last := a + b, b[..|b| - 1], Digits(b[|b| - 1], width, 2);
      assert all[..|all| - 1] == a + front && all[|all| - 1] == b[|b| - 1];
      BitsConcat(a, front, width);
      assert BitsOf(a, width) + BitsOf(front, width) + last == BitsOf(a, width) + (BitsOf(front, width) + last);
    }
  }

  /** The bits of the values are the bits of the number they spell. */
  lemma {:induction false} BitsOfNumber(values: seq<nat>, width: nat)
    requires Below(values, Power(2, width))
    ensures BitsOf(values, width) == Digits(Number(values, Power(2, width)), |BitsOf(values, width)|, 2)
  {
    if values != [] {
      var front, last := values[..|values| - 1], values[|values| - 1];
      BitsOfNumber(front, width);
      hide Digits, BitsOf, Number, Power;
      NextBits(Number(front, Power(2, width)), |BitsOf(front, width)|, last, width);
      UnfoldLast(values, width);
    } else {
      NoBits(width);
    }
  }

  lemma NoBits(width: nat)
    ensures BitsOf([], width) == [] == Digits(Number([], Power(2, width)), 0, 2)
  {
  }

  lemma UnfoldLast(values: seq<nat>, width: nat)
    requires values != []
    ensures var front, last := values[..|values| - 1], values[|values| - 1];
            && BitsOf(values, width) == BitsOf(front, width) + Digits(last, width, 2)
            && Number(values, Power(2, width)) == Number(front, Power(2, width)) * Power(2, width) + last
  {
    hide Digits, Power;
  }

  lemma NextBits(n: nat, count: nat, last: nat, width: nat)
    requires last < Power(2, width)
    ensures Digits(n * Power(2, width) + last, count + width, 2) == Digits(n, count, 2) + Digits(last, width, 2)
  {
    hide Digits, Power;
    var p := Power(2, width);
    DigitsSplit(n * p + last, count, width, 2);
    DivMod(n, last, p);
    DigitsOfSum(n, last, width, 2);
  }

  lemma ByteAndSextet()
    ensures Power(2, 8) == 256 && Power(2, 6) == 64
  {
  }

  /** Four sextets have the bits of the three bytes they stand for. */
  lemma SextetBits(bytes: seq<nat>)
    requires |bytes| == 3 && Below(bytes, 256)
    ensures BitsOf(Sextets(bytes), 6) == BitsOf(bytes, 8)
  {
    ByteAndSextet();
    NumberBound(bytes, 256);
    assert Power(256, 3) == 16777216 && Power(64, 4) == 16777216 by {
      assert Power(256, 0) == 1 && Power(256, 1) == 256 && Power(256, 2) == 65536;
      assert Power(64, 0) == 1 && Power(64, 1) == 64 && Power(64, 2) == 4096 && Power(64, 3) == 262144;
    }
    NumberOfDigits(Number(bytes, 256), 4, 64);
    BitsOfNumber(bytes, 8);
    BitsOfNumber(Sextets(bytes), 6);
    BitsLength(bytes, 8);
    BitsLength(Sextets(bytes), 6);
  }

  lemma {:induction false} DigitsInjective(m: nat, n: nat, width: nat)
    requires m < Power(2, width) && n < Power(2, width) && Digits(m, width, 2) == Digits(n, width, 2)
    ensures m == n
  {
    NumberOfDigits(m, width, 2);
    NumberOfDigits(n, width, 2);
  }

  /** Values are known by their bits. */
  lemma {:induction false} BitsInjective(a: seq<nat>, b: seq<nat>, width: nat)
    requires Below(a, Power(2, width)) && Below(b, Power(2, width)) && |a| == |b|
    requires BitsOf(a, width) == BitsOf(b, width)
    ensures a == b
  {
    if a != [] {
      var a0, b0, x, y := a[..|a| - 1], b[..|b| - 1], a[|a| - 1], b[|b| - 1];
      BitsLength(a0, width);
      BitsLength(b0, width);
      var k := |BitsOf(a0, width)|;
      assert BitsOf(a0, width) == BitsOf(a, width)[..k] == BitsOf(b, width)[..k] == BitsOf(b0, width);
      assert Digits(x, width, 2) == BitsOf(a, width)[k..] == BitsOf(b, width)[k..] == Digits(y, width, 2);
      DigitsInjective(x, y, width);
      BitsInjective(a0, b0, width);
    }
  }

  function Zeros(n: nat): seq<nat> { seq(n, i requires 0 <= i < n => 0) }

  lemma {:induction false} DigitsOfZero(count: nat)
    ensures Digits(0, count, 2) == Zeros(count)
    decreases count
  {
    if count > 0 {
      DigitsOfZero(count - 1);
    }
  }

  /** The last bits are all zero when the number is a multiple. */
  lemma ZeroBits(n: nat, count: nat)
    ensures Power(2, count) > 0
    ensures Digits(n, count, 2) == Zeros(count) <==> n % Power(2, count) == 0
  {
    PowerPositive(2, count);
    var p := Power(2, count);
    DigitsOfZero(count);
    QuotientRemainder(n, p);
    DigitsOfSum(n / p, n % p, count, 2);
    if Digits(n, count, 2) == Zeros(count) {
      DigitsInjective(n % p, 0, count);
    }
  }
}
