/** Bytes, numbers in big-endian form, and bits of a byte. */
module ByteStrings {
  import Field

  type Byte = b: int | 0 <= b < 256

  type Bytes = seq<Byte>

  function FromBytes(bs: Bytes): nat {
    if bs == [] then 0 else FromBytes(bs[..|bs| - 1]) * 256 + bs[|bs| - 1]
  }

  function ToBytes(n: nat, len: nat): (r: Bytes)
    ensures |r| == len
  {
    if len == 0 then [] else ToBytes(n / 256, len - 1) + [n % 256]
  }

  function Power256(k: nat): (r: nat)
    ensures r >= 1
  {
    if k == 0 then 1 else 256 * Power256(k - 1)
  }

  /** How many bytes a number takes, at least one. */
  function ByteLength(n: nat): (r: nat)
    ensures r >= 1 && n < Power256(r)
  {
    if n < 256 then 1 else 1 + ByteLength(n / 256)
  }

  lemma {:induction false} FromToBytes(n: nat, len: nat)
    requires n < Power256(len)
    ensures FromBytes(ToBytes(n, len)) == n
  {
    if len == 0 {
    } else {
      hide *;
      var q, d := LastDigit(n, len);
      FromToBytes(q, len - 1);
      FromBytesLast(ToBytes(q, len - 1), d);
    }
  }

  /** The last digit to base 256, and the number without it. */
  lemma LastDigit(n: nat, len: nat) returns (q: nat, d: Byte)
    requires len > 0 && n < Power256(len)
    ensures n == q * 256 + d && q < Power256(len - 1) && ToBytes(n, len) == ToBytes(q, len - 1) + [d]
  {
    q, d := n / 256, n % 256;
  }

  lemma FromBytesLast(front: Bytes, last: Byte)
    ensures FromBytes(front + [last]) == FromBytes(front) * 256 + last
  {
    assert (front + [last])[..|front|] == front;
  }

  lemma {:induction false} ToFromBytes(bs: Bytes)
    ensures FromBytes(bs) < Power256(|bs|)
    ensures ToBytes(FromBytes(bs), |bs|) == bs
  {
    if bs != [] {
      ToFromBytes(bs[..|bs| - 1]);
    }
  }

  /** Byte strings of one length are determined by their numbers. */
  lemma FromBytesInjective(a: Bytes, b: Bytes)
    requires |a| == |b| && FromBytes(a) == FromBytes(b)
    ensures a == b
  {
    ToFromBytes(a);
    ToFromBytes(b);
  }

  lemma {:induction false} ByteLengthBound(n: nat, k: nat)
    requires n < Power256(k) && k >= 1
    ensures ByteLength(n) <= k
  {
    if n >= 256 {
      ByteLengthBound(n / 256, k - 1);
    }
  }

  /** The number that digits to a base stand for, the most significant first. */
  function FromDigits(digits: seq<nat>, base: nat): nat {
    if digits == [] then 0 else FromDigits(digits[..|digits| - 1], base) * base + digits[|digits| - 1]
  }

  lemma FromDigitsLast(front: seq<nat>, last: nat, base: nat)
    ensures FromDigits(front + [last], base) == FromDigits(front, base) * base + last
  {
    assert (front + [last])[..|front|] == front;
  }

  /** Bytes are digits to the base 256. */
  lemma {:induction false} BytesAreDigits(bs: Bytes)
    ensures FromDigits(bs, 256) == FromBytes(bs)
  {
    if bs != [] {
      BytesAreDigits(bs[..|bs| - 1]);
    }
  }

  /** Digits of one length are determined by their number. */
  lemma {:induction false} FromDigitsInjective(a: seq<nat>, b: seq<nat>, base: nat)
    requires base >= 1 && |a| == |b| && FromDigits(a, base) == FromDigits(b, base)
    requires forall i :: 0 <= i < |a| ==> a[i] < base && b[i] < base
    ensures a == b
  {
    if a != [] {
      var last := |a| - 1;
      var v := FromDigits(a, base);
      Quotient(v, base, FromDigits(a[..last], base), a[last]);
      Quotient(v, base, FromDigits(b[..last], base), b[last]);
      FromDigitsInjective(a[..last], b[..last], base);
      assert a == a[..last] + [a[last]] && b == b[..last] + [b[last]];
    }
  }

  /** A slice as Python takes it: bounds beyond the end are cut. */
  function Slice(data: Bytes, i: nat, j: nat): (r: Bytes)
    requires i <= j
    ensures j <= |data| ==> r == data[i..j]
  {
    if j <= |data| then data[i..j] else if i <= |data| then data[i..] else []
  }

  // ----- bits

  function BitValue(bit: nat): (r: nat)
    ensures r >= 1
  {
    if bit == 0 then 1 else 2 * BitValue(bit - 1)
  }

  predicate HasBit(v: Byte, bit: nat) {
    v / BitValue(bit) % 2 == 1
  }

  lemma BitValues()
    ensures BitValue(0) == 1 && BitValue(1) == 2 && BitValue(2) == 4 && BitValue(3) == 8
    ensures BitValue(4) == 16 && BitValue(5) == 32 && BitValue(6) == 64 && BitValue(7) == 128
  {
    assert BitValue(3) == 2 * BitValue(2) && BitValue(6) == 2 * BitValue(5);
  }

  lemma BitFits(v: Byte, bit: nat)
    requires bit < 8 && !HasBit(v, bit)
    ensures v + BitValue(bit) < 256
  {
    hide BitValue;
    HighBit(bit);
    var b := BitValue(bit);
    if v + b >= 256 {
      UpperHalf(v, b, 256 / (2 * b));
    }
  }

  /** The bits of a byte divide 256 evenly. */
  lemma HighBit(bit: nat)
    requires bit < 8
    ensures 256 == 256 / (2 * BitValue(bit)) * (2 * BitValue(bit)) && 256 / (2 * BitValue(bit)) >= 1
  {
    BitValues();
    assert bit == 0 || bit == 1 || bit == 2 || bit == 3 || bit == 4 || bit == 5 || bit == 6 || bit == 7;
  }

  /** Just below an even multiple of b the quotient by b is odd. */
  lemma UpperHalf(v: nat, b: nat, half: nat)
    requires b >= 1 && half >= 1 && v < half * (2 * b) <= v + b
    ensures v / b % 2 == 1
  {
    assert half * (2 * b) == (2 * half - 1) * b + b;
    Quotient(v, b, 2 * half - 1, v - (2 * half - 1) * b);
  }

  /** v | (1 << bit) */
  function SetBit(v: Byte, bit: nat): Byte
    requires bit < 8
  {
    if HasBit(v, bit) then v
    else
      BitFits(v, bit);
      v + BitValue(bit)
  }

  lemma SetBitHas(v: Byte, bit: nat, other: nat)
    requires bit < 8 && other < 8
    ensures HasBit(SetBit(v, bit), other) <==> other == bit || HasBit(v, other)
  {
    BitValues();
    if !HasBit(v, bit) {
      BitFits(v, bit);
      SetBitCase(v, bit, other);
    }
  }

  /** Adding an absent bit leaves the bits below alone and carries into none above. */
  lemma SetBitCase(v: Byte, bit: nat, other: nat)
    requires bit < 8 && other < 8 && !HasBit(v, bit) && v + BitValue(bit) < 256
    ensures HasBit(v + BitValue(bit), other) <==> other == bit || HasBit(v, other)
  {
    hide BitValue;
    if other >= bit {
      BitValueAdd(bit, other - bit);
      BitAbove(v, BitValue(bit), other - bit);
    } else {
      BitValueAdd(other, bit - other);
      BitValueAdd(1, bit - other - 1);
      BitValueOne();
      LowerBit(v, BitValue(other), BitValue(bit - other - 1));
    }
  }

  lemma BitValueOne()
    ensures BitValue(0) == 1 && BitValue(1) == 2
  {
  }

  lemma BitAbove(v: nat, d: nat, k: nat)
    requires d >= 1 && v / d % 2 == 0
    ensures d * BitValue(k) >= 1
    ensures (v + d) / (d * BitValue(k)) % 2 == (if k == 0 then 1 else v / (d * BitValue(k)) % 2)
  {
    hide BitValue;
    var e := BitValue(k);
    DivTwice(v, d, e);
    DivTwice(v + d, d, e);
    DivShift(v, d);
    EvenPlusOne(v / d, e, k);
  }

  lemma {:induction false} BitValueAdd(a: nat, b: nat)
    ensures BitValue(a + b) == BitValue(a) * BitValue(b)
  {
    if a != 0 {
      BitValueAdd(a - 1, b);
      var x, y := BitValue(a - 1), BitValue(b);
      assert (2 * x) * y == 2 * (x * y);
    }
  }

  lemma DivTwice(v: nat, d: nat, e: nat)
    requires d >= 1 && e >= 1
    ensures 0 <= v / d && d * e >= 1 && v / (d * e) == v / d / e
  {
    DivNonnegative(v, d);
    var q, r := v / d, v % d;
    var q2, r2 := q / e, q % e;
    assert v == q * d + r && q == q2 * e + r2;
    assert v == q2 * (d * e) + (r2 * d + r) by {
      assert (q2 * e) * d == q2 * (d * e);
      assert q * d == (q2 * e) * d + r2 * d;
    }
    assert 0 <= r2 * d + r < d * e by {
      Field.MulAtLeast(e - r2, d);
      assert (e - r2) * d == d * e - r2 * d;
      DivNonnegative(r2, 1);
    }
    assert d * e >= 1;
    Quotient(v, d * e, q2, r2 * d + r);
  }

  lemma DivNonnegative(v: nat, d: nat)
    requires d >= 1
    ensures v / d >= 0
  {
  }

  lemma Quotient(v: int, n: int, q: int, r: int)
    requires n >= 1 && v == q * n + r && 0 <= r < n
    ensures v / n == q && v % n == r
  {
    var a, b := v / n, v % n;
    assert v == a * n + b;
    assert (a - q) * n == r - b;
    Field.SmallMultiple(n, a - q);
  }

  lemma DivShift(v: nat, d: nat)
    requires d >= 1
    ensures (v + d) / d == v / d + 1
  {
    Quotient(v + d, d, v / d + 1, v % d);
  }

  lemma EvenPlusOne(high: nat, e: nat, k: nat)
    requires high % 2 == 0 && e == BitValue(k)
    ensures (high + 1) / e % 2 == (if k == 0 then 1 else high / e % 2)
  {
    if k != 0 {
      var f := BitValue(k - 1);
      DivTwice(high, 2, f);
      DivTwice(high + 1, 2, f);
      assert 2 * f == e;
    }
  }

  lemma LowerBit(v: nat, b: nat, e: nat)
    requires b >= 1 && e >= 1
    ensures (v + b * (2 * e)) / b % 2 == v / b % 2
  {
    assert v + b * (2 * e) == (v / b + 2 * e) * b + v % b;
    Quotient(v + b * (2 * e), b, v / b + 2 * e, v % b);
  }
}
