/** Paths of digits and their byte form: merkle/nibble_path.py. */
module Nibbles {
  import opened Wrappers
  import opened ByteStrings

  type Digits = seq<nat>

  ghost predicate Below(digits: Digits, width: nat) {
    forall i :: 0 <= i < |digits| ==> digits[i] < width
  }

  // ----- bytes as digits

  /** The number of bits of a digit, when it divides the size of a byte. */
  function DigitBits(width: nat): Option<nat> {
    if width == 2 then Some(1)
    else if width == 4 then Some(2)
    else if width == 16 then Some(4)
    else if width == 256 then Some(8)
    else None
  }

  /** How many digits a byte has. */
  function PerByte(width: nat): (n: nat)
    requires GoodWidth(width)
    ensures n == 8 / DigitBits(width).value
  {
    if width == 2 then 8 else if width == 4 then 4 else if width == 16 then 2 else 1
  }

  predicate GoodWidth(width: nat) {
    DigitBits(width).Some?
  }

  ghost function ByteDigits(b: Byte, width: nat): (r: Digits)
    requires GoodWidth(width)
    ensures |r| == PerByte(width) && Below(r, width)
  {
    match width
    case 2 => [b / 128 % 2, b / 64 % 2, b / 32 % 2, b / 16 % 2, b / 8 % 2, b / 4 % 2, b / 2 % 2, b % 2]
    case 4 => [b / 64 % 4, b / 16 % 4, b / 4 % 4, b % 4]
    case 16 => [b / 16 % 16, b % 16]
    case _ => [b]
  }

  lemma Halves(b: Byte)
    ensures b / 4 == b / 2 / 2 && b / 8 == b / 4 / 2 && b / 16 == b / 8 / 2
    ensures b / 32 == b / 16 / 2 && b / 64 == b / 32 / 2 && b / 128 == b / 64 / 2
    ensures b / 16 == b / 4 / 4 && b / 64 == b / 16 / 4
  {
  }

  lemma Half(n: nat)
    ensures n == 2 * (n / 2) + n % 2
  {
  }

  lemma Quarter(n: nat)
    ensures n == 4 * (n / 4) + n % 4
  {
  }

  lemma FromBits(b: Byte)
    ensures b == 128 * (b / 128) + 64 * (b / 64 % 2) + 32 * (b / 32 % 2) + 16 * (b / 16 % 2)
      + 8 * (b / 8 % 2) + 4 * (b / 4 % 2) + 2 * (b / 2 % 2) + b % 2
    ensures b / 128 == b / 128 % 2
  {
    Halves(b);
    Half(b);
    Half(b / 2);
    Half(b / 4);
    Half(b / 8);
    Half(b / 16);
    Half(b / 32);
    Half(b / 64);
  }

  lemma FromPairs(b: Byte)
    ensures b == 64 * (b / 64) + 16 * (b / 16 % 4) + 4 * (b / 4 % 4) + b % 4
    ensures b / 64 == b / 64 % 4
  {
    Halves(b);
    Quarter(b);
    Quarter(b / 4);
    Quarter(b / 16);
  }

  /** A byte can be computed from its digits. */
  lemma ByteDigitsInjective(b: Byte, c: Byte, width: nat)
    requires GoodWidth(width) && ByteDigits(b, width) == ByteDigits(c, width)
    ensures b == c
  {
    hide ByteDigits;
    if width == 2 {
      SameEight(b, c);
    } else if width == 4 {
      SameFour(b, c);
    } else if width == 16 {
      SameTwo(b, c);
    } else {
      SameOne(b, c);
    }
  }

  lemma SameOne(b: Byte, c: Byte)
    requires ByteDigits(b, 256) == ByteDigits(c, 256)
    ensures b == c
  {
    assert ByteDigits(b, 256)[0] == ByteDigits(c, 256)[0];
  }

  lemma SameTwo(b: Byte, c: Byte)
    requires ByteDigits(b, 16) == ByteDigits(c, 16)
    ensures b == c
  {
    var d, e := ByteDigits(b, 16), ByteDigits(c, 16);
    assert d[0] == e[0] && d[1] == e[1];
  }

  lemma SameFour(b: Byte, c: Byte)
    requires ByteDigits(b, 4) == ByteDigits(c, 4)
    ensures b == c
  {
    var d, e := ByteDigits(b, 4), ByteDigits(c, 4);
    assert d[0] == e[0] && d[1] == e[1] && d[2] == e[2] && d[3] == e[3];
    FromPairs(b);
    FromPairs(c);
  }

  lemma SameEight(b: Byte, c: Byte)
    requires ByteDigits(b, 2) == ByteDigits(c, 2)
    ensures b == c
  {
    var d, e := ByteDigits(b, 2), ByteDigits(c, 2);
    assert d[0] == e[0] && d[1] == e[1] && d[2] == e[2] && d[3] == e[3];
    assert d[4] == e[4] && d[5] == e[5] && d[6] == e[6] && d[7] == e[7];
    FromBits(b);
    FromBits(c);
  }

  ghost function DigitsOf(data: Bytes, width: nat): (r: Digits)
    requires GoodWidth(width)
    ensures Below(r, width) && (width == 16 ==> |r| == 2 * |data|)
  {
    if data == [] then [] else DigitsOf(data[..|data| - 1], width) + ByteDigits(data[|data| - 1], width)
  }

  // ----- the digits of a byte string are those of its number

  lemma AppendTwo(front: Digits, x: nat, y: nat, base: nat)
    ensures FromDigits(front + [x, y], base) == FromDigits(front, base) * (base * base) + x * base + y
  {
    FromDigitsLast(front, x, base);
    FromDigitsLast(front + [x], y, base);
    hide *;
    assert front + [x] + [y] == front + [x, y];
    SquareOut(FromDigits(front, base), x, base);
  }

  lemma SquareOut(f: int, x: int, base: int)
    ensures (f * base + x) * base == f * (base * base) + x * base
  {
  }

  lemma AppendFour(front: Digits, x: nat, y: nat, z: nat, u: nat, base: nat)
    ensures FromDigits(front + [x, y, z, u], base)
      == (FromDigits(front, base) * (base * base) + x * base + y) * (base * base) + z * base + u
  {
    AppendTwo(front, x, y, base);
    AppendTwo(front + [x, y], z, u, base);
    hide *;
    assert front + [x, y] + [z, u] == front + [x, y, z, u];
  }

  lemma AppendBits(front: Digits, b: Byte)
    ensures FromDigits(front + ByteDigits(b, 2), 2) == FromDigits(front, 2) * 256 + b
  {
    var d := ByteDigits(b, 2);
    FromBits(b);
    AppendFour(front, d[0], d[1], d[2], d[3], 2);
    AppendFour(front + [d[0], d[1], d[2], d[3]], d[4], d[5], d[6], d[7], 2);
    assert front + [d[0], d[1], d[2], d[3]] + [d[4], d[5], d[6], d[7]] == front + d;
  }

  lemma AppendPairs(front: Digits, b: Byte)
    ensures FromDigits(front + ByteDigits(b, 4), 4) == FromDigits(front, 4) * 256 + b
  {
    var d := ByteDigits(b, 4);
    FromPairs(b);
    AppendFour(front, d[0], d[1], d[2], d[3], 4);
    assert d == [d[0], d[1], d[2], d[3]];
  }

  lemma AppendNibbles(front: Digits, b: Byte)
    ensures FromDigits(front + ByteDigits(b, 16), 16) == FromDigits(front, 16) * 256 + b
  {
    var d := ByteDigits(b, 16);
    Quarter(b);
    Quarter(b / 4);
    AppendTwo(front, d[0], d[1], 16);
    assert d == [d[0], d[1]];
  }

  lemma AppendWhole(front: Digits, b: Byte)
    ensures FromDigits(front + ByteDigits(b, 256), 256) == FromDigits(front, 256) * 256 + b
  {
    FromDigitsLast(front, b, 256);
  }

  lemma AppendByte(front: Digits, b: Byte, width: nat)
    requires GoodWidth(width)
    ensures FromDigits(front + ByteDigits(b, width), width) == FromDigits(front, width) * 256 + b
  {
    hide ByteDigits, FromDigits;
    if width == 2 {
      AppendBits(front, b);
    } else if width == 4 {
      AppendPairs(front, b);
    } else if width == 16 {
      AppendNibbles(front, b);
    } else {
      AppendWhole(front, b);
    }
  }

  /** The digits of a byte string are those of its number, for every width. */
  lemma {:induction false} DigitsNumber(data: Bytes, width: nat)
    requires GoodWidth(width)
    ensures FromDigits(DigitsOf(data, width), width) == ByteStrings.FromBytes(data)
  {
    hide ByteDigits;
    if data != [] {
      DigitsNumber(data[..|data| - 1], width);
      AppendByte(DigitsOf(data[..|data| - 1], width), data[|data| - 1], width);
    }
  }

  /** Different keys of one length have different digits. */
  lemma {:induction false} DigitsInjective(a: Bytes, b: Bytes, width: nat)
    requires GoodWidth(width) && |a| == |b| && DigitsOf(a, width) == DigitsOf(b, width)
    ensures a == b
  {
    if |a| > 0 {
      DigitsSplit(a, b, width);
      DigitsInjective(a[..|a| - 1], b[..|b| - 1], width);
      ByteDigitsInjective(a[|a| - 1], b[|b| - 1], width);
      SameParts(a, b);
    }
  }

  lemma SameParts(a: Bytes, b: Bytes)
    requires |a| == |b| > 0 && a[..|a| - 1] == b[..|b| - 1] && a[|a| - 1] == b[|b| - 1]
    ensures a == b
  {
    assert a == a[..|a| - 1] + [a[|a| - 1]] && b == b[..|b| - 1] + [b[|b| - 1]];
  }

  /** The digits of the last byte, and those before. */
  lemma DigitsSplit(a: Bytes, b: Bytes, width: nat)
    requires GoodWidth(width) && |a| == |b| > 0 && DigitsOf(a, width) == DigitsOf(b, width)
    ensures DigitsOf(a[..|a| - 1], width) == DigitsOf(b[..|b| - 1], width)
    ensures ByteDigits(a[|a| - 1], width) == ByteDigits(b[|b| - 1], width)
  {
    hide ByteDigits;
    var last := |a| - 1;
    SameLength(a[..last], b[..last], width);
    SplitEqual(DigitsOf(a[..last], width), ByteDigits(a[last], width), DigitsOf(b[..last], width), ByteDigits(b[last], width));
  }

  lemma {:induction false} SameLength(a: Bytes, b: Bytes, width: nat)
    requires GoodWidth(width) && |a| == |b|
    ensures |DigitsOf(a, width)| == |DigitsOf(b, width)|
  {
    if |a| > 0 {
      SameLength(a[..|a| - 1], b[..|b| - 1], width);
    }
  }

  lemma SplitEqual(a: Digits, b: Digits, c: Digits, d: Digits)
    requires a + b == c + d && |a| == |c|
    ensures a == c && b == d
  {
    assert (a + b)[..|a|] == a && (c + d)[..|c|] == c;
    assert (a + b)[|a|..] == b && (c + d)[|c|..] == d;
  }

  method BytesToDigits(data: Bytes, width: nat) returns (digits: Digits)
    requires GoodWidth(width)
    ensures digits == DigitsOf(data, width)
  {
    hide ByteDigits;
    digits := [];
    for i := 0 to |data|
      invariant digits == DigitsOf(data[..i], width)
    {
      assert data[..i + 1][..i] == data[..i];
      var more := DigitsOfByte(data[i], width);
      digits := digits + more;
    }
    assert data[..|data|] == data;
  }

  /** From the most to the least significant digit. */
  method DigitsOfByte(b: Byte, width: nat) returns (digits: Digits)
    requires GoodWidth(width)
    ensures digits == ByteDigits(b, width)
  {
    hide ByteDigits;
    digits := [];
    var step := DigitBits(width).value;
    var shift: int := 8 - step;
    var k: nat := 0;
    StepTimes(width);
    while shift >= 0
      invariant k <= PerByte(width) && shift == 8 - step - StepSum(k, step)
      invariant digits == ByteDigits(b, width)[..k]
      decreases shift
    {
      StepIn(width, k);
      DigitAt(b, width, k);
      digits := digits + [b / BitValue(shift) % width];
      shift := shift - step;
      k := k + 1;
    }
    StepEnd(width, k);
  }

  /** k steps. */
  ghost function StepSum(k: nat, step: nat): nat {
    if k == 0 then 0 else StepSum(k - 1, step) + step
  }

  lemma StepTimes(width: nat)
    requires GoodWidth(width)
    ensures DigitBits(width).value >= 1
  {
  }

  lemma StepIn(width: nat, k: nat)
    requires GoodWidth(width) && StepSum(k, DigitBits(width).value) <= 8 - DigitBits(width).value
    ensures k < PerByte(width)
    ensures 8 - DigitBits(width).value - StepSum(k, DigitBits(width).value) == 8 - DigitBits(width).value - k * DigitBits(width).value
  {
    StepProduct(k, DigitBits(width).value);
  }

  lemma {:induction false} StepProduct(k: nat, step: nat)
    ensures StepSum(k, step) == k * step
  {
    if k != 0 {
      StepProduct(k - 1, step);
    }
  }

  lemma StepEnd(width: nat, k: nat)
    requires GoodWidth(width) && k <= PerByte(width)
    requires StepSum(k, DigitBits(width).value) > 8 - DigitBits(width).value
    ensures k == PerByte(width)
  {
    StepProduct(k, DigitBits(width).value);
  }

  lemma DigitAt(b: Byte, width: nat, k: nat)
    requires GoodWidth(width) && k < PerByte(width)
    ensures var step := DigitBits(width).value;
      0 <= 8 - step - k * step && ByteDigits(b, width)[k] == b / BitValue(8 - step - k * step) % width
  {
    hide ByteDigits, BitValue;
    if width == 2 {
      DigitAt2(b, k);
    } else if width == 4 {
      DigitAt4(b, k);
    } else if width == 16 {
      DigitAt16(b, k);
    } else {
      DigitAt256(b);
    }
  }

  lemma DigitAt2(b: Byte, k: nat)
    requires k < 8
    ensures ByteDigits(b, 2)[k] == b / BitValue(7 - k) % 2
  {
    BitValues();
    hide BitValue;
    assert k == 0 || k == 1 || k == 2 || k == 3 || k == 4 || k == 5 || k == 6 || k == 7;
  }

  lemma DigitAt4(b: Byte, k: nat)
    requires k < 4
    ensures ByteDigits(b, 4)[k] == b / BitValue(6 - 2 * k) % 4
  {
    BitValues();
    hide BitValue;
    assert k == 0 || k == 1 || k == 2 || k == 3;
  }

  lemma DigitAt16(b: Byte, k: nat)
    requires k < 2
    ensures ByteDigits(b, 16)[k] == b / BitValue(4 - 4 * k) % 16
  {
    BitValues();
    hide BitValue;
    assert k == 0 || k == 1;
  }

  lemma DigitAt256(b: Byte)
    ensures ByteDigits(b, 256)[0] == b / BitValue(0) % 256
  {
  }

  // ----- byte form of a path

  const ODD_FLAG: nat := 0x10
  const LEAF_FLAG: nat := 0x20
  const EXTENDED_MARKER: Byte := 0xFF

  /** Two digits to a byte. */
  ghost function Pack(nibbles: Digits): (r: Bytes)
    requires |nibbles| % 2 == 0 && Below(nibbles, 16)
    ensures |r| == |nibbles| / 2
  {
    if nibbles == [] then [] else Pack(nibbles[..|nibbles| - 2]) + [nibbles[|nibbles| - 2] * 16 + nibbles[|nibbles| - 1]]
  }

  ghost function HexPrefix(nibbles: Digits, isLeaf: bool): (r: Bytes)
    requires Below(nibbles, 16)
    ensures |r| == 1 + |nibbles| / 2
  {
    [FlagByte(nibbles, isLeaf)] + Pack(Paired(nibbles))
  }

  /** The flags, and the first digit of an odd number of digits. */
  ghost function FlagByte(nibbles: Digits, isLeaf: bool): Byte
    requires Below(nibbles, 16)
  {
    (if |nibbles| % 2 == 1 then ODD_FLAG + nibbles[0] else 0) + if isLeaf then LEAF_FLAG else 0
  }

  /** The digits that are packed two to a byte. */
  ghost function Paired(nibbles: Digits): (r: Digits)
    ensures |r| == 2 * (|nibbles| / 2) && (Below(nibbles, 16) ==> Below(r, 16))
  {
    if |nibbles| % 2 == 1 then nibbles[1..] else nibbles
  }

  /** For other widths: marker, flags, width, length in four bytes, digits. */
  ghost function ExtendedForm(digits: Digits, isLeaf: bool, width: nat): Bytes
    requires Below(digits, width) && width <= 255
  {
    [EXTENDED_MARKER, if isLeaf then 1 else 0, width] + ToBytes(|digits|, 4) + AsBytes(digits)
  }

  function AsBytes(digits: Digits): (r: Bytes)
    requires Below(digits, 256)
    ensures r == digits
  {
    digits
  }

  lemma {:induction false} UnpackPack(nibbles: Digits)
    requires |nibbles| % 2 == 0 && Below(nibbles, 16)
    ensures DigitsOf(Pack(nibbles), 16) == nibbles
  {
    if |nibbles| == 0 {
      PackNone(nibbles);
    } else {
      UnpackPack(nibbles[..|nibbles| - 2]);
      UnpackStep(nibbles);
    }
  }

  lemma PackNone(nibbles: Digits)
    requires |nibbles| == 0
    ensures DigitsOf(Pack(nibbles), 16) == nibbles
  {
  }

  lemma UnpackStep(nibbles: Digits)
    requires |nibbles| % 2 == 0 && Below(nibbles, 16) && |nibbles| > 0
    requires DigitsOf(Pack(nibbles[..|nibbles| - 2]), 16) == nibbles[..|nibbles| - 2]
    ensures DigitsOf(Pack(nibbles), 16) == nibbles
  {
    hide *;
    var front, b, pair := LastPair(nibbles);
    DigitsSnoc(Pack(front), b, 16);
  }

  /** The last byte and the two digits it holds. */
  lemma LastPair(nibbles: Digits) returns (front: Digits, b: Byte, pair: Digits)
    requires |nibbles| % 2 == 0 && Below(nibbles, 16) && |nibbles| > 0
    ensures front == nibbles[..|nibbles| - 2] && nibbles == front + pair
    ensures |front| % 2 == 0 && Below(front, 16) && GoodWidth(16)
    ensures Pack(nibbles) == Pack(front) + [b] && ByteDigits(b, 16) == pair
  {
    var x, y := nibbles[|nibbles| - 2], nibbles[|nibbles| - 1];
    front, b, pair := nibbles[..|nibbles| - 2], x * 16 + y, [x, y];
    TwoNibbles(x, y);
  }

  lemma DigitsSnoc(a: Bytes, b: Byte, width: nat)
    requires GoodWidth(width)
    ensures DigitsOf(a + [b], width) == DigitsOf(a, width) + ByteDigits(b, width)
  {
    assert (a + [b])[..|a|] == a;
  }

  lemma TwoNibbles(x: nat, y: nat)
    requires x < 16 && y < 16
    ensures ByteDigits(x * 16 + y, 16) == [x, y]
  {
  }

  lemma {:induction false} DigitsConcat(a: Bytes, b: Bytes, width: nat)
    requires GoodWidth(width)
    ensures DigitsOf(a + b, width) == DigitsOf(a, width) + DigitsOf(b, width)
  {
    hide ByteDigits;
    if |b| == 0 {
      assert a + b == a;
    } else {
      hide DigitsOf;
      var last := |b| - 1;
      DigitsConcat(a, b[..last], width);
      assert a + b == (a + b[..last]) + [b[last]] && b == b[..last] + [b[last]];
      DigitsSnoc(a + b[..last], b[last], width);
      DigitsSnoc(b[..last], b[last], width);
    }
  }

  lemma OneByte(b: Byte, width: nat)
    requires GoodWidth(width)
    ensures DigitsOf([b], width) == ByteDigits(b, width)
  {
    assert [b][..0] == [];
  }

  /** The flags in the first byte. */
  lemma FirstByte(nibbles: Digits, isLeaf: bool)
    requires Below(nibbles, 16)
    ensures var b := FlagByte(nibbles, isLeaf);
      && b < 0x40 && (b / ODD_FLAG % 2 == 1 <==> |nibbles| % 2 == 1) && (b / LEAF_FLAG % 2 == 1 <==> isLeaf)
      && |ByteDigits(b, 16)| == 2 && (|nibbles| % 2 == 1 ==> ByteDigits(b, 16)[1] == nibbles[0])
  {
  }

  /** What a decoder reads off the first byte, and the digits behind the prefix. */
  lemma HexPrefixDecodes(nibbles: Digits, isLeaf: bool)
    requires Below(nibbles, 16)
    ensures var r := HexPrefix(nibbles, isLeaf);
      && r[0] != EXTENDED_MARKER
      && (r[0] / ODD_FLAG % 2 == 1 <==> |nibbles| % 2 == 1)
      && (r[0] / LEAF_FLAG % 2 == 1 <==> isLeaf)
      && |DigitsOf(r, 16)| >= 2
      && DigitsOf(r, 16)[if |nibbles| % 2 == 1 then 1 else 2..] == nibbles
  {
    hide ByteDigits, Pack, FlagByte, DigitsOf;
    var b, rest := FlagByte(nibbles, isLeaf), Paired(nibbles);
    FirstByte(nibbles, isLeaf);
    OneByte(b, 16);
    DigitsConcat([b], Pack(rest), 16);
    UnpackPack(rest);
    SkipPrefix(ByteDigits(b, 16), nibbles, DigitsOf(HexPrefix(nibbles, isLeaf), 16));
  }

  /** Appendix C of the Ethereum Yellow Paper: the first digit is 0, 1, 2 or 3, for an even or odd number of
      digits of an extension or of a leaf; a zero follows an even one, and then come the digits. */
  lemma HexPrefixDigits(nibbles: Digits, isLeaf: bool)
    requires Below(nibbles, 16)
    ensures DigitsOf(HexPrefix(nibbles, isLeaf), 16)
      == [(if isLeaf then 2 else 0) + |nibbles| % 2] + (if |nibbles| % 2 == 1 then [] else [0]) + nibbles
  {
    hide ByteDigits, Pack, FlagByte, DigitsOf;
    var b, rest := FlagByte(nibbles, isLeaf), Paired(nibbles);
    FlagDigits(nibbles, isLeaf);
    OneByte(b, 16);
    DigitsConcat([b], Pack(rest), 16);
    UnpackPack(rest);
    PrefixAndRest((if isLeaf then 2 else 0) + |nibbles| % 2, nibbles, ByteDigits(b, 16) + rest);
  }

  lemma FlagDigits(nibbles: Digits, isLeaf: bool)
    requires Below(nibbles, 16)
    ensures ByteDigits(FlagByte(nibbles, isLeaf), 16)
      == [(if isLeaf then 2 else 0) + |nibbles| % 2, if |nibbles| % 2 == 1 then nibbles[0] else 0]
  {
  }

  lemma PrefixAndRest(first: nat, nibbles: Digits, d: Digits)
    requires d == [first, if |nibbles| % 2 == 1 then nibbles[0] else 0] + Paired(nibbles)
    ensures d == [first] + (if |nibbles| % 2 == 1 then [] else [0]) + nibbles
  {
    if |nibbles| % 2 == 1 {
      assert nibbles == [nibbles[0]] + nibbles[1..];
    }
  }

  /** The extended form in numbers: 255, the type, the width, the number of digits in four bytes, the digits. */
  lemma ExtendedLayout(digits: Digits, isLeaf: bool, width: nat)
    requires Below(digits, width) && width <= 255 && |digits| < Power256(4)
    ensures var r := ExtendedForm(digits, isLeaf, width);
      && |r| == 7 + |digits| && r[0] == 255 && r[1] == (if isLeaf then 1 else 0) && r[2] == width
      && ByteStrings.FromBytes(r[3..7]) == |digits| && r[7..] == digits
  {
    hide ToBytes, ByteStrings.FromBytes, Power256;
    var r := ExtendedForm(digits, isLeaf, width);
    assert r[3..7] == ToBytes(|digits|, 4);
    FromToBytes(|digits|, 4);
  }

  lemma SkipPrefix(first: Digits, nibbles: Digits, d: Digits)
    requires |first| == 2 && (|nibbles| % 2 == 1 ==> first[1] == nibbles[0])
    requires d == first + Paired(nibbles)
    ensures d[if |nibbles| % 2 == 1 then 1 else 2..] == nibbles
  {
    assert |nibbles| % 2 == 1 ==> d[1..] == [first[1]] + nibbles[1..];
  }

  // ----- paths

  class NibblePath {
    const width: nat
    var digits: Digits
    var offset: nat

    ghost predicate Valid()
      reads this
    {
      GoodWidth(width) && Below(digits, width) && offset <= |digits|
    }

    /** The digits that have not been consumed. */
    ghost function Rest(): (r: Digits)
      reads this
      requires Valid()
      ensures Below(r, width) && |r| == |digits| - offset
    {
      digits[offset..]
    }

    constructor FromDigits(digits: Digits, offset: nat, width: nat)
      requires GoodWidth(width) && Below(digits, width) && offset <= |digits|
      ensures Valid() && Rest() == digits[offset..] && this.width == width
    {
      this.width := width;
      this.digits := digits;
      this.offset := offset;
    }

    constructor FromBytes(data: Bytes, offset: nat, width: nat)
      requires GoodWidth(width) && offset <= |DigitsOf(data, width)|
      ensures Valid() && Rest() == DigitsOf(data, width)[offset..] && this.width == width
    {
      this.width := width;
      this.offset := offset;
      digits := [];
      new;
      var d := BytesToDigits(data, width);
      digits := d;
    }

    function Length(): (n: nat)
      reads this
      requires Valid()
      ensures n == |Rest()|
    {
      |digits| - offset
    }

    function At(idx: nat): (d: nat)
      reads this
      requires Valid() && idx < Length()
      ensures d == Rest()[idx] < width
    {
      digits[offset + idx]
    }

    method Equals(other: NibblePath) returns (same: bool)
      requires Valid() && other.Valid()
      ensures same <==> Rest() == other.Rest()
    {
      if Length() != other.Length() {
        return false;
      }
      for i := 0 to Length()
        invariant Rest()[..i] == other.Rest()[..i]
      {
        if At(i) != other.At(i) {
          return false;
        }
      }
      same := true;
    }

    method StartsWith(other: NibblePath) returns (b: bool)
      requires Valid() && other.Valid()
      ensures b <==> other.Rest() <= Rest()
    {
      if other.Length() > Length() {
        return false;
      }
      for i := 0 to other.Length()
        invariant forall k :: 0 <= k < i ==> Rest()[k] == other.Rest()[k]
      {
        if At(i) != other.At(i) {
          return false;
        }
      }
      b := true;
    }

    /** Cuts off digits in place. */
    method Consume(amount: nat)
      requires Valid() && amount <= Length()
      modifies this`offset
      ensures Valid() && Rest() == old(Rest())[amount..]
    {
      offset := offset + amount;
    }

    /** The common part as a path of its own. */
    method CommonPrefix(other: NibblePath) returns (prefix: NibblePath)
      requires Valid() && other.Valid()
      ensures fresh(prefix) && prefix.Valid() && prefix.width == width
      ensures prefix.Rest() == Rest()[..CommonLength(Rest(), other.Rest())]
    {
      var leastLen := if Length() < other.Length() then Length() else other.Length();
      var commonLen := 0;
      while commonLen < leastLen && At(commonLen) == other.At(commonLen)
        invariant commonLen <= leastLen
        invariant forall k :: 0 <= k < commonLen ==> Rest()[k] == other.Rest()[k]
      {
        commonLen := commonLen + 1;
      }
      CommonIs(Rest(), other.Rest(), commonLen);
      prefix := CreateNew(commonLen);
    }

    method CreateNew(length: nat) returns (path: NibblePath)
      requires Valid() && length <= Length()
      ensures fresh(path) && path.Valid() && path.width == width && path.Rest() == Rest()[..length]
    {
      var ds: Digits := [];
      for i := 0 to length
        invariant ds == Rest()[..i]
      {
        ds := ds + [At(i)];
      }
      path := new NibblePath.FromDigits(ds, 0, width);
    }

    /** Both paths, one after the other. */
    method Combine(other: NibblePath) returns (path: NibblePath)
      requires Valid() && other.Valid() && width == other.width
      ensures fresh(path) && path.Valid() && path.width == width && path.Rest() == Rest() + other.Rest()
    {
      var ds: Digits := [];
      var n := Length() + other.Length();
      for i := 0 to n
        invariant ds == (Rest() + other.Rest())[..i]
      {
        ds := ds + [if i < Length() then At(i) else other.At(i - Length())];
      }
      path := new NibblePath.FromDigits(ds, 0, width);
    }

    method Encode(isLeaf: bool) returns (output: Bytes)
      requires Valid() && width <= 255
      ensures output == if width == 16 then HexPrefix(Rest(), isLeaf) else ExtendedForm(Rest(), isLeaf, width)
    {
      if width == 16 {
        output := EncodeHexPrefix(isLeaf);
        return;
      }
      var length := Length();
      var body: Bytes := [];
      for i := 0 to length
        invariant body == Rest()[..i]
      {
        body := body + [At(i)];
      }
      output := [EXTENDED_MARKER, if isLeaf then 1 else 0, width] + ToBytes(length, 4) + body;
    }

    method EncodeHexPrefix(isLeaf: bool) returns (output: Bytes)
      requires Valid() && width == 16
      ensures output == HexPrefix(Rest(), isLeaf)
    {
      hide Pack;
      var nibblesLen := Length();
      ghost var nibbles := Rest();
      var prefix := if nibblesLen % 2 == 1 then ODD_FLAG + At(0) else 0;
      prefix := prefix + if isLeaf then LEAF_FLAG else 0;
      assert prefix == FlagByte(nibbles, isLeaf);
      var body := PackFrom(nibblesLen % 2);
      output := [prefix] + body;
    }

    method PackFrom(start: nat) returns (body: Bytes)
      requires Valid() && width == 16 && start == Length() % 2
      ensures body == Pack(Paired(Rest()))
    {
      hide Pack, DigitsOf, ByteDigits, HexPrefix;
      ghost var nibbles, pairs := Rest(), Length() / 2;
      assert Length() == start + 2 * pairs;
      body := [];
      var pos := start;
      ghost var done := 0;
      PackNothing(nibbles[start..start]);
      while pos < Length()
        invariant done <= pairs && pos == start + 2 * done
        invariant Even(pos - start) && body == Pack(nibbles[start..pos])
      {
        EvenMore(pos - start);
        PackMore(nibbles, start, pos);
        body := body + [At(pos) * 16 + At(pos + 1)];
        pos := pos + 2;
        done := done + 1;
      }
      assert nibbles[start..pos] == Paired(nibbles);
    }
  }

  predicate Even(n: int) {
    n % 2 == 0
  }

  lemma EvenMore(n: nat)
    requires Even(n)
    ensures Even(n + 2)
  {
  }

  lemma PackNothing(nibbles: Digits)
    requires nibbles == []
    ensures Pack(nibbles) == []
  {
  }

  lemma PackMore(nibbles: Digits, start: nat, pos: nat)
    requires Below(nibbles, 16) && start <= pos && pos + 2 <= |nibbles| && Even(pos - start)
    ensures Pack(nibbles[start..pos + 2]) == Pack(nibbles[start..pos]) + [nibbles[pos] * 16 + nibbles[pos + 1]]
  {
    var more := nibbles[start..pos + 2];
    assert more[..|more| - 2] == nibbles[start..pos];
  }

  /** How many digits two paths share at the beginning. */
  ghost function CommonLength(a: Digits, b: Digits): (n: nat)
    ensures n <= |a| && n <= |b| && a[..n] == b[..n]
    ensures n < |a| && n < |b| ==> a[n] != b[n]
  {
    if a == [] || b == [] || a[0] != b[0] then 0
    else
      var n := CommonLength(a[1..], b[1..]);
      FirstMore(a, n);
      FirstMore(b, n);
      n + 1
  }

  lemma FirstMore(a: Digits, n: nat)
    requires n < |a|
    ensures a[..n + 1] == [a[0]] + a[1..][..n]
  {
  }

  lemma {:induction false} CommonIs(a: Digits, b: Digits, n: nat)
    requires n <= |a| && n <= |b| && forall k :: 0 <= k < n ==> a[k] == b[k]
    requires n < |a| && n < |b| ==> a[n] != b[n]
    ensures CommonLength(a, b) == n
  {
    if n > 0 {
      assert a[0] == b[0];
      CommonIs(a[1..], b[1..], n - 1);
    }
  }

  /** The path and the type that a byte string stands for; None where the source raises. */
  ghost function DecodedPath(data: Bytes): (r: Option<(Digits, bool)>)
    ensures r.Some? ==> Below(r.value.0, 256)
  {
    if data == [] then None
    else if data[0] == EXTENDED_MARKER then ExtendedPath(data)
    else
      TwoDigits(data);
      Some((DigitsOf(data, 16)[if data[0] / ODD_FLAG % 2 == 1 then 1 else 2..], data[0] / LEAF_FLAG % 2 == 1))
  }

  ghost function ExtendedPath(data: Bytes): (r: Option<(Digits, bool)>)
    ensures r.Some? ==> Below(r.value.0, 256)
  {
    if |data| < 7 || !GoodWidth(data[2]) || |data| - 7 < ByteStrings.FromBytes(data[3..7]) then None
    else
      var digits := data[7..7 + ByteStrings.FromBytes(data[3..7])];
      if Below(digits, data[2]) then Some((digits, data[1] % 2 == 1)) else None
  }

  lemma TwoDigits(data: Bytes)
    ensures |DigitsOf(data, 16)| == 2 * |data|
  {
  }

  /** In numbers: a first byte other than 255 tells in its bit 4 whether the number of digits is odd, and in its
      bit 5 whether it is a leaf. */
  lemma DecodedFlags(data: Bytes)
    requires data != [] && data[0] != 255
    ensures |DigitsOf(data, 16)| == 2 * |data|
    ensures DecodedPath(data) == Some((DigitsOf(data, 16)[if data[0] / 16 % 2 == 1 then 1 else 2..], data[0] / 32 % 2 == 1))
  {
    TwoDigits(data);
  }

  /** Decoding undoes the hex-prefix form and the extended form. */
  lemma DecodesHexPrefix(nibbles: Digits, isLeaf: bool)
    requires Below(nibbles, 16)
    ensures DecodedPath(HexPrefix(nibbles, isLeaf)) == Some((nibbles, isLeaf))
  {
    hide HexPrefix, DigitsOf;
    HexPrefixDecodes(nibbles, isLeaf);
  }

  lemma DecodesExtended(digits: Digits, isLeaf: bool, width: nat)
    requires GoodWidth(width) && width <= 255 && Below(digits, width) && |digits| < Power256(4)
    ensures DecodedPath(ExtendedForm(digits, isLeaf, width)) == Some((digits, isLeaf))
  {
    hide DigitsOf, ToBytes, ByteStrings.FromBytes, Power256;
    var data := ExtendedForm(digits, isLeaf, width);
    assert data[0] == EXTENDED_MARKER && data[1] == (if isLeaf then 1 else 0) && data[2] == width && |data| == 7 + |digits|;
    assert data[3..7] == ToBytes(|digits|, 4);
    FromToBytes(|digits|, 4);
    assert data[7..7 + |digits|] == AsBytes(digits);
    assert ExtendedPath(data) == Some((digits, isLeaf));
  }

  /** Reads a path and its type. */
  method DecodeWithType(data: Bytes) returns (path: NibblePath?, isLeaf: bool)
    ensures path != null <==> DecodedPath(data).Some?
    ensures path != null ==> fresh(path) && path.Valid() && DecodedPath(data).value == (path.Rest(), isLeaf)
    ensures path != null && data[0] != EXTENDED_MARKER ==> path.width == 16
  {
    isLeaf := false;
    if |data| == 0 {
      return null, false;
    }
    hide DigitsOf;
    if data[0] == EXTENDED_MARKER {
      path, isLeaf := DecodeExtended(data);
      return;
    }
    var isOddLen := data[0] / ODD_FLAG % 2 == 1;
    isLeaf := data[0] / LEAF_FLAG % 2 == 1;
    TwoDigits(data);
    path := new NibblePath.FromBytes(data, if isOddLen then 1 else 2, 16);
  }

  method DecodeExtended(data: Bytes) returns (path: NibblePath?, isLeaf: bool)
    ensures path != null <==> ExtendedPath(data).Some?
    ensures path != null ==> fresh(path) && path.Valid() && ExtendedPath(data).value == (path.Rest(), isLeaf)
  {
    isLeaf := false;
    if |data| < 7 {
      return null, false;
    }
    var flags, width := data[1], data[2];
    var length := ByteStrings.FromBytes(data[3..7]);
    var digits := Slice(data, 7, 7 + length);
    if |digits| != length || !GoodWidth(width) {
      return null, false;
    }
    assert digits == data[7..7 + length];
    var small := AllBelow(digits, width);
    if !small {
      return null, false;
    }
    isLeaf := flags % 2 == 1;
    path := new NibblePath.FromDigits(digits, 0, width);
  }

  method AllBelow(digits: Digits, width: nat) returns (b: bool)
    ensures b <==> Below(digits, width)
  {
    for i := 0 to |digits|
      invariant forall k :: 0 <= k < i ==> digits[k] < width
    {
      if digits[i] >= width {
        return false;
      }
    }
    b := true;
  }
}
