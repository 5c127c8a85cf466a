/** Splitting a key into the chunks that select children: _get_key_chunks in
    tree/verkle_tree.py. */
module KeyChunks {
  import opened Wrappers
  import opened ByteStrings

  const TOTAL_BITS: nat := 256

  const KEY_BYTES: nat := 32

  /** int(math.log2(width)) */
  function FloorLog2(width: nat): (r: nat)
    requires width >= 1
    ensures BitValue(r) <= width < 2 * BitValue(r)
  {
    if width == 1 then 0 else 1 + FloorLog2(width / 2)
  }

  function ChunkAt(key: nat, bits: nat, i: nat): (r: nat)
    requires (i + 1) * bits <= TOTAL_BITS
    ensures r < BitValue(bits)
  {
    Remainder(key / BitValue(TOTAL_BITS - (i + 1) * bits), BitValue(bits));
    key / BitValue(TOTAL_BITS - (i + 1) * bits) % BitValue(bits)
  }

  lemma Remainder(v: int, n: nat)
    requires n >= 1
    ensures 0 <= v % n < n
  {
  }

  function ChunkCount(bits: nat): (n: nat)
    requires bits >= 1
    ensures n * bits <= TOTAL_BITS < (n + 1) * bits
  {
    CountBounds(bits);
    TOTAL_BITS / bits
  }

  lemma CountBounds(bits: nat)
    requires bits >= 1
    ensures 0 <= TOTAL_BITS / bits
    ensures (TOTAL_BITS / bits) * bits <= TOTAL_BITS < (TOTAL_BITS / bits + 1) * bits
  {
    var q := TOTAL_BITS / bits;
    assert TOTAL_BITS == q * bits + TOTAL_BITS % bits;
    assert (q + 1) * bits == q * bits + bits;
    DivNonnegative(TOTAL_BITS, bits);
  }

  lemma CountFits(i: nat, n: nat, bits: nat)
    requires i < n && n * bits <= TOTAL_BITS
    ensures (i + 1) * bits <= TOTAL_BITS
  {
    assert n * bits == (i + 1) * bits + (n - i - 1) * bits;
    NonnegativeProduct(n - i - 1, bits);
  }

  lemma NonnegativeProduct(a: nat, b: nat)
    ensures a * b >= 0
  {
  }

  function ChunkIn(key: nat, bits: nat, i: nat): (r: nat)
    requires bits >= 1 && i < ChunkCount(bits)
    ensures r < BitValue(bits)
  {
    CountFits(i, ChunkCount(bits), bits);
    ChunkAt(key, bits, i)
  }

  function Chunks(key: Bytes, bits: nat): (r: seq<nat>)
    requires bits >= 1
    ensures |r| == ChunkCount(bits)
    ensures forall i :: 0 <= i < |r| ==> r[i] == ChunkIn(FromBytes(key), bits, i) < BitValue(bits)
  {
    seq(ChunkCount(bits), i requires 0 <= i < ChunkCount(bits) => ChunkIn(FromBytes(key), bits, i))
  }

  /** Fails unless the width is a power of two; a width of one has no chunks at all. */
  method GetKeyChunks(key: Bytes, width: nat) returns (r: Option<seq<nat>>)
    requires width >= 1
    ensures r.Some? <==> width >= 2 && width == BitValue(FloorLog2(width))
    ensures r.Some? ==> FloorLog2(width) >= 1 && r.value == Chunks(key, FloorLog2(width))
    ensures r.Some? && |key| == KEY_BYTES && TOTAL_BITS % FloorLog2(width) == 0 ==> FromDigits(r.value, width) == FromBytes(key)
  {
    var bits := FloorLog2(width);
    if BitValue(bits) != width || bits == 0 {
      return None;
    }
    var keyInt := FromBytes(key);
    var chunks := [];
    for i := 0 to ChunkCount(bits)
      invariant |chunks| == i
      invariant forall k :: 0 <= k < i ==> chunks[k] == ChunkIn(keyInt, bits, k)
    {
      CountFits(i, ChunkCount(bits), bits);
      var shift := TOTAL_BITS - (i + 1) * bits;
      chunks := chunks + [keyInt / BitValue(shift) % width];
    }
    assert chunks == Chunks(key, bits);
    r := Some(chunks);
    if |key| == KEY_BYTES && TOTAL_BITS % bits == 0 {
      ChunksAreDigits(key, bits);
    }
  }

  // ----- the chunks are the digits of the key

  /** The first i chunks are the digits of the key above the other bits. */
  lemma {:induction false} PrefixNumber(key: nat, bits: nat, i: nat, chunks: seq<nat>)
    requires bits >= 1 && i <= ChunkCount(bits) && i * bits <= TOTAL_BITS && |chunks| == i
    requires forall k :: 0 <= k < i ==> chunks[k] == ChunkIn(key, bits, k)
    ensures FromDigits(chunks, BitValue(bits)) == key / BitValue(TOTAL_BITS - i * bits) % BitValue(i * bits)
  {
    hide BitValue;
    if i == 0 {
      assert 0 * bits == 0;
      assert BitValue(0) == 1 by { BitValues(); }
      ModuloOne(key / BitValue(TOTAL_BITS));
    } else {
      CountFits(i - 1, ChunkCount(bits), bits);
      assert i * bits == (i - 1) * bits + bits;
      NonnegativeProduct(i - 1, bits);
      PrefixNumber(key, bits, i - 1, chunks[..i - 1]);
      var shift := TOTAL_BITS - i * bits;
      NextPrefix(key, shift, bits);
      BitValueAdd((i - 1) * bits, bits);
      DivNonnegative(key, BitValue(shift + bits));
      Remainder(key / BitValue(shift), BitValue(bits));
      AppendDigit(key / BitValue(shift + bits), BitValue((i - 1) * bits), BitValue(bits), key / BitValue(shift) % BitValue(bits));
    }
  }

  lemma ModuloOne(n: nat)
    ensures n % 1 == 0
  {
  }

  lemma AppendDigit(q: nat, a: nat, b: nat, r: nat)
    requires a >= 1 && r < b
    ensures a * b >= 1 && (q * b + r) % (a * b) == (q % a) * b + r
  {
    var u, v := q / a, q % a;
    assert q == u * a + v;
    assert q * b + r == u * (a * b) + (v * b + r) by {
      assert (u * a) * b == u * (a * b);
      assert q * b == (u * a) * b + v * b;
    }
    assert 0 <= v * b + r < a * b by {
      Field.MulAtLeast(a - v, b);
      assert (a - v) * b == a * b - v * b;
      NonnegativeProduct(v, b);
    }
    assert a * b >= 1;
    Quotient(q * b + r, a * b, u, v * b + r);
  }

  /** For a key of any length: all chunks together are what is above the bits that are left over,
      out of the lowest 256 bits. */
  lemma ChunksNumber(key: Bytes, bits: nat)
    requires bits >= 1
    ensures ChunkCount(bits) * bits <= TOTAL_BITS
    ensures FromDigits(Chunks(key, bits), BitValue(bits))
      == FromBytes(key) / BitValue(TOTAL_BITS - ChunkCount(bits) * bits) % BitValue(ChunkCount(bits) * bits)
  {
    PrefixNumber(FromBytes(key), bits, ChunkCount(bits), Chunks(key, bits));
  }

  /** When no bits are left over, the chunks are the digits of the key. */
  lemma ChunksAreDigits(key: Bytes, bits: nat)
    requires bits >= 1 && |key| == KEY_BYTES && TOTAL_BITS % bits == 0
    ensures FromDigits(Chunks(key, bits), BitValue(bits)) == FromBytes(key)
  {
    hide BitValue;
    ChunksNumber(key, bits);
    AllBits(bits);
    KeyFits(key);
    assert BitValue(0) == 1 by { BitValues(); }
    Quotient(FromBytes(key), BitValue(TOTAL_BITS), 0, FromBytes(key));
  }

  /** With 256 children the chunks of a key are its bytes. */
  lemma ChunksOfWidth256(key: Bytes)
    requires |key| == KEY_BYTES
    ensures Chunks(key, 8) == key
  {
    assert BitValue(8) == 256 by { BitValues(); assert BitValue(8) == 2 * BitValue(7); }
    hide BitValue;
    ChunksAreDigits(key, 8);
    BytesAreDigits(key);
    FromDigitsInjective(Chunks(key, 8), key, 256);
  }

  // ----- which widths keep keys apart

  /** Both numbers agree above the chunks that have been compared. */
  lemma {:induction false} EqualPrefixes(a: nat, b: nat, bits: nat, i: nat)
    requires bits >= 1 && i <= ChunkCount(bits) && i * bits <= TOTAL_BITS
    requires a < BitValue(TOTAL_BITS) && b < BitValue(TOTAL_BITS)
    requires forall k :: 0 <= k < i ==> ChunkIn(a, bits, k) == ChunkIn(b, bits, k)
    ensures a / BitValue(TOTAL_BITS - i * bits) == b / BitValue(TOTAL_BITS - i * bits)
  {
    hide BitValue;
    if i == 0 {
      Quotient(a, BitValue(TOTAL_BITS), 0, a);
      Quotient(b, BitValue(TOTAL_BITS), 0, b);
      assert 0 * bits == 0;
    } else {
      CountFits(i - 1, ChunkCount(bits), bits);
      assert i * bits == (i - 1) * bits + bits;
      NonnegativeProduct(i - 1, bits);
      EqualPrefixes(a, b, bits, i - 1);
      assert ChunkIn(a, bits, i - 1) == ChunkIn(b, bits, i - 1);
      NextPrefix(a, TOTAL_BITS - i * bits, bits);
      NextPrefix(b, TOTAL_BITS - i * bits, bits);
    }
  }

  /** A longer prefix is the shorter one followed by a chunk. */
  lemma NextPrefix(a: nat, shift: nat, bits: nat)
    ensures a / BitValue(shift) == a / BitValue(shift + bits) * BitValue(bits) + a / BitValue(shift) % BitValue(bits)
  {
    BitValueAdd(shift, bits);
    DivTwice(a, BitValue(shift), BitValue(bits));
    var q, d := a / BitValue(shift), BitValue(bits);
    assert q == (q / d) * d + q % d;
  }

  lemma {:induction false} BytesAreBits(k: nat)
    ensures Power256(k) == BitValue(8 * k)
  {
    if k != 0 {
      BytesAreBits(k - 1);
      assert BitValue(8) == 256 by { BitValues(); assert BitValue(8) == 2 * BitValue(7); }
      BitValueAdd(8, 8 * (k - 1));
    }
  }

  lemma KeyFits(key: Bytes)
    requires |key| == KEY_BYTES
    ensures FromBytes(key) < BitValue(TOTAL_BITS)
  {
    ToFromBytes(key);
    BytesAreBits(KEY_BYTES);
  }

  /** When the chunks use up all bits, different keys have different chunks. */
  lemma ChunksApart(a: Bytes, b: Bytes, bits: nat)
    requires bits >= 1 && TOTAL_BITS % bits == 0 && |a| == |b| == KEY_BYTES
    requires Chunks(a, bits) == Chunks(b, bits)
    ensures a == b
  {
    hide BitValue;
    KeyFits(a);
    KeyFits(b);
    var n := ChunkCount(bits);
    assert n * bits == TOTAL_BITS by {
      AllBits(bits);
    }
    forall k | 0 <= k < n
      ensures ChunkIn(FromBytes(a), bits, k) == ChunkIn(FromBytes(b), bits, k)
    {
      assert Chunks(a, bits)[k] == Chunks(b, bits)[k];
    }
    EqualPrefixes(FromBytes(a), FromBytes(b), bits, n);
    assert BitValue(0) == 1 by { BitValues(); }
    FromBytesInjective(a, b);
  }

  lemma AllBits(bits: nat)
    requires bits >= 1
    ensures TOTAL_BITS % bits == 0 <==> ChunkCount(bits) * bits == TOTAL_BITS
  {
    assert TOTAL_BITS == (TOTAL_BITS / bits) * bits + TOTAL_BITS % bits;
  }

  function ZeroKey(): (r: Bytes)
    ensures |r| == KEY_BYTES
  {
    seq(KEY_BYTES, _ => 0)
  }

  function OneKey(): (r: Bytes)
    ensures |r| == KEY_BYTES
  {
    seq(KEY_BYTES - 1, _ => 0) + [1]
  }

  lemma {:induction false} ZerosValue(bs: Bytes)
    requires forall i :: 0 <= i < |bs| ==> bs[i] == 0
    ensures FromBytes(bs) == 0
  {
    if bs != [] {
      ZerosValue(bs[..|bs| - 1]);
    }
  }

  /** When bits are left over, the keys zero and one are not told apart. */
  lemma LastBitLost(bits: nat)
    requires bits >= 1 && TOTAL_BITS % bits != 0
    ensures ZeroKey() != OneKey() && Chunks(ZeroKey(), bits) == Chunks(OneKey(), bits)
  {
    hide BitValue;
    ZerosValue(ZeroKey());
    assert OneKey()[..KEY_BYTES - 1] == seq(KEY_BYTES - 1, _ => 0);
    ZerosValue(OneKey()[..KEY_BYTES - 1]);
    assert FromBytes(OneKey()) == 1;
    assert ZeroKey()[KEY_BYTES - 1] != OneKey()[KEY_BYTES - 1];
    AllBits(bits);
    forall i | 0 <= i < ChunkCount(bits)
      ensures ChunkIn(0, bits, i) == ChunkIn(1, bits, i)
    {
      CountFits(i, ChunkCount(bits), bits);
      ShiftLeft(i, ChunkCount(bits), bits);
      NothingLeft(TOTAL_BITS - (i + 1) * bits);
    }
    assert forall i :: 0 <= i < ChunkCount(bits) ==> Chunks(ZeroKey(), bits)[i] == Chunks(OneKey(), bits)[i];
  }

  lemma ShiftLeft(i: nat, n: nat, bits: nat)
    requires i < n && n * bits < TOTAL_BITS
    ensures (i + 1) * bits < TOTAL_BITS
  {
    assert n * bits == (i + 1) * bits + (n - i - 1) * bits;
    NonnegativeProduct(n - i - 1, bits);
  }

  lemma NothingLeft(shift: nat)
    requires shift >= 1
    ensures 0 / BitValue(shift) == 0 && 1 / BitValue(shift) == 0
  {
    Quotient(0, BitValue(shift), 0, 0);
    Quotient(1, BitValue(shift), 0, 1);
  }

  /** Chunks identify keys exactly when the chunk size divides the size of a key. */
  lemma ChunksIdentify(bits: nat)
    requires bits >= 1
    ensures (forall a: Bytes, b: Bytes :: |a| == |b| == KEY_BYTES && Chunks(a, bits) == Chunks(b, bits) ==> a == b)
      <==> TOTAL_BITS % bits == 0
  {
    if TOTAL_BITS % bits == 0 {
      forall a: Bytes, b: Bytes | |a| == |b| == KEY_BYTES && Chunks(a, bits) == Chunks(b, bits)
        ensures a == b
      {
        ChunksApart(a, b, bits);
      }
    } else {
      LastBitLost(bits);
    }
  }

  // ----- stem and suffix

  /** A power of two whose exponent divides the size of a key; a chunk must fit into a byte. */
  ghost predicate GoodWidth(width: nat) {
    && 2 <= width <= 256 && width == BitValue(FloorLog2(width))
    && FloorLog2(width) >= 1 && TOTAL_BITS % FloorLog2(width) == 0
  }

  lemma PositiveFactor(a: int, b: int)
    requires a * b > 0 && b > 0
    ensures a > 0
  {
    Field.MulAtLeast(a, b);
  }

  lemma {:induction false} BitValueGrows(a: nat, b: nat)
    requires a <= b
    ensures BitValue(a) <= BitValue(b)
  {
    if a < b {
      BitValueGrows(a, b - 1);
    }
  }

  lemma BitValueSmall(k: nat)
    ensures BitValue(k) <= 256 ==> k <= 8
  {
    assert BitValue(9) == 2 * BitValue(8) == 4 * BitValue(7) == 512 by { BitValues(); }
    if k >= 9 {
      BitValueGrows(9, k);
    }
  }

  lemma CountRange(width: nat)
    requires GoodWidth(width)
    ensures 2 <= ChunkCount(FloorLog2(width)) <= 256
  {
    hide BitValue;
    var bits := FloorLog2(width);
    BitValueSmall(bits);
    AllBits(bits);
    FactorRange(ChunkCount(bits), bits);
  }

  lemma FactorRange(n: nat, bits: nat)
    requires n * bits == TOTAL_BITS && 1 <= bits <= 8
    ensures 2 <= n <= 256
  {
    assert (n - 1) * bits == n * bits - bits;
    PositiveFactor(n - 1, bits);
    NonnegativeProduct(n, bits - 1);
    assert n * bits == n + n * (bits - 1);
  }

  /** The number of chunks before the last. */
  ghost function StemLength(width: nat): (m: nat)
    requires GoodWidth(width)
    ensures 1 <= m < 256
  {
    CountRange(width);
    ChunkCount(FloorLog2(width)) - 1
  }

  ghost function StemOf(key: Bytes, width: nat): (r: Bytes)
    requires GoodWidth(width)
    ensures |r| == StemLength(width) && forall i :: 0 <= i < |r| ==> r[i] < width
  {
    CountRange(width);
    Chunks(key, FloorLog2(width))[..StemLength(width)]
  }

  ghost function SuffixOf(key: Bytes, width: nat): (r: nat)
    requires GoodWidth(width)
    ensures r < width
  {
    CountRange(width);
    Chunks(key, FloorLog2(width))[StemLength(width)]
  }

  /** Stem and suffix together identify a key. */
  lemma PathsApart(a: Bytes, b: Bytes, width: nat)
    requires GoodWidth(width) && |a| == |b| == KEY_BYTES
    requires StemOf(a, width) == StemOf(b, width) && SuffixOf(a, width) == SuffixOf(b, width)
    ensures a == b
  {
    var bits, m := FloorLog2(width), StemLength(width);
    var c, d := Chunks(a, bits), Chunks(b, bits);
    forall i | 0 <= i < |c|
      ensures c[i] == d[i]
    {
      assert i < m ==> c[i] == StemOf(a, width)[i] == StemOf(b, width)[i] == d[i];
    }
    assert c == d;
    ChunksApart(a, b, bits);
  }

  // ----- every path belongs to a key

  ghost predicate SmallChunks(chunks: seq<nat>, bits: nat) {
    forall i :: 0 <= i < |chunks| ==> chunks[i] < BitValue(bits)
  }

  /** Below n chunks lie n * bits bits. */
  lemma {:induction false} ChunksFit(chunks: seq<nat>, bits: nat)
    requires SmallChunks(chunks, bits)
    ensures 0 <= |chunks| * bits && FromDigits(chunks, BitValue(bits)) < BitValue(|chunks| * bits)
  {
    hide BitValue;
    if chunks == [] {
      assert 0 * bits == 0;
      assert BitValue(0) == 1 by { BitValues(); }
    } else {
      var front, d := chunks[..|chunks| - 1], BitValue(bits);
      ChunksFit(front, bits);
      assert |chunks| * bits == bits + |front| * bits;
      BitValueAdd(bits, |front| * bits);
      DigitBound(FromDigits(front, d), BitValue(|front| * bits), d, chunks[|chunks| - 1]);
    }
  }

  lemma DigitBound(v: nat, n: nat, d: nat, c: nat)
    requires v < n && c < d
    ensures v * d + c < d * n
  {
    assert d * n == v * d + (n - v) * d;
    Field.MulAtLeast(n - v, d);
  }

  /** The key with the given stem and suffix. */
  lemma KeyFor(stem: seq<nat>, suffix: nat, width: nat) returns (key: Bytes)
    requires GoodWidth(width) && |stem| == StemLength(width) && suffix < width
    requires forall i :: 0 <= i < |stem| ==> stem[i] < width
    ensures |key| == KEY_BYTES && StemOf(key, width) == stem && SuffixOf(key, width) == suffix
  {
    hide BitValue, ToBytes, FromBytes, FloorLog2, Power256, FromDigits;
    var bits, chunks := FloorLog2(width), stem + [suffix];
    CountRange(width);
    AllBits(bits);
    ChunksFit(chunks, bits);
    BytesAreBits(KEY_BYTES);
    var v := FromDigits(chunks, width);
    key := ToBytes(v, KEY_BYTES);
    FromToBytes(v, KEY_BYTES);
    ChunksAreDigits(key, bits);
    FromDigitsInjective(Chunks(key, bits), chunks, width);
    assert chunks[..|stem|] == stem;
  }

  /** Stem and suffix are the digits of the key in their order, the suffix being the last one. */
  lemma StemAndSuffix(key: Bytes, width: nat)
    requires GoodWidth(width) && |key| == KEY_BYTES
    ensures FromDigits(StemOf(key, width) + [SuffixOf(key, width)], width) == FromBytes(key)
  {
    hide BitValue, FromBytes, FloorLog2, FromDigits;
    var bits := FloorLog2(width);
    CountRange(width);
    assert StemOf(key, width) + [SuffixOf(key, width)] == Chunks(key, bits);
    ChunksAreDigits(key, bits);
  }
}
