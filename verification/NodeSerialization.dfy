/** Byte form of the nodes of a Verkle tree: verkle/serialization.py, without compression. */
module NodeSerialization {
  import opened Wrappers
  import opened ByteStrings

  type Children = seq<Option<Bytes>>

  /** What a node holds besides its commitment. */
  datatype Node =
    | Internal(children: Children)
    | Suffix(values: Children)
    | Extension(stem: Bytes, child: Option<Bytes>)

  datatype Point = Point(x: nat, y: nat)

  const PREFIX_INTERNAL: Byte := 0
  const PREFIX_EXTENSION: Byte := 1
  const PREFIX_SUFFIX: Byte := 2

  /** References and values take 32 bytes. */
  ghost predicate References(children: Children) {
    forall i :: 0 <= i < |children| && children[i].Some? ==> |children[i].value| == 32
  }

  /** A coordinate whose byte count fits into one byte. */
  predicate SizedPoint(c: Point) {
    ByteLength(c.x) < 256 && ByteLength(c.y) < 256
  }

  ghost predicate SizedNode(n: Node) {
    match n
    case Internal(children) => |children| < 65536 && References(children)
    case Suffix(values) => |values| < 65536 && References(values)
    case Extension(stem, child) => |stem| < 256 && child.Some? && |child.value| == 32
  }

  function PointBytes(c: Point): Bytes
    requires SizedPoint(c)
  {
    [ByteLength(c.x)] + ToBytes(c.x, ByteLength(c.x)) + ([ByteLength(c.y)] + ToBytes(c.y, ByteLength(c.y)))
  }

  /** The children that are present, in order. */
  function ChildData(children: Children): Bytes {
    if children == [] then []
    else
      var last := |children| - 1;
      ChildData(children[..last]) + if children[last].Some? then children[last].value else []
  }

  /** One bit for every child, and nothing else. */
  ghost predicate BitmapOf(bitmap: Bytes, children: Children) {
    && |bitmap| == (|children| + 7) / 8
    && forall i: nat :: i < 8 * |bitmap| ==> (HasBit(bitmap[i / 8], i % 8) <==> i < |children| && children[i].Some?)
  }

  ghost predicate EncodesArray(data: Bytes, prefix: Byte, c: Point, children: Children)
    requires SizedPoint(c) && |children| < 65536
  {
    exists bitmap: Bytes :: BitmapOf(bitmap, children) &&
      data == ArrayBytes(prefix, c, children, bitmap)
  }

  function ArrayBytes(prefix: Byte, c: Point, children: Children, bitmap: Bytes): Bytes
    requires SizedPoint(c) && |children| < 65536
  {
    [prefix] + (PointBytes(c) + (ToBytes(|children|, 2) + (bitmap + ChildData(children))))
  }

  function ExtensionBytes(c: Point, stem: Bytes, child: Bytes): Bytes
    requires SizedPoint(c) && |stem| < 256
  {
    [PREFIX_EXTENSION] + (PointBytes(c) + ([|stem|] + (stem + child)))
  }

  /** The data is a serialisation of the node with that commitment. */
  ghost predicate Encodes(data: Bytes, c: Point, n: Node)
    requires SizedPoint(c) && SizedNode(n)
  {
    match n
    case Internal(children) => EncodesArray(data, PREFIX_INTERNAL, c, children)
    case Suffix(values) => EncodesArray(data, PREFIX_SUFFIX, c, values)
    case Extension(stem, child) => data == ExtensionBytes(c, stem, child.value)
  }

  // ----- writing

  method SerializeArrayNode(prefix: Byte, c: Point, children: Children) returns (data: Bytes)
    requires SizedPoint(c) && |children| < 65536
    ensures EncodesArray(data, prefix, c, children)
  {
    data := [prefix] + (PointBytes(c) + ToBytes(|children|, 2));
    var bitmap, childData := CollectChildren(children);
    data := data + bitmap + childData;
    hide BitmapOf, PointBytes, ChildData;
    assert data == ArrayBytes(prefix, c, children, bitmap);
  }

  /** The first n bits say which children there are; the others are zero. */
  ghost predicate BitsUpTo(bitmap: Bytes, children: Children, n: nat)
    requires n <= |children|
  {
    && |bitmap| == (|children| + 7) / 8
    && forall k: nat :: k < 8 * |bitmap| ==> (HasBit(bitmap[k / 8], k % 8) <==> k < n && children[k].Some?)
  }

  method CollectChildren(children: Children) returns (bitmap: Bytes, childData: Bytes)
    ensures BitmapOf(bitmap, children) && childData == ChildData(children)
  {
    bitmap, childData := seq((|children| + 7) / 8, _ => 0), [];
    FirstBits(bitmap, children);
    hide *;
    for i := 0 to |children|
      invariant BitsUpTo(bitmap, children, i)
      invariant childData == ChildData(children[..i])
    {
      ByteOfBit(bitmap, children, i);
      NextBit(bitmap, children, i);
      NextData(children, i);
      if children[i].Some? {
        bitmap := bitmap[i / 8 := SetBit(bitmap[i / 8], i % 8)];
        childData := childData + children[i].value;
      }
    }
    AllBits(bitmap, children);
    assert children[..|children|] == children;
  }

  lemma FirstBits(bitmap: Bytes, children: Children)
    requires |bitmap| == (|children| + 7) / 8 && forall k :: 0 <= k < |bitmap| ==> bitmap[k] == 0
    ensures BitsUpTo(bitmap, children, 0) && ChildData(children[..0]) == []
  {
    hide HasBit;
    NoBits(bitmap);
  }

  lemma AllBits(bitmap: Bytes, children: Children)
    requires BitsUpTo(bitmap, children, |children|)
    ensures BitmapOf(bitmap, children)
  {
    hide HasBit;
  }

  lemma ByteOfBit(bitmap: Bytes, children: Children, i: nat)
    requires i < |children| && BitsUpTo(bitmap, children, i)
    ensures i / 8 < |bitmap|
  {
  }

  lemma NextBit(bitmap: Bytes, children: Children, i: nat)
    requires i < |children| && i / 8 < |bitmap| && BitsUpTo(bitmap, children, i)
    ensures BitsUpTo(if children[i].Some? then bitmap[i / 8 := SetBit(bitmap[i / 8], i % 8)] else bitmap, children, i + 1)
  {
    hide HasBit, SetBit;
    if children[i].Some? {
      BitAdded(bitmap, bitmap[i / 8 := SetBit(bitmap[i / 8], i % 8)], i);
    }
  }

  lemma NextData(children: Children, i: nat)
    requires i < |children|
    ensures ChildData(children[..i + 1]) == ChildData(children[..i]) + if children[i].Some? then children[i].value else []
  {
    assert children[..i + 1][..i] == children[..i];
  }

  lemma NoBits(bitmap: Bytes)
    requires forall k :: 0 <= k < |bitmap| ==> bitmap[k] == 0
    ensures forall k: nat :: k < 8 * |bitmap| ==> !HasBit(bitmap[k / 8], k % 8)
  {
    forall k: nat | k < 8 * |bitmap|
      ensures !HasBit(bitmap[k / 8], k % 8)
    {
      ZeroBit(k % 8);
    }
  }

  lemma ZeroBit(bit: nat)
    ensures !HasBit(0, bit)
  {
    Quotient(0, BitValue(bit), 0, 0);
  }

  lemma BitAdded(before: Bytes, after: Bytes, i: nat)
    requires i < 8 * |before| && after == before[i / 8 := SetBit(before[i / 8], i % 8)]
    ensures forall k: nat :: k < 8 * |after| ==>
      (HasBit(after[k / 8], k % 8) <==> k == i || HasBit(before[k / 8], k % 8))
  {
    forall k: nat | k < 8 * |after|
      ensures HasBit(after[k / 8], k % 8) <==> k == i || HasBit(before[k / 8], k % 8)
    {
      if k / 8 == i / 8 {
        SetBitHas(before[i / 8], i % 8, k % 8);
      }
    }
  }

  method SerializeExtensionNode(c: Point, stem: Bytes, child: Bytes) returns (data: Bytes)
    requires SizedPoint(c) && |stem| < 256
    ensures data == ExtensionBytes(c, stem, child)
  {
    data := [PREFIX_EXTENSION] + PointBytes(c);
    data := data + [|stem|];
    data := data + stem;
    data := data + child;
  }

  // ----- reading

  /** Reads a length byte and that many bytes as a number. */
  method ReadNumber(data: Bytes, idx: nat, ghost n: nat, ghost rest: Bytes) returns (r: Option<nat>, next: nat)
    ensures r.Some? ==> idx < next
    ensures idx <= |data| && ByteLength(n) < 256 && data[idx..] == [ByteLength(n)] + ToBytes(n, ByteLength(n)) + rest ==>
      r == Some(n) && next <= |data| && data[next..] == rest
  {
    if idx >= |data| {
      return None, idx;
    }
    var len := data[idx];
    next := idx + 1 + len;
    r := Some(FromBytes(Slice(data, idx + 1, next)));
    if ByteLength(n) < 256 && data[idx..] == [ByteLength(n)] + ToBytes(n, ByteLength(n)) + rest {
      hide *;
      NumberRead(data, idx, n, rest);
    }
  }

  lemma NumberRead(data: Bytes, idx: nat, n: nat, rest: Bytes)
    requires idx <= |data| && ByteLength(n) < 256 && data[idx..] == [ByteLength(n)] + ToBytes(n, ByteLength(n)) + rest
    ensures idx < |data| && data[idx] == ByteLength(n)
    ensures var next := idx + 1 + ByteLength(n);
      next <= |data| && FromBytes(Slice(data, idx + 1, next)) == n && data[next..] == rest
  {
    hide *;
    FromToBytes(n, ByteLength(n));
    AfterLength(data, idx, ByteLength(n), ToBytes(n, ByteLength(n)), rest);
  }

  lemma AfterLength(data: Bytes, idx: nat, len: Byte, digits: Bytes, rest: Bytes)
    requires idx <= |data| && |digits| == len && data[idx..] == [len] + digits + rest
    ensures idx < |data| && data[idx] == len
    ensures idx + 1 + len <= |data| && Slice(data, idx + 1, idx + 1 + len) == digits && data[idx + 1 + len..] == rest
  {
    var tail := data[idx..];
    assert tail[0] == data[idx];
    assert data[idx + 1..idx + 1 + len] == tail[1..1 + len] == digits;
    assert data[idx + 1 + len..] == tail[1 + len..] == rest;
  }

  method ReadPoint(data: Bytes, idx: nat, ghost c: Point, ghost rest: Bytes) returns (r: Option<Point>, next: nat)
    ensures idx <= |data| && SizedPoint(c) && data[idx..] == PointBytes(c) + rest ==>
      r == Some(c) && next <= |data| && data[next..] == rest
  {
    hide PointBytes, ToBytes, ByteLength;
    var x, y;
    ghost var tail := if SizedPoint(c) then NumberBytes(c.y) + rest else rest;
    if SizedPoint(c) {
      PointParts(c, rest);
    }
    x, next := ReadNumber(data, idx, c.x, tail);
    if x.None? {
      return None, next;
    }
    y, next := ReadNumber(data, next, c.y, rest);
    if y.None? {
      return None, next;
    }
    r := Some(Point(x.value, y.value));
  }

  function NumberBytes(n: nat): Bytes
    requires ByteLength(n) < 256
  {
    [ByteLength(n)] + ToBytes(n, ByteLength(n))
  }

  lemma PointParts(c: Point, rest: Bytes)
    requires SizedPoint(c)
    ensures PointBytes(c) + rest == [ByteLength(c.x)] + ToBytes(c.x, ByteLength(c.x)) + (NumberBytes(c.y) + rest)
    ensures NumberBytes(c.y) + rest == [ByteLength(c.y)] + ToBytes(c.y, ByteLength(c.y)) + rest
  {
  }

  method DeserializeArrayNode(data: Bytes, idx: nat, ghost prefix: Byte, ghost c: Point, ghost children: Children)
    returns (r: Option<(Point, Children)>)
    ensures idx == 1 && SizedPoint(c) && |children| < 65536 && References(children) && EncodesArray(data, prefix, c, children) ==>
      r == Some((c, children))
  {
    ghost var good := idx == 1 && SizedPoint(c) && |children| < 65536 && References(children) && EncodesArray(data, prefix, c, children);
    ghost var bitmap': Bytes := [];
    ghost var rest: Bytes := [];
    hide *;
    if good {
      bitmap', rest := ArrayParts(data, prefix, c, children);
    }
    var commitment, next := ReadPoint(data, idx, c, rest);
    if commitment.None? {
      return None;
    }
    var hashes := ReadHashes(data, next, good, children, bitmap', rest);
    if hashes.None? {
      return None;
    }
    r := Some((commitment.value, hashes.value));
  }

  method ReadHashes(data: Bytes, next: nat, ghost good: bool, ghost children: Children, ghost bitmap': Bytes, ghost rest: Bytes)
    returns (r: Option<Children>)
    requires good ==> |children| < 65536 && References(children) && BitmapOf(bitmap', children) && |bitmap'| == (|children| + 7) / 8
    requires good ==> rest == ToBytes(|children|, 2) + (bitmap' + ChildData(children)) && next <= |data| && data[next..] == rest
    ensures good ==> r == Some(children)
  {
    hide *;
    var bf := FromBytes(Slice(data, next, next + 2));
    var start := next + 2;
    var bitmapBytes := (bf + 7) / 8;
    var bitmap := Slice(data, start, start + bitmapBytes);
    var position := start + bitmapBytes;
    if good {
      HeaderRead(data, next, start, position, children, bitmap', rest);
    }
    r := ReadChildren(data, bitmap, position, bf, good, children);
  }

  /** A slot for every bit; those whose bit is set take the next 32 bytes. */
  method ReadChildren(data: Bytes, bitmap: Bytes, base: nat, bf: nat, ghost good: bool, ghost children: Children)
    returns (r: Option<Children>)
    requires good ==> bf == |children| && References(children) && BitmapOf(bitmap, children)
    requires good ==> base <= |data| && data[base..] == ChildData(children)
    ensures good ==> r == Some(children)
  {
    hide *;
    var hashes: Children := [];
    var position := base;
    NoData(children);
    for i := 0 to bf
      invariant good ==> position == base + |ChildData(children[..i])| && hashes == children[..i]
    {
      if good {
        BitOf(bitmap, children, i);
        NextChild(data, base, children, i);
        assert children[..i + 1] == children[..i] + [children[i]];
      }
      if i / 8 >= |bitmap| {
        return None;
      }
      if HasBit(bitmap[i / 8], i % 8) {
        hashes := hashes + [Some(Slice(data, position, position + 32))];
        position := position + 32;
      } else {
        hashes := hashes + [None];
      }
    }
    assert good ==> children[..|children|] == children;
    r := Some(hashes);
  }

  lemma NoData(children: Children)
    ensures ChildData(children[..0]) == []
  {
  }

  lemma BitOf(bitmap: Bytes, children: Children, i: nat)
    requires BitmapOf(bitmap, children) && i < |children|
    ensures i / 8 < |bitmap| && (HasBit(bitmap[i / 8], i % 8) <==> children[i].Some?)
  {
    hide HasBit;
  }

  lemma BitmapLength(bitmap: Bytes, children: Children)
    requires BitmapOf(bitmap, children)
    ensures |bitmap| == (|children| + 7) / 8
  {
  }

  /** What follows the prefix. */
  lemma ArrayParts(data: Bytes, prefix: Byte, c: Point, children: Children) returns (bitmap: Bytes, rest: Bytes)
    requires SizedPoint(c) && |children| < 65536 && EncodesArray(data, prefix, c, children)
    ensures BitmapOf(bitmap, children) && |bitmap| == (|children| + 7) / 8
    ensures rest == ToBytes(|children|, 2) + (bitmap + ChildData(children))
    ensures 1 <= |data| && data[1..] == PointBytes(c) + rest
  {
    hide ToBytes, ChildData, PointBytes;
    bitmap :| BitmapOf(bitmap, children) && data == ArrayBytes(prefix, c, children, bitmap);
    rest := ToBytes(|children|, 2) + (bitmap + ChildData(children));
  }

  lemma HeaderRead(data: Bytes, next: nat, start: nat, position: nat, children: Children, bitmap: Bytes, rest: Bytes)
    requires |children| < 65536 && |bitmap| == (|children| + 7) / 8
    requires rest == ToBytes(|children|, 2) + (bitmap + ChildData(children))
    requires next <= |data| && data[next..] == rest
    requires start == next + 2
    ensures FromBytes(Slice(data, next, start)) == |children|
    ensures position == start + |bitmap| ==> position <= |data| && Slice(data, start, position) == bitmap
    ensures position == start + |bitmap| ==> data[position..] == ChildData(children)
  {
    var count := ToBytes(|children|, 2);
    assert Power256(2) == 256 * Power256(1) == 65536;
    FromToBytes(|children|, 2);
    hide ToBytes, FromBytes, ChildData, Power256;
    Sections(data, next, count, bitmap, ChildData(children), rest);
  }

  lemma Sections(data: Bytes, next: nat, a: Bytes, b: Bytes, c: Bytes, rest: Bytes)
    requires next <= |data| && data[next..] == rest == a + (b + c)
    ensures next + |a| + |b| <= |data|
    ensures data[next..next + |a|] == a
    ensures data[next + |a|..next + |a| + |b|] == b
    ensures data[next + |a| + |b|..] == c
  {
    assert data[next..next + |a|] == rest[..|a|];
    assert data[next + |a|..next + |a| + |b|] == rest[|a|..|a| + |b|];
    assert data[next + |a| + |b|..] == rest[|a| + |b|..];
  }

  lemma {:induction false} ChildDataSplit(children: Children, i: nat)
    requires i <= |children|
    ensures |ChildData(children[..i])| <= |ChildData(children)|
    ensures ChildData(children)[..|ChildData(children[..i])|] == ChildData(children[..i])
  {
    if i == |children| {
      assert children[..i] == children;
    } else {
      var last := |children| - 1;
      ChildDataSplit(children[..last], i);
      assert children[..last][..i] == children[..i];
    }
  }

  lemma NextChild(data: Bytes, base: nat, children: Children, i: nat)
    requires i < |children| && References(children)
    requires base <= |data| && data[base..] == ChildData(children)
    ensures children[i].Some? ==> var at := base + |ChildData(children[..i])|;
      at + 32 <= |data| && Slice(data, at, at + 32) == children[i].value && |ChildData(children[..i + 1])| == |ChildData(children[..i])| + 32
    ensures children[i].None? ==> ChildData(children[..i + 1]) == ChildData(children[..i])
  {
    assert children[..i + 1][..i] == children[..i];
    ChildDataSplit(children, i + 1);
    if children[i].Some? {
      var before, more := ChildData(children[..i]), ChildData(children[..i + 1]);
      var at := base + |before|;
      assert more == before + children[i].value;
      hide *;
      PartOf(data, base, ChildData(children), before, children[i].value);
    }
  }

  lemma PartOf(data: Bytes, base: nat, all: Bytes, before: Bytes, part: Bytes)
    requires base <= |data| && data[base..] == all && |before| + |part| <= |all| && all[..|before| + |part|] == before + part
    ensures base + |before| + |part| <= |data| && data[base + |before|..base + |before| + |part|] == part
  {
    assert data[base + |before|..base + |before| + |part|] == all[..|before| + |part|][|before|..];
  }

  method DeserializeExtensionNode(data: Bytes, idx: nat, ghost c: Point, ghost stem: Bytes, ghost child: Bytes)
    returns (r: Option<(Point, Bytes, Bytes)>)
    ensures idx == 1 && SizedPoint(c) && |stem| < 256 && |child| == 32 && data == ExtensionBytes(c, stem, child) ==>
      r == Some((c, stem, child))
  {
    ghost var good := idx == 1 && SizedPoint(c) && |stem| < 256 && |child| == 32 && data == ExtensionBytes(c, stem, child);
    ghost var rest: Bytes := if |stem| < 256 then [|stem|] + (stem + child) else [];
    hide *;
    if good {
      ExtensionTail(data, c, stem, child, rest);
    }
    var commitment, next := ReadPoint(data, idx, c, rest);
    if commitment.None? {
      return None;
    }
    var body := ReadStemAndChild(data, next, good, stem, child, rest);
    if body.None? {
      return None;
    }
    r := Some((commitment.value, body.value.0, body.value.1));
  }

  method ReadStemAndChild(data: Bytes, next: nat, ghost good: bool, ghost stem: Bytes, ghost child: Bytes, ghost rest: Bytes)
    returns (r: Option<(Bytes, Bytes)>)
    requires good ==> |stem| < 256 && |child| == 32 && rest == [|stem|] + (stem + child)
    requires good ==> next <= |data| && data[next..] == rest
    ensures good ==> r == Some((stem, child))
  {
    hide *;
    if good {
      ExtensionRead(data, next, stem, child, rest);
    }
    if next >= |data| {
      return None;
    }
    var stemLength := data[next];
    var start := next + 1;
    var middle := start + stemLength;
    var readStem := Slice(data, start, middle);
    var readChild := Slice(data, middle, middle + 32);
    r := Some((readStem, readChild));
  }

  lemma ExtensionTail(data: Bytes, c: Point, stem: Bytes, child: Bytes, rest: Bytes)
    requires SizedPoint(c) && |stem| < 256 && data == ExtensionBytes(c, stem, child)
    requires rest == [|stem|] + (stem + child)
    ensures 1 <= |data| && data[1..] == PointBytes(c) + rest
  {
  }

  lemma ExtensionRead(data: Bytes, next: nat, stem: Bytes, child: Bytes, rest: Bytes)
    requires |stem| < 256 && |child| == 32 && rest == [|stem|] + (stem + child)
    requires next <= |data| && data[next..] == rest
    ensures next < |data| && data[next] == |stem|
    ensures Slice(data, next + 1, next + 1 + |stem|) == stem
    ensures Slice(data, next + 1 + |stem|, next + 1 + |stem| + 32) == child
  {
    assert data[next] == rest[0];
    assert data[next + 1..next + 1 + |stem|] == rest[1..1 + |stem|] == stem;
    assert data[next + 1 + |stem|..next + 1 + |stem| + 32] == rest[1 + |stem|..] == child;
  }

  /** Reads back exactly what was written. */
  method DeserializeAnyNode(data: Bytes, ghost c: Point, ghost n: Node) returns (r: Option<(Point, Node)>)
    ensures SizedPoint(c) && SizedNode(n) && Encodes(data, c, n) ==> r == Some((c, n))
  {
    ghost var children: Children := if n.Internal? then n.children else if n.Suffix? then n.values else [];
    if |data| == 0 {
      return None;
    }
    var prefix := data[0];
    if prefix == PREFIX_INTERNAL || prefix == PREFIX_SUFFIX {
      var parsed := DeserializeArrayNode(data, 1, prefix, c, children);
      if parsed.None? {
        return None;
      }
      var (commitment, hashes) := parsed.value;
      r := Some((commitment, if prefix == PREFIX_INTERNAL then Internal(hashes) else Suffix(hashes)));
    } else if prefix == PREFIX_EXTENSION {
      ghost var stem := if n.Extension? then n.stem else [];
      ghost var child := if n.Extension? && n.child.Some? then n.child.value else [];
      var parsed := DeserializeExtensionNode(data, 1, c, stem, child);
      if parsed.None? {
        return None;
      }
      var (commitment, readStem, readChild) := parsed.value;
      r := Some((commitment, Extension(readStem, Some(readChild))));
    } else {
      r := None;
    }
  }

  // ----- serialised data belongs to one node only

  lemma NumberFront(a: nat, b: nat, x: Bytes, y: Bytes)
    requires ByteLength(a) < 256 && ByteLength(b) < 256 && NumberBytes(a) + x == NumberBytes(b) + y
    ensures a == b && x == y
  {
    hide ByteLength, ToBytes;
    var left, right := NumberBytes(a) + x, NumberBytes(b) + y;
    assert left[0] == ByteLength(a) && right[0] == ByteLength(b);
    assert left[1..1 + ByteLength(a)] == ToBytes(a, ByteLength(a)) && right[1..1 + ByteLength(b)] == ToBytes(b, ByteLength(b));
    assert left[1 + ByteLength(a)..] == x && right[1 + ByteLength(b)..] == y;
    FromToBytes(a, ByteLength(a));
    FromToBytes(b, ByteLength(b));
  }

  lemma PointFront(c: Point, d: Point, x: Bytes, y: Bytes)
    requires SizedPoint(c) && SizedPoint(d) && PointBytes(c) + x == PointBytes(d) + y
    ensures c == d && x == y
  {
    hide ByteLength, ToBytes;
    assert PointBytes(c) + x == NumberBytes(c.x) + (NumberBytes(c.y) + x);
    assert PointBytes(d) + y == NumberBytes(d.x) + (NumberBytes(d.y) + y);
    NumberFront(c.x, d.x, NumberBytes(c.y) + x, NumberBytes(d.y) + y);
    NumberFront(c.y, d.y, x, y);
  }

  lemma SplitFront(a: Bytes, b: Bytes, x: Bytes, y: Bytes)
    requires a + x == b + y && |a| == |b|
    ensures a == b && x == y
  {
    assert a == (a + x)[..|a|] && b == (b + y)[..|b|];
    assert x == (a + x)[|a|..] && y == (b + y)[|b|..];
  }

  /** Presence and data tell the children. */
  lemma {:induction false} ChildDataOnce(a: Children, b: Children)
    requires |a| == |b| && References(a) && References(b) && ChildData(a) == ChildData(b)
    requires forall i :: 0 <= i < |a| ==> (a[i].Some? <==> b[i].Some?)
    ensures a == b
  {
    if a != [] {
      var last := |a| - 1;
      var x, y := if a[last].Some? then a[last].value else [], if b[last].Some? then b[last].value else [];
      var front, front' := ChildData(a[..last]), ChildData(b[..last]);
      assert front + x == front' + y && |x| == |y|;
      SplitFront(front, front', x, y);
      ChildDataOnce(a[..last], b[..last]);
      assert a == a[..last] + [a[last]] && b == b[..last] + [b[last]];
    }
  }

  lemma BitmapOnce(bitmap: Bytes, a: Children, b: Children)
    requires BitmapOf(bitmap, a) && BitmapOf(bitmap, b) && |a| == |b|
    ensures forall i :: 0 <= i < |a| ==> (a[i].Some? <==> b[i].Some?)
  {
    forall i: nat | i < |a|
      ensures a[i].Some? <==> b[i].Some?
    {
      assert i < 8 * |bitmap|;
      assert HasBit(bitmap[i / 8], i % 8) <==> a[i].Some?;
    }
  }

  lemma ArrayOnce(prefix: Byte, prefix': Byte, c: Point, d: Point, a: Children, b: Children, data: Bytes)
    requires SizedPoint(c) && SizedPoint(d) && |a| < 65536 && |b| < 65536 && References(a) && References(b)
    requires EncodesArray(data, prefix, c, a) && EncodesArray(data, prefix', d, b)
    ensures prefix == prefix' && a == b
  {
    var m: Bytes :| BitmapOf(m, a) && data == ArrayBytes(prefix, c, a, m);
    var m': Bytes :| BitmapOf(m', b) && data == ArrayBytes(prefix', d, b, m');
    BitmapLength(m, a);
    BitmapLength(m', b);
    assert Power256(2) == 256 * Power256(1) == 65536;
    FromToBytes(|a|, 2);
    FromToBytes(|b|, 2);
    hide BitmapOf, ChildData, ToBytes, FromBytes, PointBytes, References, Power256;
    var rest, rest' := ToBytes(|a|, 2) + (m + ChildData(a)), ToBytes(|b|, 2) + (m' + ChildData(b));
    SplitFront([prefix], [prefix'], PointBytes(c) + rest, PointBytes(d) + rest');
    PointFront(c, d, rest, rest');
    SplitFront(ToBytes(|a|, 2), ToBytes(|b|, 2), m + ChildData(a), m' + ChildData(b));
    SplitFront(m, m', ChildData(a), ChildData(b));
    BitmapOnce(m, a, b);
    ChildDataOnce(a, b);
  }

  lemma ArrayPrefix(data: Bytes, prefix: Byte, c: Point, a: Children)
    requires SizedPoint(c) && |a| < 65536 && EncodesArray(data, prefix, c, a)
    ensures data != [] && data[0] == prefix
  {
  }

  /** No data is a serialisation of two nodes. */
  lemma EncodesOnce(data: Bytes, c: Point, n: Node, d: Point, n': Node)
    requires SizedPoint(c) && SizedPoint(d) && SizedNode(n) && SizedNode(n')
    requires Encodes(data, c, n) && Encodes(data, d, n')
    ensures n == n'
  {
    hide PointBytes, References, EncodesArray, SizedPoint;
    if n.Extension? && n'.Extension? {
      var rest, rest' := [|n.stem|] + (n.stem + n.child.value), [|n'.stem|] + (n'.stem + n'.child.value);
      SplitFront([PREFIX_EXTENSION], [PREFIX_EXTENSION], PointBytes(c) + rest, PointBytes(d) + rest');
      PointFront(c, d, rest, rest');
      SplitFront([|n.stem|], [|n'.stem|], n.stem + n.child.value, n'.stem + n'.child.value);
      assert |n.stem| == |n'.stem| by { assert rest[0] == |n.stem| && rest'[0] == |n'.stem|; }
      SplitFront(n.stem, n'.stem, n.child.value, n'.child.value);
    } else if n.Extension? {
      ArrayPrefix(data, if n'.Internal? then PREFIX_INTERNAL else PREFIX_SUFFIX, d, if n'.Internal? then n'.children else n'.values);
    } else if n'.Extension? {
      ArrayPrefix(data, if n.Internal? then PREFIX_INTERNAL else PREFIX_SUFFIX, c, if n.Internal? then n.children else n.values);
    } else {
      ArrayOnce(if n.Internal? then PREFIX_INTERNAL else PREFIX_SUFFIX, if n'.Internal? then PREFIX_INTERNAL else PREFIX_SUFFIX, c, d,
                if n.Internal? then n.children else n.values, if n'.Internal? then n'.children else n'.values, data);
    }
  }

  // ----- the byte form in numbers

  /** How many of the first n children there are. */
  ghost function Present(children: Children, n: nat): nat
    requires n <= |children|
  {
    if n == 0 then 0 else Present(children, n - 1) + if children[n - 1].Some? then 1 else 0
  }

  lemma {:induction false} DataLength(children: Children, n: nat)
    requires n <= |children| && References(children)
    ensures |ChildData(children[..n])| == 32 * Present(children, n)
  {
    hide References;
    if n > 0 {
      DataLength(children, n - 1);
      NextData(children, n - 1);
      ReferenceAt(children, n - 1);
    } else {
      NoData(children);
    }
  }

  lemma ReferenceAt(children: Children, i: nat)
    requires i < |children| && References(children)
    ensures children[i].Some? ==> |children[i].value| == 32
  {
  }

  /** The length of a coordinate is the least that is enough. */
  lemma {:induction false} ByteLengthLeast(n: nat)
    ensures n < Power256(ByteLength(n)) && (ByteLength(n) > 1 ==> n >= Power256(ByteLength(n) - 1))
  {
    if n >= 256 {
      ByteLengthLeast(n / 256);
      assert Power256(1) == 256 * Power256(0) == 256;
    }
  }

  /** The coordinates of a point from position 1 on, each behind its length. */
  ghost predicate PointAt(data: Bytes, c: Point) {
    var lx, ly := ByteLength(c.x), ByteLength(c.y);
    && 3 + lx + ly <= |data|
    && data[1] == lx && ByteStrings.FromBytes(Slice(data, 2, 2 + lx)) == c.x
    && data[2 + lx] == ly && ByteStrings.FromBytes(Slice(data, 3 + lx, 3 + lx + ly)) == c.y
  }

  /** Where the coordinates end. */
  ghost function AfterPoint(c: Point): nat {
    3 + ByteLength(c.x) + ByteLength(c.y)
  }

  lemma PointStands(data: Bytes, c: Point, rest: Bytes)
    requires SizedPoint(c) && 1 <= |data| && data[1..] == PointBytes(c) + rest
    ensures PointAt(data, c) && AfterPoint(c) <= |data| && data[AfterPoint(c)..] == rest
  {
    hide PointBytes, ToBytes, ByteLength, ByteStrings.FromBytes, PointAt, NumberBytes, Power256;
    PointParts(c, rest);
    SizesOf(c);
    var tail := NumberBytes(c.y) + rest;
    NumberRead(data, 1, c.x, tail);
    NumberRead(data, 2 + ByteLength(c.x), c.y, rest);
    PointFrom(data, c);
  }

  lemma SizesOf(c: Point)
    requires SizedPoint(c)
    ensures ByteLength(c.x) < 256 && ByteLength(c.y) < 256
  {
  }

  lemma PointFrom(data: Bytes, c: Point)
    requires ByteLength(c.x) < 256 && ByteLength(c.y) < 256 && AfterPoint(c) <= |data|
    requires data[1] == ByteLength(c.x) && ByteStrings.FromBytes(Slice(data, 2, 2 + ByteLength(c.x))) == c.x
    requires data[2 + ByteLength(c.x)] == ByteLength(c.y)
    requires ByteStrings.FromBytes(Slice(data, 3 + ByteLength(c.x), 3 + ByteLength(c.x) + ByteLength(c.y))) == c.y
    ensures PointAt(data, c)
  {
  }

  /** The number of slots in two bytes, a bit for every slot with the least significant first, and 32 bytes for
      every child in order. */
  ghost predicate SlotsAt(data: Bytes, o: nat, children: Children) {
    var n := |children|;
    var first := o + 2 + (n + 7) / 8;
    && |data| == first + 32 * Present(children, n) && o + 2 <= |data|
    && ByteStrings.FromBytes(Slice(data, o, o + 2)) == n
    && AllSlots(data, o + 2, first, children)
  }

  ghost predicate AllSlots(data: Bytes, bits: nat, first: nat, children: Children) {
    forall i :: 0 <= i < |children| ==> SlotAt(data, bits, first, children, i)
  }

  ghost predicate SlotAt(data: Bytes, bits: nat, first: nat, children: Children, i: nat)
    requires i < |children|
  {
    && bits + i / 8 < |data| && (data[bits + i / 8] / BitValue(i % 8) % 2 == 1 <==> children[i].Some?)
    && (children[i].Some? ==> var at := first + 32 * Present(children, i);
        at + 32 <= |data| && Slice(data, at, at + 32) == children[i].value)
  }

  lemma ArrayLayout(data: Bytes, prefix: Byte, c: Point, children: Children)
    requires SizedPoint(c) && |children| < 65536 && References(children) && EncodesArray(data, prefix, c, children)
    ensures 1 <= |data| && data[0] == prefix && PointAt(data, c) && SlotsAt(data, AfterPoint(c), children)
  {
    hide PointBytes, BitmapOf, ChildData, ToBytes, References, ByteStrings.FromBytes, PointAt, SlotAt;
    var bitmap, rest := ArrayParts(data, prefix, c, children);
    PointStands(data, c, rest);
    var o := AfterPoint(c);
    hide *;
    var first := o + 2 + |bitmap|;
    HeaderRead(data, o, o + 2, first, children, bitmap, rest);
    DataLength(children, |children|);
    assert children[..|children|] == children;
    AllStand(data, o + 2, first, children, bitmap);
    SlotsStand(data, o, first, children);
  }

  lemma SlotsStand(data: Bytes, o: nat, first: nat, children: Children)
    requires first == o + 2 + (|children| + 7) / 8 && first <= |data| && |data[first..]| == 32 * Present(children, |children|)
    requires ByteStrings.FromBytes(Slice(data, o, o + 2)) == |children|
    requires AllSlots(data, o + 2, first, children)
    ensures SlotsAt(data, o, children)
  {
    hide AllSlots, ByteStrings.FromBytes, Present;
  }

  lemma AllStand(data: Bytes, bits: nat, first: nat, children: Children, bitmap: Bytes)
    requires References(children) && BitmapOf(bitmap, children)
    requires first <= |data| && bits <= first && Slice(data, bits, first) == bitmap && data[first..] == ChildData(children)
    ensures AllSlots(data, bits, first, children)
  {
    hide References, BitmapOf, ChildData, SlotAt;
    forall i | 0 <= i < |children|
      ensures SlotAt(data, bits, first, children, i)
    {
      SlotStands(data, bits, first, children, bitmap, i);
    }
  }

  lemma ByteAt(data: Bytes, bits: nat, first: nat, bitmap: Bytes, k: nat)
    requires bits <= first <= |data| && Slice(data, bits, first) == bitmap && k < |bitmap|
    ensures bits + k < |data| && data[bits + k] == bitmap[k]
  {
    assert data[bits..first][k] == bitmap[k];
  }

  lemma SlotStands(data: Bytes, bits: nat, first: nat, children: Children, bitmap: Bytes, i: nat)
    requires i < |children| && References(children) && BitmapOf(bitmap, children)
    requires first <= |data| && bits <= first && Slice(data, bits, first) == bitmap && data[first..] == ChildData(children)
    ensures SlotAt(data, bits, first, children, i)
  {
    hide BitmapOf, References, ChildData, BitValue, Present;
    BitOf(bitmap, children, i);
    ByteAt(data, bits, first, bitmap, i / 8);
    NextChild(data, first, children, i);
    DataLength(children, i);
  }

  lemma ExtensionLayout(data: Bytes, c: Point, stem: Bytes, child: Bytes)
    requires SizedPoint(c) && |stem| < 256 && |child| == 32 && data == ExtensionBytes(c, stem, child)
    ensures 1 <= |data| && data[0] == 1 && PointAt(data, c)
    ensures var o := AfterPoint(c);
      && |data| == o + 1 + |stem| + 32 && data[o] == |stem|
      && Slice(data, o + 1, o + 1 + |stem|) == stem && Slice(data, o + 1 + |stem|, |data|) == child
  {
    hide PointBytes, PointAt;
    var rest := [|stem|] + (stem + child);
    ExtensionTail(data, c, stem, child, rest);
    PointStands(data, c, rest);
    ExtensionRead(data, AfterPoint(c), stem, child, rest);
  }

  /** A serialised node: 0, 1 or 2 for an inner node, an extension or leaves, then the commitment, and then either the
      stem behind its length and the child, or the slots. */
  lemma NodeLayout(data: Bytes, c: Point, n: Node)
    requires SizedPoint(c) && SizedNode(n) && Encodes(data, c, n)
    ensures 1 <= |data| && data[0] == (if n.Internal? then 0 else if n.Extension? then 1 else 2) && PointAt(data, c)
    ensures n.Internal? ==> SlotsAt(data, AfterPoint(c), n.children)
    ensures n.Suffix? ==> SlotsAt(data, AfterPoint(c), n.values)
    ensures n.Extension? ==> var o := AfterPoint(c);
      && |data| == o + 1 + |n.stem| + 32 && data[o] == |n.stem|
      && Slice(data, o + 1, o + 1 + |n.stem|) == n.stem && Slice(data, o + 1 + |n.stem|, |data|) == n.child.value
  {
    hide PointAt, SlotsAt, EncodesArray, ExtensionBytes;
    match n
    case Internal(children) => ArrayLayout(data, PREFIX_INTERNAL, c, children);
    case Suffix(values) => ArrayLayout(data, PREFIX_SUFFIX, c, values);
    case Extension(stem, child) => ExtensionLayout(data, c, stem, child.value);
  }
}
