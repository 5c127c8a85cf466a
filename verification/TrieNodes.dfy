/** Nodes of a Merkle Patricia trie and their aligned byte form:
    zkSNARK/zk_encoder_decoder.py. */
module TrieNodes {
  import opened Wrappers
  import opened ByteStrings
  import opened Nibbles

  /** Absent children are empty references. */
  datatype TrieNode =
    | LeafNode(path: Digits, data: Bytes)
    | ExtensionNode(path: Digits, nextRef: Bytes)
    | BranchNode(branches: seq<Bytes>, data: Bytes)

  const CHUNK: nat := 32
  const PATH_BYTES: nat := 64
  const DATA_BYTES: nat := 96
  const WIDTH: nat := 16

  function Zeros(n: nat): (r: Bytes)
    ensures |r| == n && forall i :: 0 <= i < n ==> r[i] == 0
  {
    seq(n, _ => 0)
  }

  /** ljust */
  function PadRight(data: Bytes, n: nat): (r: Bytes)
    ensures |r| == if |data| < n then n else |data|
    ensures r[..|data|] == data
  {
    if |data| < n then data + Zeros(n - |data|) else data
  }

  ghost predicate IsReference(ref: Bytes) {
    |ref| == CHUNK && ref != Zeros(CHUNK)
  }

  /** Nodes whose parts fit into their fields. */
  ghost predicate Fits(n: TrieNode) {
    match n
    case LeafNode(path, data) => Below(path, WIDTH) && 1 + |path| / 2 <= PATH_BYTES && |data| <= DATA_BYTES
    case ExtensionNode(path, nextRef) => Below(path, WIDTH) && 1 + |path| / 2 <= PATH_BYTES && |nextRef| == CHUNK
    case BranchNode(branches, data) =>
      && |branches| == WIDTH && |data| <= DATA_BYTES
      && forall i :: 0 <= i < WIDTH ==> branches[i] == [] || IsReference(branches[i])
  }

  ghost predicate Sized(branches: seq<Bytes>) {
    forall i :: 0 <= i < |branches| ==> branches[i] == [] || |branches[i]| == CHUNK
  }

  ghost function BranchBytes(branches: seq<Bytes>): (r: Bytes)
    ensures Sized(branches) ==> |r| == |branches| * CHUNK
  {
    if branches == [] then []
    else
      var last := |branches| - 1;
      BranchBytes(branches[..last]) + if branches[last] == [] then Zeros(CHUNK) else branches[last]
  }

  ghost function PathField(path: Digits, isLeaf: bool): (r: Bytes)
    requires Below(path, WIDTH)
    ensures 1 + |path| / 2 <= PATH_BYTES ==> |r| == CHUNK + PATH_BYTES
  {
    ToBytes(|HexPrefix(path, isLeaf)|, CHUNK) + PadRight(HexPrefix(path, isLeaf), PATH_BYTES)
  }

  function DataField(data: Bytes): (r: Bytes)
    ensures |data| <= DATA_BYTES ==> |r| == CHUNK + DATA_BYTES
  {
    ToBytes(|data|, CHUNK) + PadRight(data, DATA_BYTES)
  }

  /** Paths have digits of the right size. */
  ghost predicate PathOk(n: TrieNode) {
    n.BranchNode? || Below(n.path, WIDTH)
  }

  ghost function ZkEncoded(n: TrieNode): (r: Bytes)
    requires PathOk(n)
  {
    match n
    case LeafNode(path, data) => ToBytes(1, CHUNK) + (PathField(path, true) + DataField(data))
    case ExtensionNode(path, nextRef) => ToBytes(2, CHUNK) + (PathField(path, false) + nextRef)
    case BranchNode(branches, data) => ToBytes(3, CHUNK) + (BranchBytes(branches) + DataField(data))
  }

  // ----- writing

  method ZkEncodeLeaf(path: NibblePath, data: Bytes) returns (r: Bytes)
    requires path.Valid() && path.width == WIDTH
    ensures r == ZkEncoded(LeafNode(path.Rest(), data))
  {
    hide HexPrefix;
    var pathBytes := path.Encode(true);
    r := ToBytes(1, CHUNK) + ToBytes(|pathBytes|, CHUNK) + PadRight(pathBytes, PATH_BYTES)
      + ToBytes(|data|, CHUNK) + PadRight(data, DATA_BYTES);
    hide ToBytes, PadRight;
    assert r == ZkEncoded(LeafNode(path.Rest(), data));
  }

  method ZkEncodeExtension(path: NibblePath, nextRef: Bytes) returns (r: Bytes)
    requires path.Valid() && path.width == WIDTH
    ensures r == ZkEncoded(ExtensionNode(path.Rest(), nextRef))
  {
    hide HexPrefix;
    var pathBytes := path.Encode(false);
    r := ToBytes(2, CHUNK) + ToBytes(|pathBytes|, CHUNK) + PadRight(pathBytes, PATH_BYTES) + nextRef;
    hide ToBytes, PadRight;
    assert r == ZkEncoded(ExtensionNode(path.Rest(), nextRef));
  }

  method ZkEncodeBranch(branches: seq<Bytes>, data: Bytes) returns (r: Bytes)
    ensures r == ZkEncoded(BranchNode(branches, data))
  {
    hide ToBytes, PadRight, Sized, ZkEncoded, DataField;
    r := ToBytes(3, CHUNK);
    ghost var head := r;
    for i := 0 to |branches|
      invariant r == head + BranchBytes(branches[..i])
    {
      assert branches[..i + 1][..i] == branches[..i];
      r := r + if branches[i] != [] then branches[i] else Zeros(CHUNK);
    }
    assert branches[..|branches|] == branches;
    BranchEncoded(branches, data);
    r := r + ToBytes(|data|, CHUNK);
    r := r + PadRight(data, DATA_BYTES);
  }

  lemma BranchEncoded(branches: seq<Bytes>, data: Bytes)
    ensures ToBytes(3, CHUNK) + BranchBytes(branches) + ToBytes(|data|, CHUNK) + PadRight(data, DATA_BYTES)
      == ZkEncoded(BranchNode(branches, data))
  {
    hide *;
    BranchUnfolded(branches, data);
    Joined(ToBytes(3, CHUNK), BranchBytes(branches), ToBytes(|data|, CHUNK), PadRight(data, DATA_BYTES));
  }

  lemma BranchUnfolded(branches: seq<Bytes>, data: Bytes)
    ensures ZkEncoded(BranchNode(branches, data))
      == ToBytes(3, CHUNK) + (BranchBytes(branches) + (ToBytes(|data|, CHUNK) + PadRight(data, DATA_BYTES)))
  {
    hide ToBytes, BranchBytes, PadRight;
  }

  lemma Joined(a: Bytes, b: Bytes, c: Bytes, d: Bytes)
    ensures a + b + c + d == a + (b + (c + d))
  {
  }

  lemma ReferencesSized(branches: seq<Bytes>)
    requires forall i :: 0 <= i < |branches| ==> branches[i] == [] || IsReference(branches[i])
    ensures Sized(branches)
  {
  }

  // ----- reading

  /** A decoded node: its path is an object of its own. */
  datatype NodeObject =
    | LeafObject(path: NibblePath, data: Bytes)
    | ExtensionObject(path: NibblePath, nextRef: Bytes)
    | BranchObject(branches: seq<Bytes>, data: Bytes)

  ghost predicate ValidObject(d: NodeObject)
    reads if d.BranchObject? then {} else {d.path}
  {
    d.BranchObject? || (d.path.Valid() && d.path.width == WIDTH)
  }

  /** The node that a decoded node stands for at the moment. */
  ghost function NodeValue(d: NodeObject): TrieNode
    requires ValidObject(d)
    reads if d.BranchObject? then {} else {d.path}
  {
    match d
    case LeafObject(path, data) => LeafNode(path.Rest(), data)
    case ExtensionObject(path, nextRef) => ExtensionNode(path.Rest(), nextRef)
    case BranchObject(branches, data) => BranchNode(branches, data)
  }

  function Field(data: Bytes, start: nat): Bytes {
    Slice(data, start, start + CHUNK)
  }

  /** Reads back a node; None where the source raises.  The ghost node only serves the contract. */
  method ZkDecode(data: Bytes, ghost n: TrieNode) returns (r: Option<NodeObject>)
    ensures r.Some? && !r.value.BranchObject? ==> fresh(r.value.path)
    ensures Fits(n) && data == ZkEncoded(n) ==> r.Some? && ValidObject(r.value) && NodeValue(r.value) == n
  {
    var nodeType := ByteStrings.FromBytes(Slice(data, 0, CHUNK));
    if Fits(n) && data == ZkEncoded(n) {
      TypeField(data, n);
    }
    if nodeType == 1 {
      var path := ReadPath(data, n);
      if path == null {
        return None;
      }
      var dataLen := ByteStrings.FromBytes(Field(data, 128));
      if Fits(n) && data == ZkEncoded(n) {
        LeafFields(data, n);
      }
      r := Some(LeafObject(path, Slice(data, 160, 160 + dataLen)));
    } else if nodeType == 2 {
      var path := ReadPath(data, n);
      if path == null {
        return None;
      }
      if Fits(n) && data == ZkEncoded(n) {
        ExtensionFields(data, n);
      }
      r := Some(ExtensionObject(path, Field(data, 128)));
    } else if nodeType == 3 {
      var branches := ReadBranches(data, n);
      var dataLen := ByteStrings.FromBytes(Field(data, 544));
      if Fits(n) && data == ZkEncoded(n) {
        BranchFields(data, n);
      }
      r := Some(BranchObject(branches, Slice(data, 576, 576 + dataLen)));
    } else {
      r := None;
    }
  }

  lemma Middle(a: Bytes, b: Bytes, c: Bytes)
    ensures (a + (b + c))[|a|..|a| + |b|] == b
    ensures Slice(a + (b + c), |a|, |a| + |b|) == b
  {
  }

  lemma SmallNumber(n: nat)
    requires n < 65536
    ensures ByteStrings.FromBytes(ToBytes(n, CHUNK)) == n
  {
    PowerBig();
    FromToBytes(n, CHUNK);
  }

  lemma {:induction false} PowerGrows(j: nat, k: nat)
    requires j <= k
    ensures Power256(j) <= Power256(k)
  {
    if j < k {
      PowerGrows(j, k - 1);
    }
  }

  lemma PowerBig()
    ensures Power256(CHUNK) >= 65536
  {
    PowerGrows(2, CHUNK);
    assert Power256(2) == 256 * Power256(1) == 65536;
  }

  lemma TypeField(data: Bytes, n: TrieNode)
    requires Fits(n) && data == ZkEncoded(n)
    ensures ByteStrings.FromBytes(Slice(data, 0, CHUNK)) == if n.LeafNode? then 1 else if n.ExtensionNode? then 2 else 3
  {
    hide ToBytes, ByteStrings.FromBytes, PathField, DataField, BranchBytes;
    var t := if n.LeafNode? then 1 else if n.ExtensionNode? then 2 else 3;
    SmallNumber(t);
    assert Slice(data, 0, CHUNK) == ToBytes(t, CHUNK);
  }

  /** The data behind a known number of bytes. */
  lemma DataFields(data: Bytes, front: Bytes, value: Bytes)
    requires |value| <= DATA_BYTES && data == front + DataField(value)
    ensures ByteStrings.FromBytes(Field(data, |front|)) == |value|
    ensures Slice(data, |front| + CHUNK, |front| + CHUNK + |value|) == value
  {
    hide ToBytes, ByteStrings.FromBytes;
    SmallNumber(|value|);
    var count, padded := ToBytes(|value|, CHUNK), PadRight(value, DATA_BYTES);
    assert data == front + (count + padded);
    Middle(front, count, padded);
    assert data == (front + count) + (value + padded[|value|..]);
    Middle(front + count, value, padded[|value|..]);
  }

  lemma PathFields(data: Bytes, front: Bytes, path: Digits, isLeaf: bool, rest: Bytes)
    requires Below(path, WIDTH) && 1 + |path| / 2 <= PATH_BYTES && data == front + (PathField(path, isLeaf) + rest)
    ensures ByteStrings.FromBytes(Field(data, |front|)) == |HexPrefix(path, isLeaf)|
    ensures Slice(data, |front| + CHUNK, |front| + CHUNK + |HexPrefix(path, isLeaf)|) == HexPrefix(path, isLeaf)
  {
    hide ToBytes, ByteStrings.FromBytes, HexPrefix;
    var h := HexPrefix(path, isLeaf);
    SmallNumber(|h|);
    var count, padded := ToBytes(|h|, CHUNK), PadRight(h, PATH_BYTES);
    assert data == front + (count + (padded + rest));
    Middle(front, count, padded + rest);
    assert data == (front + count) + (h + (padded[|h|..] + rest));
    Middle(front + count, h, padded[|h|..] + rest);
  }

  method ReadPath(data: Bytes, ghost n: TrieNode) returns (r: NibblePath?)
    ensures r == null || fresh(r)
    ensures Fits(n) && !n.BranchNode? && data == ZkEncoded(n) ==> r != null && r.Valid() && r.width == WIDTH && r.Rest() == n.path
  {
    hide HexPrefix, PathField;
    var pathLen := ByteStrings.FromBytes(Field(data, 32));
    var pathBytes := Slice(data, 64, 64 + pathLen);
    if Fits(n) && !n.BranchNode? && data == ZkEncoded(n) {
      PathRead(data, n);
    }
    if Fits(n) && !n.BranchNode? && data == ZkEncoded(n) {
      DecodesHexPrefix(n.path, n.LeafNode?);
      HexPrefixDecodes(n.path, n.LeafNode?);
    }
    var path, isLeaf := DecodeWithType(pathBytes);
    r := path;
  }

  lemma PathRead(data: Bytes, n: TrieNode)
    requires Fits(n) && !n.BranchNode? && data == ZkEncoded(n)
    ensures ByteStrings.FromBytes(Field(data, 32)) == |HexPrefix(n.path, n.LeafNode?)|
    ensures Slice(data, 64, 64 + |HexPrefix(n.path, n.LeafNode?)|) == HexPrefix(n.path, n.LeafNode?)
  {
    hide ToBytes, ByteStrings.FromBytes, HexPrefix, PathField, DataField;
    if n.LeafNode? {
      PathFields(data, ToBytes(1, CHUNK), n.path, true, DataField(n.data));
    } else {
      PathFields(data, ToBytes(2, CHUNK), n.path, false, n.nextRef);
    }
  }

  lemma LeafFields(data: Bytes, n: TrieNode)
    requires Fits(n) && n.LeafNode? && data == ZkEncoded(n)
    ensures ByteStrings.FromBytes(Field(data, 128)) == |n.data| && Slice(data, 160, 160 + |n.data|) == n.data
  {
    hide ToBytes, ByteStrings.FromBytes, PathField, DataField;
    var front := ToBytes(1, CHUNK) + PathField(n.path, true);
    assert data == front + DataField(n.data);
    DataFields(data, front, n.data);
  }

  lemma ExtensionFields(data: Bytes, n: TrieNode)
    requires Fits(n) && n.ExtensionNode? && data == ZkEncoded(n)
    ensures Field(data, 128) == n.nextRef
  {
    hide ToBytes, ByteStrings.FromBytes, PathField;
    var front := ToBytes(2, CHUNK) + PathField(n.path, false);
    assert data == front + (n.nextRef + []);
    Middle(front, n.nextRef, []);
  }

  lemma BranchFields(data: Bytes, n: TrieNode)
    requires Fits(n) && n.BranchNode? && data == ZkEncoded(n)
    ensures ByteStrings.FromBytes(Field(data, 544)) == |n.data| && Slice(data, 576, 576 + |n.data|) == n.data
  {
    hide ToBytes, ByteStrings.FromBytes, DataField, IsReference;
    ReferencesSized(n.branches);
    var front := ToBytes(3, CHUNK) + BranchBytes(n.branches);
    assert data == front + DataField(n.data);
    DataFields(data, front, n.data);
  }

  lemma {:induction false} BranchAt(branches: seq<Bytes>, i: nat)
    requires Sized(branches) && i < |branches|
    ensures BranchBytes(branches)[i * CHUNK..(i + 1) * CHUNK] == if branches[i] == [] then Zeros(CHUNK) else branches[i]
  {
    var last := |branches| - 1;
    var front, own := BranchBytes(branches[..last]), if branches[last] == [] then Zeros(CHUNK) else branches[last];
    assert BranchBytes(branches) == front + own;
    if i < last {
      BranchAt(branches[..last], i);
      InFront(front, own, i * CHUNK, (i + 1) * CHUNK);
    } else {
      Middle(front, own, []);
    }
  }

  lemma InFront(front: Bytes, own: Bytes, i: nat, j: nat)
    requires i <= j <= |front|
    ensures (front + own)[i..j] == front[i..j]
  {
  }

  ghost predicate IsEncoded(data: Bytes, n: TrieNode) {
    Fits(n) && data == ZkEncoded(n)
  }

  method ReadBranches(data: Bytes, ghost n: TrieNode) returns (branches: seq<Bytes>)
    ensures n.BranchNode? && IsEncoded(data, n) ==> branches == n.branches
  {
    hide *;
    ghost var good := n.BranchNode? && IsEncoded(data, n);
    if good {
      BranchesCount(data, n);
    }
    branches := [];
    for i := 0 to WIDTH
      invariant |branches| == i
      invariant good ==> i <= |n.branches| && branches == n.branches[..i]
    {
      var bBytes := Field(data, 32 + i * 32);
      if good {
        BranchRead(data, n, i);
      }
      branches := branches + [if bBytes != Zeros(CHUNK) then bBytes else []];
    }
  }

  lemma BranchesCount(data: Bytes, n: TrieNode)
    requires n.BranchNode? && IsEncoded(data, n)
    ensures |n.branches| == WIDTH
  {
  }

  lemma BranchRead(data: Bytes, n: TrieNode, i: nat)
    requires n.BranchNode? && IsEncoded(data, n) && i < |n.branches|
    ensures Field(data, 32 + i * 32) == if n.branches[i] == [] then Zeros(CHUNK) else n.branches[i]
    ensures n.branches[i] != [] ==> n.branches[i] != Zeros(CHUNK)
  {
    ReferencesSized(n.branches);
    BranchAt(n.branches, i);
    hide ToBytes, DataField, IsReference, BranchBytes, Zeros;
    var head, body, rest := ToBytes(3, CHUNK), BranchBytes(n.branches), DataField(n.data);
    assert |head| == 32 && data == head + (body + rest) && |body| == |n.branches| * 32;
    SliceOf(data, head, body, rest, i * 32, (i + 1) * 32);
  }

  lemma SliceOf(data: Bytes, head: Bytes, body: Bytes, rest: Bytes, i: nat, j: nat)
    requires data == head + (body + rest) && i <= j <= |body|
    ensures |head| + j <= |data| && data[|head| + i..|head| + j] == body[i..j]
  {
    forall k | i <= k < j
      ensures data[|head| + k] == body[k]
    {
    }
  }

  // ----- the aligned form in numbers

  /** A length in 32 bytes, a value, and zeros up to the size of the field. */
  ghost predicate FieldAt(data: Bytes, pos: nat, value: Bytes, size: nat) {
    && |value| <= size && pos + 32 + size <= |data|
    && ByteStrings.FromBytes(data[pos..pos + 32]) == |value|
    && data[pos + 32..pos + 32 + |value|] == value
    && data[pos + 32 + |value|..pos + 32 + size] == Zeros(size - |value|)
  }

  /** A length and a padded value. */
  ghost predicate IsField(field: Bytes, value: Bytes, size: nat) {
    field == ToBytes(|value|, 32) + PadRight(value, size)
  }

  lemma FieldStands(data: Bytes, front: Bytes, field: Bytes, value: Bytes, size: nat, rest: Bytes)
    requires |value| <= size < 65536 && IsField(field, value, size)
    requires data == front + field + rest
    ensures FieldAt(data, |front|, value, size)
  {
    hide *;
    var count, zeros := FieldParts(field, value, size);
    FieldFrom(data, front, count, value, zeros, rest);
  }

  lemma FieldParts(field: Bytes, value: Bytes, size: nat) returns (count: Bytes, zeros: Bytes)
    requires |value| <= size < 65536 && IsField(field, value, size)
    ensures field == count + (value + zeros) && |count| == 32 && ByteStrings.FromBytes(count) == |value|
    ensures |zeros| == size - |value| && zeros == Zeros(|zeros|)
  {
    SmallNumber(|value|);
    PaddedIs(value, size);
    count, zeros := ToBytes(|value|, 32), Zeros(size - |value|);
    hide ByteStrings.FromBytes, PadRight;
  }

  lemma PaddedIs(value: Bytes, size: nat)
    requires |value| <= size
    ensures PadRight(value, size) == value + Zeros(size - |value|)
  {
  }

  lemma FieldFrom(data: Bytes, front: Bytes, count: Bytes, value: Bytes, zeros: Bytes, rest: Bytes)
    requires data == front + (count + (value + zeros)) + rest
    requires |count| == 32 && ByteStrings.FromBytes(count) == |value| && zeros == Zeros(|zeros|)
    ensures FieldAt(data, |front|, value, |value| + |zeros|)
  {
    hide ByteStrings.FromBytes, Zeros;
    Parts(data, front, count, value, zeros, rest);
  }

  lemma Parts(data: Bytes, front: Bytes, count: Bytes, value: Bytes, zeros: Bytes, rest: Bytes)
    requires data == front + (count + (value + zeros)) + rest
    ensures |data| == |front| + |count| + |value| + |zeros| + |rest|
    ensures data[|front|..|front| + |count|] == count
    ensures data[|front| + |count|..|front| + |count| + |value|] == value
    ensures data[|front| + |count| + |value|..|front| + |count| + |value| + |zeros|] == zeros
  {
  }

  /** Leaf: type 1, path in 32 + 64 bytes, data in 32 + 96 bytes.  Extension: type 2, path, 32 bytes of reference.
      Branch: type 3, sixteen references with zeros for absent ones, data. */
  lemma ZkLayout(n: TrieNode)
    requires Fits(n)
    ensures var r := ZkEncoded(n); n.LeafNode? ==>
      && |r| == 256 && ByteStrings.FromBytes(r[..32]) == 1
      && FieldAt(r, 32, HexPrefix(n.path, true), 64) && FieldAt(r, 128, n.data, 96)
    ensures var r := ZkEncoded(n); n.ExtensionNode? ==>
      && |r| == 160 && ByteStrings.FromBytes(r[..32]) == 2
      && FieldAt(r, 32, HexPrefix(n.path, false), 64) && r[128..] == n.nextRef
    ensures var r := ZkEncoded(n); n.BranchNode? ==>
      && |r| == 672 && ByteStrings.FromBytes(r[..32]) == 3
      && (forall i :: 0 <= i < 16 ==> r[32 + i * 32..64 + i * 32] == if n.branches[i] == [] then Zeros(32) else n.branches[i])
      && FieldAt(r, 544, n.data, 96)
  {
    var r := ZkEncoded(n);
    TypeField(r, n);
    match n
    case LeafNode(path, data) => LeafLayout(path, data);
    case ExtensionNode(path, nextRef) => ExtensionLayout(path, nextRef);
    case BranchNode(branches, data) => BranchLayout(branches, data);
  }

  lemma LeafLayout(path: Digits, data: Bytes)
    requires Fits(LeafNode(path, data))
    ensures var r := ZkEncoded(LeafNode(path, data));
      && |r| == 256 && r[..32] == Slice(r, 0, 32) && FieldAt(r, 32, HexPrefix(path, true), 64) && FieldAt(r, 128, data, 96)
  {
    hide HexPrefix, FieldAt;
    var r, h := ZkEncoded(LeafNode(path, data)), HexPrefix(path, true);
    var type', p, d := ToBytes(1, 32), ToBytes(|h|, 32) + PadRight(h, 64), ToBytes(|data|, 32) + PadRight(data, 96);
    hide ToBytes, PadRight;
    assert IsField(p, h, 64) && IsField(d, data, 96);
    assert r == type' + p + d;
    hide IsField;
    FieldStands(r, type', p, h, 64, d);
    assert r == (type' + p) + d + [];
    FieldStands(r, type' + p, d, data, 96, []);
  }

  lemma ExtensionLayout(path: Digits, nextRef: Bytes)
    requires Fits(ExtensionNode(path, nextRef))
    ensures var r := ZkEncoded(ExtensionNode(path, nextRef));
      && |r| == 160 && r[..32] == Slice(r, 0, 32) && FieldAt(r, 32, HexPrefix(path, false), 64) && r[128..] == nextRef
  {
    hide HexPrefix, FieldAt;
    var r, h := ZkEncoded(ExtensionNode(path, nextRef)), HexPrefix(path, false);
    var type', p := ToBytes(2, 32), ToBytes(|h|, 32) + PadRight(h, 64);
    hide ToBytes, PadRight;
    assert IsField(p, h, 64);
    assert r == type' + p + nextRef;
    hide IsField;
    FieldStands(r, type', p, h, 64, nextRef);
  }

  lemma BranchLayout(branches: seq<Bytes>, data: Bytes)
    requires Fits(BranchNode(branches, data))
    ensures var r := ZkEncoded(BranchNode(branches, data));
      && |r| == 672 && r[..32] == Slice(r, 0, 32)
      && (forall i :: 0 <= i < 16 ==> r[32 + i * 32..64 + i * 32] == if branches[i] == [] then Zeros(32) else branches[i])
      && FieldAt(r, 544, data, 96)
  {
    hide FieldAt, IsReference;
    ReferencesSized(branches);
    var r, b := ZkEncoded(BranchNode(branches, data)), BranchBytes(branches);
    var type', d := ToBytes(3, 32), ToBytes(|data|, 32) + PadRight(data, 96);
    hide ToBytes, PadRight, BranchBytes;
    assert |b| == 512 && IsField(d, data, 96);
    hide IsField;
    assert r == (type' + b) + d + [];
    FieldStands(r, type' + b, d, data, 96, []);
    forall i | 0 <= i < 16
      ensures r[32 + i * 32..64 + i * 32] == if branches[i] == [] then Zeros(32) else branches[i]
    {
      BranchAt(branches, i);
      assert r == type' + (b + d);
      SliceOf(r, type', b, d, i * 32, (i + 1) * 32);
    }
  }
}
