/** Nodes of a Merkle Patricia trie as lists of byte strings: merkle/node.py.  The byte form of
    such lists, RLP, is a foreign pair of functions. */
module RlpNodes {
  import opened Wrappers
  import opened ByteStrings
  import opened Nibbles
  import opened TrieNodes

  datatype Item = Str(bytes: Bytes) | List(items: seq<Item>)

  /** rlp.encode of a list, and rlp.decode, which may raise. */
  datatype Rlp = Rlp(encode: seq<Item> -> Bytes, decode: Bytes -> Option<Item>)

  /** Decoding undoes encoding. */
  ghost predicate GoodRlp(rlp: Rlp) {
    forall items: seq<Item> :: rlp.decode(rlp.encode(items)) == Some(List(items))
  }

  /** A reference inside a list: a short one is the encoding of a list, which is put there itself. */
  function ReferenceItem(ref: Bytes, rlp: Rlp): Item {
    if 0 < |ref| < CHUNK && rlp.decode(ref).Some? then rlp.decode(ref).value else Str(ref)
  }

  /** A reference taken out of a list. */
  function ItemReference(item: Item, rlp: Rlp): Bytes {
    match item
    case Str(bytes) => bytes
    case List(items) => rlp.encode(items)
  }

  function ReferenceItems(refs: seq<Bytes>, rlp: Rlp): (r: seq<Item>)
    ensures |r| == |refs|
  {
    seq(|refs|, i requires 0 <= i < |refs| => ReferenceItem(refs[i], rlp))
  }

  function ItemReferences(items: seq<Item>, rlp: Rlp): (r: seq<Bytes>)
    ensures |r| == |items|
  {
    seq(|items|, i requires 0 <= i < |items| => ItemReference(items[i], rlp))
  }

  /** The list for a node. */
  ghost function ItemsOf(n: TrieNode, rlp: Rlp): seq<Item>
    requires PathOk(n)
  {
    match n
    case LeafNode(path, data) => [Str(HexPrefix(path, true)), Str(data)]
    case ExtensionNode(path, nextRef) => [Str(HexPrefix(path, false)), ReferenceItem(nextRef, rlp)]
    case BranchNode(branches, data) => ReferenceItems(branches, rlp) + [Str(data)]
  }

  /** The form of the list in numbers.  Two items for a leaf or an extension, of which the first begins with the digit
      2 or 3 for a leaf and 0 or 1 for an extension; for a branch one item for every child and one for its data. */
  lemma ListForm(n: TrieNode, rlp: Rlp)
    requires PathOk(n)
    ensures var items := ItemsOf(n, rlp); n.LeafNode? ==>
      && |items| == 2 && items[0].Str? && DigitsOf(items[0].bytes, 16) == PathDigits(n.path, 2) && items[1] == Str(n.data)
    ensures var items := ItemsOf(n, rlp); n.ExtensionNode? ==>
      && |items| == 2 && items[0].Str? && DigitsOf(items[0].bytes, 16) == PathDigits(n.path, 0) && items[1] == ReferenceItem(n.nextRef, rlp)
    ensures var items := ItemsOf(n, rlp); n.BranchNode? ==>
      && |items| == |n.branches| + 1 && items[|n.branches|] == Str(n.data)
      && forall i :: 0 <= i < |n.branches| ==> items[i] == ReferenceItem(n.branches[i], rlp)
  {
    hide HexPrefix, DigitsOf, ReferenceItem;
    if !n.BranchNode? {
      HexPrefixDigits(n.path, n.LeafNode?);
    }
  }

  /** The flag, a zero in front of an even number of digits, and the digits. */
  function PathDigits(path: Digits, flag: nat): seq<nat> {
    [flag + |path| % 2] + (if |path| % 2 == 1 then [] else [0]) + path
  }

  /** What a list stands for.  The data of a node is not checked to be a byte string. */
  datatype Decoded =
    | LeafPart(path: Digits, data: Item)
    | ExtensionPart(path: Digits, nextRef: Bytes)
    | BranchPart(branches: seq<Bytes>, data: Item)

  /** None where the source raises, and for encodings that are no list. */
  ghost function DecodedNode(encoded: Bytes, rlp: Rlp): Option<Decoded> {
    match rlp.decode(encoded)
    case Some(List(items)) => DecodedItems(items, rlp)
    case _ => None
  }

  ghost function DecodedItems(items: seq<Item>, rlp: Rlp): Option<Decoded> {
    if |items| == 2 then
      if items[0].List? || DecodedPath(items[0].bytes).None? then None
      else
        var (path, isLeaf) := DecodedPath(items[0].bytes).value;
        if isLeaf then Some(LeafPart(path, items[1])) else Some(ExtensionPart(path, ItemReference(items[1], rlp)))
    else if |items| < 3 then None
    else Some(BranchPart(ItemReferences(items[..|items| - 1], rlp), items[|items| - 1]))
  }

  ghost function PartOf(n: TrieNode): Decoded {
    match n
    case LeafNode(path, data) => LeafPart(path, Str(data))
    case ExtensionNode(path, nextRef) => ExtensionPart(path, nextRef)
    case BranchNode(branches, data) => BranchPart(branches, Str(data))
  }

  /** References that are absent or at least as long as a hash are put into a list as they are. */
  ghost predicate PlainReferences(n: TrieNode) {
    match n
    case LeafNode(_, _) => true
    case ExtensionNode(_, nextRef) => nextRef == [] || |nextRef| >= CHUNK
    case BranchNode(branches, _) => |branches| >= 2 && forall i :: 0 <= i < |branches| ==> branches[i] == [] || |branches[i]| >= CHUNK
  }

  /** A path in hex-prefix form. */
  ghost predicate HexForm(encoded: Bytes, rlp: Rlp) {
    match rlp.decode(encoded)
    case Some(List(items)) => |items| == 2 && items[0].Str? && items[0].bytes != [] && items[0].bytes[0] != EXTENDED_MARKER
    case _ => false
  }

  /** Decoding undoes the encoding of a node. */
  lemma DecodesNode(n: TrieNode, rlp: Rlp)
    requires GoodRlp(rlp) && PathOk(n) && PlainReferences(n)
    ensures DecodedNode(rlp.encode(ItemsOf(n, rlp)), rlp) == Some(PartOf(n))
    ensures !n.BranchNode? ==> HexForm(rlp.encode(ItemsOf(n, rlp)), rlp)
  {
    hide HexPrefix, DecodedPath;
    match n
    case LeafNode(path, data) =>
      DecodesHexPrefix(path, true);
      HexPrefixDecodes(path, true);
    case ExtensionNode(path, nextRef) =>
      DecodesHexPrefix(path, false);
      HexPrefixDecodes(path, false);
    case BranchNode(branches, data) =>
      var items := ItemsOf(n, rlp);
      assert items[..|items| - 1] == ReferenceItems(branches, rlp);
      assert ItemReferences(ReferenceItems(branches, rlp), rlp) == branches;
  }

  // ----- writing

  method EncodeNode(node: NodeObject, rlp: Rlp) returns (encoded: Bytes)
    requires ValidObject(node)
    ensures encoded == rlp.encode(ItemsOf(NodeValue(node), rlp))
  {
    match node {
      case LeafObject(path, data) =>
        var pathBytes := path.Encode(true);
        encoded := rlp.encode([Str(pathBytes), Str(data)]);
      case ExtensionObject(path, nextRef) =>
        var pathBytes := path.Encode(false);
        encoded := rlp.encode([Str(pathBytes), ReferenceItem(nextRef, rlp)]);
      case BranchObject(branches, data) =>
        encoded := rlp.encode(ReferenceItems(branches, rlp) + [Str(data)]);
    }
  }

  // ----- reading

  datatype RawNode =
    | RawLeaf(path: NibblePath, data: Item)
    | RawExtension(path: NibblePath, nextRef: Bytes)
    | RawBranch(branches: seq<Bytes>, data: Item)

  ghost predicate ValidRaw(node: RawNode)
    reads if node.RawBranch? then {} else {node.path}
  {
    node.RawBranch? || node.path.Valid()
  }

  ghost function RawValue(node: RawNode): Decoded
    requires ValidRaw(node)
    reads if node.RawBranch? then {} else {node.path}
  {
    match node
    case RawLeaf(path, data) => LeafPart(path.Rest(), data)
    case RawExtension(path, nextRef) => ExtensionPart(path.Rest(), nextRef)
    case RawBranch(branches, data) => BranchPart(branches, data)
  }

  method DecodeNode(encoded: Bytes, rlp: Rlp) returns (r: Option<RawNode>)
    ensures r.Some? <==> DecodedNode(encoded, rlp).Some?
    ensures r.Some? ==> ValidRaw(r.value) && RawValue(r.value) == DecodedNode(encoded, rlp).value
    ensures r.Some? && !r.value.RawBranch? ==> fresh(r.value.path) && (HexForm(encoded, rlp) ==> r.value.path.width == WIDTH)
  {
    var decoded := rlp.decode(encoded);
    if decoded.None? || decoded.value.Str? {
      return None;
    }
    var items := decoded.value.items;
    if |items| == 2 {
      if items[0].List? {
        return None;
      }
      var path, isLeaf := DecodeWithType(items[0].bytes);
      if path == null {
        return None;
      }
      r := Some(if isLeaf then RawLeaf(path, items[1]) else RawExtension(path, ItemReference(items[1], rlp)));
      return;
    }
    if |items| < 3 {
      return None;
    }
    r := Some(RawBranch(ItemReferences(items[..|items| - 1], rlp), items[|items| - 1]));
  }
}
