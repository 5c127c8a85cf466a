/** Proofs of the Merkle Patricia trie: verifier/merkle_verification.py, in keccak mode. */
module MerkleProof {
  import opened Wrappers
  import opened ByteStrings
  import opened Nibbles
  import opened TrieNodes
  import opened RlpNodes
  import opened TrieShape
  import opened MerkleTrie

  /** The reference an encoded node should have. */
  function ReferenceOf(encoded: Bytes, cfg: Config): Bytes {
    if |encoded| >= CHUNK then cfg.hash(encoded) else encoded
  }

  /** The first node is compared with the root only if it is hashed, or has the size of a hash. */
  predicate RootMatches(first: Bytes, rootHash: Bytes, cfg: Config) {
    |ReferenceOf(first, cfg)| == CHUNK ==> ReferenceOf(first, cfg) == rootHash
  }

  /** The next node of the list, if there is one, is the one referred to. */
  ghost predicate Chained(ref: Bytes, rest: seq<Bytes>, cfg: Config) {
    rest != [] ==> ref == ReferenceOf(rest[0], cfg)
  }

  /** Following the path through the list ends at the value. */
  ghost predicate Walks(nodes: seq<Bytes>, path: Digits, value: Bytes, cfg: Config)
    decreases |nodes|
  {
    nodes != [] && DecodedNode(nodes[0], cfg.rlp).Some? &&
    match DecodedNode(nodes[0], cfg.rlp).value
    case LeafPart(path', data) => path' == path && data == Str(value)
    case ExtensionPart(path', nextRef) =>
      && path' <= path && Chained(nextRef, nodes[1..], cfg)
      && Walks(nodes[1..], path[|path'|..], value, cfg)
    case BranchPart(branches, data) =>
      if path == [] then data == Str(value)
      else
        && path[0] < |branches| && branches[path[0]] != [] && Chained(branches[path[0]], nodes[1..], cfg)
        && Walks(nodes[1..], path[1..], value, cfg)
  }

  ghost predicate Verifies(nodes: seq<Bytes>, key: Bytes, value: Bytes, rootHash: Bytes, cfg: Config) {
    nodes != [] && RootMatches(nodes[0], rootHash, cfg) && Walks(nodes, DigitsOf(key, WIDTH), value, cfg)
  }

  /** All proofs of a batch; surplus keys, values or proofs are ignored as by zip. */
  method VerifyProof(values: seq<Bytes>, keys: seq<Bytes>, rootHash: Bytes, commitments: seq<seq<Bytes>>, rootWitness: Bytes,
                     cfg: Config) returns (ok: bool)
    ensures ok <==> rootWitness == rootHash && forall i :: 0 <= i < |commitments| && i < |keys| && i < |values| ==>
      Verifies(commitments[i], keys[i], values[i], rootHash, cfg)
  {
    hide Verifies;
    if rootWitness != rootHash {
      return false;
    }
    var n := if |commitments| < |keys| then |commitments| else |keys|;
    n := if n < |values| then n else |values|;
    for i := 0 to n
      invariant forall k :: 0 <= k < i ==> Verifies(commitments[k], keys[k], values[k], rootHash, cfg)
    {
      var single := VerifySingleProof(commitments[i], keys[i], values[i], rootHash, cfg);
      if !single {
        return false;
      }
    }
    ok := true;
  }

  method VerifySingleProof(proofNodes: seq<Bytes>, key: Bytes, expectedValue: Bytes, rootHash: Bytes, cfg: Config)
    returns (ok: bool)
    ensures ok <==> Verifies(proofNodes, key, expectedValue, rootHash, cfg)
  {
    if |proofNodes| == 0 {
      return false;
    }
    hide DigitsOf, Walks, DecodedNode;
    var path := new NibblePath.FromBytes(key, 0, WIDTH);
    ghost var whole := path.Rest();
    assert whole == DigitsOf(key, WIDTH);
    if !RootMatches(proofNodes[0], rootHash, cfg) {
      return false;
    }
    assert proofNodes[0..] == proofNodes;
    for i := 0 to |proofNodes|
      invariant path.Valid() && path.width == WIDTH
      invariant Walks(proofNodes, whole, expectedValue, cfg) <==> Walks(proofNodes[i..], path.Rest(), expectedValue, cfg)
    {
      WalkStep(proofNodes, i, path.Rest(), expectedValue, cfg);
      var decoded := DecodeNode(proofNodes[i], cfg.rlp);
      if decoded.None? {
        return false;
      }
      var node := decoded.value;
      if node.RawLeaf? {
        var same := node.path.Equals(path);
        return same && node.data == Str(expectedValue);
      }
      var next;
      var amount;
      if node.RawExtension? {
        var below := path.StartsWith(node.path);
        if !below {
          return false;
        }
        amount, next := node.path.Length(), node.nextRef;
      } else {
        if path.Length() == 0 {
          return node.data == Str(expectedValue);
        }
        var idx := path.At(0);
        if idx >= |node.branches| || |node.branches[idx]| == 0 {
          return false;
        }
        amount, next := 1, node.branches[idx];
      }
      path.Consume(amount);
      if i + 1 < |proofNodes| {
        if next != ReferenceOf(proofNodes[i + 1], cfg) {
          return false;
        }
      }
    }
    WalkEnds(path.Rest(), expectedValue, cfg);
    ok := false;
  }

  lemma WalkEnds(path: Digits, value: Bytes, cfg: Config)
    ensures !Walks([], path, value, cfg)
  {
  }

  /** What the next node of the list says about the rest of the walk. */
  lemma WalkStep(nodes: seq<Bytes>, i: nat, path: Digits, value: Bytes, cfg: Config)
    requires i < |nodes|
    ensures DecodedNode(nodes[i], cfg.rlp).None? ==> !Walks(nodes[i..], path, value, cfg)
    ensures DecodedNode(nodes[i], cfg.rlp).Some? ==> var part := DecodedNode(nodes[i], cfg.rlp).value;
      && (part.LeafPart? ==> (Walks(nodes[i..], path, value, cfg) <==> part.path == path && part.data == Str(value)))
      && (part.ExtensionPart? ==> (Walks(nodes[i..], path, value, cfg) <==>
           && part.path <= path && (i + 1 < |nodes| ==> part.nextRef == ReferenceOf(nodes[i + 1], cfg))
           && Walks(nodes[i + 1..], path[|part.path|..], value, cfg)))
      && (part.BranchPart? && path == [] ==> (Walks(nodes[i..], path, value, cfg) <==> part.data == Str(value)))
      && (part.BranchPart? && path != [] ==> (Walks(nodes[i..], path, value, cfg) <==>
           && path[0] < |part.branches| && part.branches[path[0]] != []
           && (i + 1 < |nodes| ==> part.branches[path[0]] == ReferenceOf(nodes[i + 1], cfg))
           && Walks(nodes[i + 1..], path[1..], value, cfg)))
  {
    hide DecodedNode, ReferenceOf;
    assert nodes[i..][1..] == nodes[i + 1..];
  }

  // ----- what a proof shows

  ghost predicate KeccakTrie(t: Trie, cfg: Config) {
    !cfg.poseidon && AllGood(Nodes(t, cfg), cfg)
  }

  lemma EncodedNode(t: Trie, cfg: Config)
    requires KeccakTrie(t, cfg)
    ensures var e := EncodedBy(NodeOf(t, cfg), cfg);
      && DecodedNode(e, cfg.rlp) == Some(PartOf(NodeOf(t, cfg))) && ReferenceOf(e, cfg) == RefOf(t, cfg) && |RefOf(t, cfg)| == CHUNK
  {
    OwnNode(t, cfg);
    GoodIn(NodeOf(t, cfg), Nodes(t, cfg), cfg);
    DecodesNode(NodeOf(t, cfg), cfg.rlp);
  }

  lemma ChildTrie(t: Trie, i: nat, cfg: Config)
    requires KeccakTrie(t, cfg) && t.Branch? && i < |t.children| && t.children[i].Some?
    ensures KeccakTrie(t.children[i].value, cfg)
  {
    ChildNodes(t, i, cfg);
    GoodSubset(Nodes(t, cfg), Nodes(t.children[i].value, cfg), cfg);
  }

  lemma GoodSubset(all: set<TrieNode>, part: set<TrieNode>, cfg: Config)
    requires AllGood(all, cfg) && part <= all
    ensures AllGood(part, cfg)
  {
  }

  /** The proof of a key begins with the root and shows the value of the key. */
  lemma {:induction false} ProofWalks(t: Trie, path: Digits, cfg: Config)
    requires KeccakTrie(t, cfg) && Shaped(t) && Below(path, WIDTH) && Lookup(t, path).Some?
    ensures Walks(ProofOf(t, path, cfg), path, Lookup(t, path).value, cfg)
    ensures ProofOf(t, path, cfg) != [] && ReferenceOf(ProofOf(t, path, cfg)[0], cfg) == RefOf(t, cfg)
    decreases t
  {
    hide AllGood, EncodedBy, GoodNode, Nodes, Shaped, KeccakTrie, DecodedNode, RefOf, ReferenceOf;
    EncodedNode(t, cfg);
    var proof := ProofOf(t, path, cfg);
    match t
    case Leaf(_, _) => LeafWalks(t, path, proof, cfg);
    case Ext(p, child) =>
      ExtTrie(t, cfg);
      ProofWalks(child, path[|p|..], cfg);
      assert proof == [EncodedBy(NodeOf(t, cfg), cfg)] + ProofOf(child, path[|p|..], cfg);
      ExtWalks(t, path, ProofOf(child, path[|p|..], cfg), Lookup(t, path).value, cfg);
    case Branch(children, value) =>
      if path == [] {
        LeafWalks(t, path, proof, cfg);
      } else {
        BranchTrie(t, path[0], cfg);
        ProofWalks(children[path[0]].value, path[1..], cfg);
        assert proof == [EncodedBy(NodeOf(t, cfg), cfg)] + ProofOf(children[path[0]].value, path[1..], cfg);
        BranchWalks(t, path, ProofOf(children[path[0]].value, path[1..], cfg), Lookup(t, path).value, cfg);
      }
  }

  /** Subtries of a trie whose nodes can be stored. */
  lemma ExtTrie(t: Trie, cfg: Config)
    requires t.Ext? && Shaped(t) && KeccakTrie(t, cfg)
    ensures Shaped(t.child) && KeccakTrie(t.child, cfg)
  {
    ExtNodes(t.path, t.child, cfg);
    GoodSubset(Nodes(t, cfg), Nodes(t.child, cfg), cfg);
  }

  lemma BranchTrie(t: Trie, i: nat, cfg: Config)
    requires t.Branch? && i < |t.children| && t.children[i].Some? && Shaped(t) && KeccakTrie(t, cfg)
    ensures Shaped(t.children[i].value) && KeccakTrie(t.children[i].value, cfg)
    ensures |RefOf(t.children[i].value, cfg)| == CHUNK
  {
    ChildTrie(t, i, cfg);
    EncodedNode(t.children[i].value, cfg);
  }

  /** The path ends at the first node. */
  lemma LeafWalks(t: Trie, path: Digits, proof: seq<Bytes>, cfg: Config)
    requires proof == [EncodedBy(NodeOf(t, cfg), cfg)] && DecodedNode(proof[0], cfg.rlp) == Some(PartOf(NodeOf(t, cfg)))
    requires (t.Leaf? && t.path == path) || (t.Branch? && path == [])
    ensures Walks(proof, path, t.value, cfg)
  {
  }

  /** One step through an extension, or through a branch. */
  lemma ExtWalks(t: Trie, path: Digits, rest: seq<Bytes>, value: Bytes, cfg: Config)
    requires t.Ext? && t.path <= path && DecodedNode(EncodedBy(NodeOf(t, cfg), cfg), cfg.rlp) == Some(PartOf(NodeOf(t, cfg)))
    requires rest != [] && ReferenceOf(rest[0], cfg) == RefOf(t.child, cfg) && Walks(rest, path[|t.path|..], value, cfg)
    ensures Walks([EncodedBy(NodeOf(t, cfg), cfg)] + rest, path, value, cfg)
  {
    hide ReferenceOf, EncodedBy, DecodedNode;
    assert ([EncodedBy(NodeOf(t, cfg), cfg)] + rest)[1..] == rest;
  }

  lemma BranchWalks(t: Trie, path: Digits, rest: seq<Bytes>, value: Bytes, cfg: Config)
    requires t.Branch? && path != [] && path[0] < |t.children| && t.children[path[0]].Some?
    requires DecodedNode(EncodedBy(NodeOf(t, cfg), cfg), cfg.rlp) == Some(PartOf(NodeOf(t, cfg)))
    requires |RefOf(t.children[path[0]].value, cfg)| == CHUNK
    requires rest != [] && ReferenceOf(rest[0], cfg) == RefOf(t.children[path[0]].value, cfg) && Walks(rest, path[1..], value, cfg)
    ensures Walks([EncodedBy(NodeOf(t, cfg), cfg)] + rest, path, value, cfg)
  {
    hide ReferenceOf, EncodedBy, DecodedNode;
    assert ([EncodedBy(NodeOf(t, cfg), cfg)] + rest)[1..] == rest;
  }

  /** No listed node and no node of the trie share a reference without being the same. */
  ghost predicate NoForgery(nodes: seq<Bytes>, t: Trie, cfg: Config) {
    forall i, n :: 0 <= i < |nodes| && n in Nodes(t, cfg) && ReferenceOf(nodes[i], cfg) == Ref(n, cfg) ==> nodes[i] == EncodedBy(n, cfg)
  }

  lemma ForgerySubset(nodes: seq<Bytes>, t: Trie, t': Trie, cfg: Config)
    requires NoForgery(nodes, t, cfg) && nodes != [] && Nodes(t', cfg) <= Nodes(t, cfg)
    ensures NoForgery(nodes[1..], t', cfg)
  {
    forall i, n | 0 <= i < |nodes[1..]| && n in Nodes(t', cfg) && ReferenceOf(nodes[1..][i], cfg) == Ref(n, cfg)
      ensures nodes[1..][i] == EncodedBy(n, cfg)
    {
      assert nodes[i + 1] == nodes[1..][i];
    }
  }

  /** A list that begins with the root of the trie shows no value but the stored one. */
  lemma {:induction false} WalksSound(nodes: seq<Bytes>, t: Trie, path: Digits, value: Bytes, cfg: Config)
    requires KeccakTrie(t, cfg) && Shaped(t) && Below(path, WIDTH)
    requires NoForgery(nodes, t, cfg)
    requires Walks(nodes, path, value, cfg) && ReferenceOf(nodes[0], cfg) == RefOf(t, cfg)
    ensures Lookup(t, path) == Some(value)
    decreases t
  {
    hide AllGood, EncodedBy, NoForgery;
    EncodedNode(t, cfg);
    FirstIsRoot(nodes, t, cfg);
    match t
    case Leaf(_, _) =>
    case Ext(p, child) =>
      ExtNodes(p, child, cfg);
      GoodSubset(Nodes(t, cfg), Nodes(child, cfg), cfg);
      ForgerySubset(nodes, t, child, cfg);
      WalksSound(nodes[1..], child, path[|p|..], value, cfg);
    case Branch(children, _) =>
      if path != [] {
        ChildOf(t, path[0], cfg);
        ChildTrie(t, path[0], cfg);
        ChildNodes(t, path[0], cfg);
        ForgerySubset(nodes, t, children[path[0]].value, cfg);
        WalksSound(nodes[1..], children[path[0]].value, path[1..], value, cfg);
      }
  }

  lemma FirstIsRoot(nodes: seq<Bytes>, t: Trie, cfg: Config)
    requires NoForgery(nodes, t, cfg) && nodes != [] && ReferenceOf(nodes[0], cfg) == RefOf(t, cfg)
    ensures nodes[0] == EncodedBy(NodeOf(t, cfg), cfg)
  {
    OwnNode(t, cfg);
  }

  /** What verification accepts for a list whose first node is hashed is exactly what is at the end
      of the path, and the proof that the trie makes for it is accepted. */
  lemma VerificationExact(t: Trie, key: Bytes, value: Bytes, nodes: seq<Bytes>, cfg: Config)
    requires KeccakTrie(t, cfg) && Shaped(t)
    requires NoForgery(nodes, t, cfg) && nodes != [] && |nodes[0]| >= CHUNK && |cfg.hash(nodes[0])| == CHUNK
    ensures Verifies(nodes, key, value, RefOf(t, cfg), cfg) ==> Lookup(t, DigitsOf(key, WIDTH)) == Some(value)
    ensures Lookup(t, DigitsOf(key, WIDTH)) == Some(value) ==>
      Verifies(ProofOf(t, DigitsOf(key, WIDTH), cfg), key, value, RefOf(t, cfg), cfg)
  {
    hide Walks, ProofOf, Shaped, Lookup, AllGood, NoForgery, DigitsOf;
    var path := DigitsOf(key, WIDTH);
    if Verifies(nodes, key, value, RefOf(t, cfg), cfg) {
      WalksSound(nodes, t, path, value, cfg);
    }
    if Lookup(t, path) == Some(value) {
      ProofWalks(t, path, cfg);
    }
  }

  /** In terms of the contents: only the value of the key is accepted, or, for a key without a value
      whose path ends at a branch, the empty value. */
  lemma ContentsAccepted(t: Trie, m: map<Bytes, Bytes>, key: Bytes, value: Bytes, nodes: seq<Bytes>, cfg: Config)
    requires KeccakTrie(t, cfg) && Shaped(t) && RepresentsMap(Some(t), m)
    requires NoForgery(nodes, t, cfg) && nodes != [] && |nodes[0]| >= CHUNK && |cfg.hash(nodes[0])| == CHUNK
    ensures Verifies(nodes, key, value, RefOf(t, cfg), cfg) ==>
      if key in m then value == m[key] else value == [] && AtBranch(t, DigitsOf(key, WIDTH))
    ensures (forall k :: k in m ==> |k| == |key|) ==>
      (Verifies(nodes, key, value, RefOf(t, cfg), cfg) ==> key in m && value == m[key])
  {
    hide Walks, Shaped, Lookup, AllGood, NoForgery, DigitsOf, Verifies, KeccakTrie, EndsAt;
    VerificationExact(t, key, value, nodes, cfg);
    if key !in m {
      NotKey(m, key);
      if forall k :: k in m ==> |k| == |key| {
        OneLength(t, m, key);
      }
    }
  }

  // ----- the first node

  /** With a first node that is too short to be hashed the root is not looked at. */
  lemma RootIgnored(nodes: seq<Bytes>, key: Bytes, value: Bytes, rootHash: Bytes, other: Bytes, cfg: Config)
    requires nodes != [] && |nodes[0]| < CHUNK
    ensures Verifies(nodes, key, value, rootHash, cfg) <==> Verifies(nodes, key, value, other, cfg)
  {
    hide Walks, DigitsOf;
  }

  /** Verification accepts a list exactly if it leads along the key to the value and its first node,
      unless that is too short to be hashed, is the root. */
  lemma FirstNodeExact(t: Trie, key: Bytes, value: Bytes, nodes: seq<Bytes>, cfg: Config)
    requires KeccakTrie(t, cfg) && NoForgery(nodes, t, cfg) && nodes != [] && |cfg.hash(nodes[0])| == CHUNK
    ensures Verifies(nodes, key, value, RefOf(t, cfg), cfg) <==>
      && Walks(nodes, DigitsOf(key, WIDTH), value, cfg)
      && (|nodes[0]| < CHUNK || nodes[0] == EncodedBy(NodeOf(t, cfg), cfg))
  {
    hide Walks, DigitsOf, AllGood, NoForgery;
    EncodedNode(t, cfg);
    if |nodes[0]| >= CHUNK && ReferenceOf(nodes[0], cfg) == RefOf(t, cfg) {
      FirstIsRoot(nodes, t, cfg);
    }
  }

  /** So a single leaf with the path of the key and any value that makes a short node is accepted
      for every root. */
  lemma ShortLeafAccepted(key: Bytes, value: Bytes, rootHash: Bytes, cfg: Config)
    requires GoodRlp(cfg.rlp)
    requires var leaf := LeafNode(DigitsOf(key, WIDTH), value); |cfg.rlp.encode(ItemsOf(leaf, cfg.rlp))| < CHUNK
    ensures var leaf := LeafNode(DigitsOf(key, WIDTH), value);
      Verifies([cfg.rlp.encode(ItemsOf(leaf, cfg.rlp))], key, value, rootHash, cfg)
  {
    hide DigitsOf, GoodRlp;
    DecodesNode(LeafNode(DigitsOf(key, WIDTH), value), cfg.rlp);
  }
}
