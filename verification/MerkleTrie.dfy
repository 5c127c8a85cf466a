/** The Merkle Patricia trie over a store of nodes addressed by hash: tree/merkle_tree.py. */
module MerkleTrie {
  import opened Wrappers
  import opened ByteStrings
  import opened Nibbles
  import opened TrieNodes
  import opened RlpNodes
  import opened TrieShape
  import opened TrieCanonical

  /** The mode of a trie, and the foreign functions it uses. */
  datatype Config = Config(poseidon: bool, hash: Bytes -> Bytes, rlp: Rlp)

  ghost function EncodedBy(n: TrieNode, cfg: Config): Bytes {
    if !PathOk(n) then [] else if cfg.poseidon then ZkEncoded(n) else cfg.rlp.encode(ItemsOf(n, cfg.rlp))
  }

  ghost function Ref(n: TrieNode, cfg: Config): Bytes {
    cfg.hash(EncodedBy(n, cfg))
  }

  /** How a node is referred to: in keccak mode a short one by its encoding, which is not stored. */
  ghost function ReferenceTo(n: TrieNode, cfg: Config): Bytes {
    if !cfg.poseidon && |EncodedBy(n, cfg)| < CHUNK then EncodedBy(n, cfg) else Ref(n, cfg)
  }

  /** A node that can be stored under a hash and read back. */
  ghost predicate GoodNode(n: TrieNode, cfg: Config) {
    && PathOk(n) && |Ref(n, cfg)| == CHUNK
    && if cfg.poseidon then Fits(n) && IsReference(Ref(n, cfg))
       else GoodRlp(cfg.rlp) && PlainReferences(n) && |EncodedBy(n, cfg)| >= CHUNK
  }

  lemma GoodReference(n: TrieNode, cfg: Config)
    requires GoodNode(n, cfg)
    ensures ReferenceTo(n, cfg) == Ref(n, cfg) && |Ref(n, cfg)| == CHUNK
  {
  }

  ghost function NodeOf(t: Trie, cfg: Config): TrieNode {
    match t
    case Leaf(path, value) => LeafNode(path, value)
    case Ext(path, child) => ExtensionNode(path, Ref(NodeOf(child, cfg), cfg))
    case Branch(children, value) =>
      BranchNode(seq(|children|, i requires 0 <= i < |children| =>
        if children[i].None? then [] else Ref(NodeOf(children[i].value, cfg), cfg)), value)
  }

  ghost function RefOf(t: Trie, cfg: Config): Bytes {
    Ref(NodeOf(t, cfg), cfg)
  }

  ghost function Nodes(t: Trie, cfg: Config): set<TrieNode> {
    match t
    case Leaf(path, value) => {NodeOf(t, cfg)}
    case Ext(path, child) => {NodeOf(t, cfg)} + Nodes(child, cfg)
    case Branch(children, value) =>
      {NodeOf(t, cfg)} + set i, n | 0 <= i < |children| && children[i].Some? && n in Nodes(children[i].value, cfg) :: n
  }

  ghost function NodesOf(t: Option<Trie>, cfg: Config): set<TrieNode> {
    if t.None? then {} else Nodes(t.value, cfg)
  }

  lemma ChildNodes(t: Trie, i: nat, cfg: Config)
    requires t.Branch? && i < |t.children| && t.children[i].Some?
    ensures Nodes(t.children[i].value, cfg) <= Nodes(t, cfg)
  {
    forall n | n in Nodes(t.children[i].value, cfg)
      ensures n in Nodes(t, cfg)
    {
    }
  }

  /** The nodes of a branch with one child replaced. */
  lemma ReplacedNodes(t: Trie, i: nat, t': Trie, cfg: Config)
    requires t.Branch? && i < |t.children|
    ensures var after := Branch(t.children[i := Some(t')], t.value);
      Nodes(after, cfg) <= Nodes(t, cfg) + Nodes(t', cfg) + {NodeOf(after, cfg)} && Nodes(t', cfg) <= Nodes(after, cfg)
  {
    var after := Branch(t.children[i := Some(t')], t.value);
    assert after.children[i] == Some(t');
    ChildNodes(after, i, cfg);
    forall n | n in Nodes(after, cfg) && n != NodeOf(after, cfg)
      ensures n in Nodes(t, cfg) + Nodes(t', cfg)
    {
      var j :| 0 <= j < |after.children| && after.children[j].Some? && n in Nodes(after.children[j].value, cfg);
      if j != i {
        ChildNodes(t, j, cfg);
      }
    }
  }

  // ----- the store

  ghost predicate IsStored(db: map<Bytes, Bytes>, n: TrieNode, cfg: Config) {
    GoodNode(n, cfg) && Ref(n, cfg) in db && db[Ref(n, cfg)] == EncodedBy(n, cfg)
  }

  ghost predicate AllStored(db: map<Bytes, Bytes>, nodes: set<TrieNode>, cfg: Config) {
    forall n :: n in nodes ==> IsStored(db, n, cfg)
  }

  /** No two of the nodes have the same reference. */
  ghost predicate CollisionFree(nodes: set<TrieNode>, cfg: Config) {
    forall a, b :: a in nodes && b in nodes && Ref(a, cfg) == Ref(b, cfg) ==> a == b
  }

  ghost predicate AllGood(nodes: set<TrieNode>, cfg: Config) {
    forall n :: n in nodes ==> GoodNode(n, cfg)
  }

  lemma StoreKeeps(db: map<Bytes, Bytes>, n: TrieNode, nodes: set<TrieNode>, all: set<TrieNode>, cfg: Config)
    requires AllStored(db, nodes, cfg) && nodes + {n} <= all && CollisionFree(all, cfg) && GoodNode(n, cfg)
    ensures AllStored(db[Ref(n, cfg) := EncodedBy(n, cfg)], nodes + {n}, cfg)
  {
    forall x | x in nodes + {n}
      ensures IsStored(db[Ref(n, cfg) := EncodedBy(n, cfg)], x, cfg)
    {
      if x != n {
        assert Ref(x, cfg) != Ref(n, cfg);
      }
    }
  }

  /** The path of a key. */
  ghost predicate IsKey(m: map<Bytes, Bytes>, path: Digits) {
    exists key :: key in m && DigitsOf(key, WIDTH) == path
  }

  /** The trie has the values of the map, and otherwise the empty values of branches. */
  ghost predicate RepresentsMap(t: Option<Trie>, m: map<Bytes, Bytes>) {
    && (t.None? ==> m == map[])
    && (forall key :: key in m ==> t.Some? && Lookup(t.value, DigitsOf(key, WIDTH)) == Some(m[key]))
    && (t.Some? ==> forall path: Digits :: Below(path, WIDTH) && !IsKey(m, path) ==>
      Lookup(t.value, path) == if AtBranch(t.value, path) then Some([]) else None)
  }

  /** The trie once a path has its value. */
  ghost function After(t: Option<Trie>, path: Digits, value: Bytes): Trie
    requires Below(path, WIDTH) && (t.Some? ==> Shaped(t.value))
  {
    if t.None? then Leaf(path, value) else InsertInto(t.value, path, value)
  }

  /** Keys of any length have different paths. */
  lemma PathsDiffer(a: Bytes, b: Bytes)
    ensures DigitsOf(a, WIDTH) == DigitsOf(b, WIDTH) <==> a == b
  {
    if DigitsOf(a, WIDTH) == DigitsOf(b, WIDTH) {
      assert 2 * |a| == 2 * |b|;
      DigitsInjective(a, b, WIDTH);
    }
  }

  lemma KeyStays(m: map<Bytes, Bytes>, m': map<Bytes, Bytes>, path: Digits)
    requires forall key :: key in m ==> key in m'
    ensures IsKey(m, path) ==> IsKey(m', path)
  {
    if IsKey(m, path) {
      var key :| key in m && DigitsOf(key, WIDTH) == path;
      assert key in m';
    }
  }

  lemma AfterRepresents(t: Option<Trie>, m: map<Bytes, Bytes>, key: Bytes, value: Bytes)
    requires (t.Some? ==> Shaped(t.value)) && RepresentsMap(t, m)
    ensures var after := After(t, DigitsOf(key, WIDTH), value);
      Shaped(after) && RepresentsMap(Some(after), m[key := value])
  {
    hide InsertInto, Lookup, Shaped, DigitsOf, AtBranch;
    var path := DigitsOf(key, WIDTH);
    var after, m' := After(t, path, value), m[key := value];
    if t.Some? {
      InsertShaped(t.value, path, value);
    } else {
      LeafShaped(path, value);
    }
    forall k | k in m'
      ensures Lookup(after, DigitsOf(k, WIDTH)) == Some(m'[k])
    {
      PathsDiffer(k, key);
      AfterView(t, path, value, DigitsOf(k, WIDTH));
    }
    forall k: Digits | Below(k, WIDTH) && !IsKey(m', k)
      ensures Lookup(after, k) == if AtBranch(after, k) then Some([]) else None
    {
      assert key in m' && k != path;
      KeyStays(m, m', k);
      AfterView(t, path, value, k);
    }
  }

  // ----- the trie depends on the contents only

  /** The paths of the keys. */
  ghost function Paths(m: map<Bytes, Bytes>): set<Digits> {
    set key | key in m :: DigitsOf(key, WIDTH)
  }

  /** Branches stand exactly where keys part. */
  ghost predicate TightFor(t: Option<Trie>, m: map<Bytes, Bytes>) {
    t.None? || Tight(t.value, Paths(m), [])
  }

  lemma PathsMore(m: map<Bytes, Bytes>, key: Bytes, value: Bytes)
    ensures Paths(m[key := value]) == With(Paths(m), [], DigitsOf(key, WIDTH))
  {
    hide DigitsOf;
    var path := DigitsOf(key, WIDTH);
    assert [] + path == path;
    assert key in m[key := value];
    forall k | k in m
      ensures DigitsOf(k, WIDTH) in Paths(m[key := value])
    {
      assert k in m[key := value];
    }
  }

  /** Insertion keeps branches where keys part. */
  lemma AfterTight(t: Option<Trie>, m: map<Bytes, Bytes>, key: Bytes, value: Bytes)
    requires (t.Some? ==> Shaped(t.value)) && RepresentsMap(t, m) && TightFor(t, m)
    ensures TightFor(Some(After(t, DigitsOf(key, WIDTH), value)), m[key := value])
  {
    var path := DigitsOf(key, WIDTH);
    PathsMore(m, key, value);
    if t.Some? {
      hide InsertInto, Tight, DigitsOf, Paths, RepresentsMap;
      InsertTight(t.value, path, value, Paths(m), []);
    } else {
      NoTrie(t, m);
      assert [] + path == path;
    }
  }

  /** Tries for the same contents are the same, in whatever order their keys came. */
  lemma ContentsDetermineTrie(t: Trie, t': Trie, m: map<Bytes, Bytes>)
    requires RepresentsMap(Some(t), m) && TightFor(Some(t), m)
    requires RepresentsMap(Some(t'), m) && TightFor(Some(t'), m)
    ensures t == t'
  {
    hide Tight, DigitsOf, Lookup;
    forall k | k in Paths(m) && [] <= k
      ensures Lookup(t, k[0..]) == Lookup(t', k[0..])
    {
      var key :| key in m && DigitsOf(key, WIDTH) == k;
      assert k[0..] == k;
    }
    SameTrie(t, t', Paths(m), []);
  }

  /** A key without a value ends at a branch exactly if two keys part there, and then it has the empty value. */
  lemma AbsentExactly(t: Trie, m: map<Bytes, Bytes>, key: Bytes)
    requires Shaped(t) && RepresentsMap(Some(t), m) && TightFor(Some(t), m) && key !in m
    ensures Lookup(t, DigitsOf(key, WIDTH)) == if PartAt(Paths(m), DigitsOf(key, WIDTH)) then Some([]) else None
  {
    hide Tight, DigitsOf, Lookup, Shaped, AtBranch, PartAt;
    var path := DigitsOf(key, WIDTH);
    NotKey(m, key);
    BranchExactly(t, Paths(m), [], path);
    assert [] + path == path;
  }

  /** Tries with the same contents have the same root. */
  lemma ContentsDetermineRoot(a: MerklePatriciaTrie, b: MerklePatriciaTrie)
    requires a.Valid() && b.Valid() && TightFor(a.trie, a.contents) && TightFor(b.trie, b.contents)
    requires a.contents == b.contents && a.cfg == b.cfg
    ensures a.trie == b.trie && a.rootRef == b.rootRef
  {
    hide RepresentsMap, TightFor, AllStored, Shaped, RefOf;
    NoneIfEmpty(a.trie, a.contents);
    NoneIfEmpty(b.trie, b.contents);
    if a.trie.Some? {
      ContentsDetermineTrie(a.trie.value, b.trie.value, a.contents);
    }
  }

  lemma NoneIfEmpty(t: Option<Trie>, m: map<Bytes, Bytes>)
    requires RepresentsMap(t, m) && TightFor(t, m)
    ensures t.None? <==> m == map[]
  {
    hide Tight, DigitsOf;
    if t.Some? {
      var k := TightKey(t.value, Paths(m), []);
    }
  }

  /** Insertion sets one value; elsewhere values stay, and new branches have the empty value. */
  lemma AfterView(t: Option<Trie>, path: Digits, value: Bytes, k: Digits)
    requires Below(path, WIDTH) && (t.Some? ==> Shaped(t.value))
    ensures var after := After(t, path, value);
      && (k == path ==> Lookup(after, k) == Some(value))
      && (k != path && t.None? ==> Lookup(after, k) == None && !AtBranch(after, k))
      && (k != path && t.Some? ==>
        && (Lookup(t.value, k).Some? ==> Lookup(after, k) == Lookup(t.value, k))
        && (Lookup(t.value, k).None? ==> Lookup(after, k) == if AtBranch(after, k) then Some([]) else None)
        && (AtBranch(t.value, k) ==> AtBranch(after, k)))
  {
    hide InsertInto, Lookup, Shaped, AtBranch;
    if t.Some? {
      InsertView(t.value, path, value, k);
    } else {
      LeafView(path, value, k);
    }
  }

  lemma LeafShaped(path: Digits, value: Bytes)
    requires Below(path, WIDTH)
    ensures Shaped(Leaf(path, value))
  {
  }

  /** What a lookup returns, exactly: the value of the key if it has one, and otherwise the data of a
      leaf or a branch at which the path of the key ends. */
  ghost function Answer(t: Option<Trie>, m: map<Bytes, Bytes>, key: Bytes): Option<Bytes> {
    if key in m then Some(m[key])
    else if t.None? then None
    else
      match EndsAt(t.value, DigitsOf(key, WIDTH))
      case Some(Leaf(_, value)) => Some(value)
      case Some(Branch(_, _)) => Some([])
      case _ => None
  }

  lemma NotKey(m: map<Bytes, Bytes>, key: Bytes)
    requires key !in m
    ensures !IsKey(m, DigitsOf(key, WIDTH))
  {
    if IsKey(m, DigitsOf(key, WIDTH)) {
      var k :| k in m && DigitsOf(k, WIDTH) == DigitsOf(key, WIDTH);
      PathsDiffer(k, key);
    }
  }

  lemma GotAnswer(t: Trie, m: map<Bytes, Bytes>, key: Bytes)
    requires Shaped(t) && RepresentsMap(Some(t), m)
    ensures Got(t, DigitsOf(key, WIDTH)) == Answer(Some(t), m, key)
  {
    hide Lookup, Shaped, DigitsOf, EndsAt, Got;
    GotExactly(t, DigitsOf(key, WIDTH));
    if key !in m {
      NotKey(m, key);
      assert AtBranch(t, DigitsOf(key, WIDTH)) <==>
        EndsAt(t, DigitsOf(key, WIDTH)).Some? && EndsAt(t, DigitsOf(key, WIDTH)).value.Branch?;
    }
  }

  lemma KeyLength(m: map<Bytes, Bytes>, path: Digits, n: nat)
    requires forall key :: key in m ==> |key| == n
    ensures IsKey(m, path) ==> |path| == 2 * n
  {
  }

  /** Keys of the same length end nowhere but at their own values. */
  lemma OneLength(t: Trie, m: map<Bytes, Bytes>, key: Bytes)
    requires key !in m && forall k :: k in m ==> |k| == |key|
    requires Shaped(t) && RepresentsMap(Some(t), m)
    ensures EndsAt(t, DigitsOf(key, WIDTH)) == None
  {
    hide Lookup, Shaped, EndsAt;
    var path := DigitsOf(key, WIDTH);
    NotKey(m, key);
    if EndsAt(t, path).Some? {
      var more := Continued(t, path);
      assert Below(path + more, WIDTH);
      KeyLength(m, path + more, |key|);
    }
  }

  /** The encoded nodes along a path. */
  ghost function ProofOf(t: Trie, path: Digits, cfg: Config): seq<Bytes>
    decreases t
  {
    [EncodedBy(NodeOf(t, cfg), cfg)] +
    if t.Leaf? then []
    else if t.Ext? then (if t.path <= path then ProofOf(t.child, path[|t.path|..], cfg) else [])
    else if path != [] && path[0] < |t.children| && t.children[path[0]].Some? then ProofOf(t.children[path[0]].value, path[1..], cfg)
    else []
  }

  /** Cuts off what two paths have in common. */
  method CutCommon(path: NibblePath, nodePath: NibblePath) returns (prefix: NibblePath)
    requires path.Valid() && nodePath.Valid() && path.width == nodePath.width && path != nodePath
    modifies path`offset, nodePath`offset
    ensures fresh(prefix) && prefix.Valid() && prefix.width == path.width && path.Valid() && nodePath.Valid()
    ensures var c := CommonLength(old(path.Rest()), old(nodePath.Rest()));
      && prefix.Rest() == old(path.Rest())[..c] && path.Rest() == old(path.Rest())[c..] && nodePath.Rest() == old(nodePath.Rest())[c..]
  {
    prefix := path.CommonPrefix(nodePath);
    path.Consume(prefix.Length());
    nodePath.Consume(prefix.Length());
  }

  class MerklePatriciaTrie {
    const cfg: Config
    var db: map<Bytes, Bytes>
    var rootRef: Option<Bytes>
    ghost var trie: Option<Trie>
    ghost var contents: map<Bytes, Bytes>

    ghost predicate Valid()
      reads this
    {
      && RepresentsMap(trie, contents)
      && (trie.None? <==> rootRef.None?)
      && (trie.Some? ==> Shaped(trie.value) && rootRef.value == RefOf(trie.value, cfg))
      && AllStored(db, NodesOf(trie, cfg), cfg)
    }

    constructor (cfg: Config)
      ensures Valid() && contents == map[] && this.cfg == cfg && TightFor(trie, contents)
    {
      this.cfg := cfg;
      db := map[];
      rootRef := None;
      trie := None;
      contents := map[];
    }

    /** A trie from its store and the reference of its root. */
    constructor Open(cfg: Config, db: map<Bytes, Bytes>, rootRef: Bytes, ghost t: Trie, ghost m: map<Bytes, Bytes>)
      requires Shaped(t) && RepresentsMap(Some(t), m)
      requires AllStored(db, Nodes(t, cfg), cfg) && rootRef == RefOf(t, cfg)
      ensures Valid() && contents == m && this.cfg == cfg && this.db == db
    {
      hide RepresentsMap, Shaped, AllStored, Nodes, RefOf;
      this.cfg := cfg;
      this.db := db;
      this.rootRef := Some(rootRef);
      trie := Some(t);
      contents := m;
    }

    // ----- the operations

    /** Sets the value of a key.  The hypotheses say that the nodes of the new trie can be
        stored under their hashes and that no two nodes, before or after, share one. */
    method Insert(key: Bytes, value: Bytes)
      requires Valid()
      requires AllGood(Nodes(Inserted(key, value), cfg), cfg)
      requires CollisionFree(NodesOf(trie, cfg) + Nodes(Inserted(key, value), cfg), cfg)
      modifies this
      ensures Valid() && contents == old(contents)[key := value] && trie == Some(old(Inserted(key, value)))
      ensures old(TightFor(trie, contents)) ==> TightFor(trie, contents)
    {
      hide TightFor;
      hide CollisionFree, AllStored, AllGood, GoodNode, InsertInto, Lookup, RepresentsMap, Shaped, Nodes, DigitsOf;
      ghost var whole, keep := Inserted(key, value), NodesOf(trie, cfg);
      AfterRepresents(trie, contents, key, value);
      if TightFor(trie, contents) {
        AfterTight(trie, contents, key, value);
      }
      StoredGood(db, keep, Nodes(whole, cfg), cfg);
      var path := new NibblePath.FromBytes(key, 0, WIDTH);
      assert path.Rest() == DigitsOf(key, WIDTH);
      var nodeRef := if rootRef.None? then [] else rootRef.value;
      var newRootRef := Update(nodeRef, path, value, trie, keep, keep + Nodes(whole, cfg));
      rootRef := Some(newRootRef);
      trie, contents := Some(whole), contents[key := value];
      StoredSubset(db, keep + Nodes(whole, cfg), Nodes(whole, cfg), cfg);
    }

    /** The trie once the key has its value. */
    ghost function Inserted(key: Bytes, value: Bytes): Trie
      reads this
      requires Valid()
    {
      After(trie, DigitsOf(key, WIDTH), value)
    }

    /** The value of a key; None where the source raises a KeyError.  A key without a value
        is answered too if its path ends at a leaf or a branch, which keys of one length
        do not. */
    method Get(key: Bytes) returns (r: Option<Bytes>)
      requires Valid()
      ensures r == Answer(trie, contents, key)
      ensures (forall k :: k in contents ==> |k| == |key|) ==> r == if key in contents then Some(contents[key]) else None
    {
      hide AllStored, GoodNode, Lookup, Shaped, Nodes, DigitsOf, EndsAt, Reached, RepresentsMap;
      if rootRef.None? {
        NoTrie(trie, contents);
        return None;
      }
      GotAnswer(trie.value, contents, key);
      if key !in contents && forall k :: k in contents ==> |k| == |key| {
        OneLength(trie.value, contents, key);
      }
      var path := new NibblePath.FromBytes(key, 0, WIDTH);
      assert path.Rest() == DigitsOf(key, WIDTH);
      var node := GetFrom(rootRef.value, path, trie.value);
      if node.None? || node.value.ExtensionObject? {
        return None;
      }
      r := Some(node.value.data);
    }

    lemma ReachedStep(t: Trie, path: Digits)
      ensures Reached(t, path) ==
        if path == [] then Some(t)
        else if t.Leaf? then if t.path == path then Some(t) else None
        else if t.Ext? then if t.path <= path then Reached(t.child, path[|t.path|..]) else None
        else if path[0] >= |t.children| || t.children[path[0]].None? then None
        else Reached(t.children[path[0]].value, path[1..])
    {
    }

    /** The node at which a path ends. */
    method GetFrom(nodeRef: Bytes, path: NibblePath, ghost t: Trie) returns (r: Option<NodeObject>)
      requires path.Valid() && path.width == WIDTH && Shaped(t)
      requires nodeRef == RefOf(t, cfg) && AllStored(db, Nodes(t, cfg), cfg)
      modifies path`offset
      ensures r.Some? <==> Reached(t, old(path.Rest())).Some?
      ensures r.Some? ==> ValidObject(r.value) && NodeValue(r.value) == NodeOf(Reached(t, old(path.Rest())).value, cfg)
      decreases |path.Rest()|
    {
      hide AllStored, GoodNode, IsStored, Nodes, Reached;
      OwnStored(db, t, cfg);
      ReachedStep(t, path.Rest());
      var node := GetNode(nodeRef, NodeOf(t, cfg));
      if path.Length() == 0 {
        return Some(node);
      }
      if node.LeafObject? {
        var same := node.path.Equals(path);
        r := if same then Some(node) else None;
      } else if node.ExtensionObject? {
        var below := path.StartsWith(node.path);
        if !below {
          return None;
        }
        ExtNodes(t.path, t.child, cfg);
        StoredSubset(db, Nodes(t, cfg), Nodes(t.child, cfg), cfg);
        path.Consume(node.path.Length());
        r := GetFrom(node.nextRef, path, t.child);
      } else {
        var idx := path.At(0);
        var branchRef := node.branches[idx];
        ChildOf(t, idx, cfg);
        if t.children[idx].Some? {
          StoredSubset(db, Nodes(t, cfg), Nodes(t.children[idx].value, cfg), cfg);
          RefNonempty(db, t.children[idx].value, cfg);
        }
        if |branchRef| == 0 {
          return None;
        }
        path.Consume(1);
        r := GetFrom(branchRef, path, t.children[idx].value);
      }
    }

    /** The encoded nodes on the path of a key, from the root; None where the source
        raises a KeyError.  A key without a value has a proof if its path ends at a branch. */
    method GetProofTree(key: Bytes) returns (r: Option<seq<Bytes>>)
      requires Valid()
      ensures r.Some? <==> key in contents || (trie.Some? && AtBranch(trie.value, DigitsOf(key, WIDTH)))
      ensures r.Some? ==> trie.Some? && r.value == ProofOf(trie.value, DigitsOf(key, WIDTH), cfg)
      ensures (forall k :: k in contents ==> |k| == |key|) ==> (r.Some? <==> key in contents)
    {
      hide AllStored, GoodNode, Lookup, Shaped, Nodes, DigitsOf, ProofOf, EndsAt;
      if rootRef.None? {
        return None;
      }
      if key !in contents {
        NotKey(contents, key);
        if forall k :: k in contents ==> |k| == |key| {
          OneLength(trie.value, contents, key);
        }
      }
      var path := new NibblePath.FromBytes(key, 0, WIDTH);
      assert path.Rest() == DigitsOf(key, WIDTH);
      BranchFound(trie.value, path.Rest());
      r := Collect(rootRef.value, path, trie.value);
    }

    method Collect(nodeRef: Bytes, path: NibblePath, ghost t: Trie) returns (r: Option<seq<Bytes>>)
      requires path.Valid() && path.width == WIDTH && Shaped(t)
      requires nodeRef == RefOf(t, cfg) && AllStored(db, Nodes(t, cfg), cfg)
      modifies path`offset
      ensures r.Some? <==> Lookup(t, old(path.Rest())).Some?
      ensures r.Some? ==> r.value == ProofOf(t, old(path.Rest()), cfg)
      decreases |path.Rest()|
    {
      hide AllStored, GoodNode, IsStored, EncodedBy;
      EncodedStored(db, t, cfg);
      var encodedNode := db[nodeRef];
      var node := GetNode(nodeRef, NodeOf(t, cfg));
      if node.LeafObject? {
        var same := node.path.Equals(path);
        r := if same then Some([encodedNode]) else None;
        return;
      }
      if path.Length() == 0 {
        r := if node.BranchObject? then Some([encodedNode]) else None;
        return;
      }
      var rest;
      if node.ExtensionObject? {
        var below := path.StartsWith(node.path);
        if !below {
          return None;
        }
        ExtNodes(t.path, t.child, cfg);
        StoredSubset(db, Nodes(t, cfg), Nodes(t.child, cfg), cfg);
        path.Consume(node.path.Length());
        rest := Collect(node.nextRef, path, t.child);
      } else {
        var idx := path.At(0);
        var childRef := node.branches[idx];
        ChildOf(t, idx, cfg);
        if t.children[idx].Some? {
          StoredSubset(db, Nodes(t, cfg), Nodes(t.children[idx].value, cfg), cfg);
          RefNonempty(db, t.children[idx].value, cfg);
        }
        if |childRef| == 0 {
          return None;
        }
        path.Consume(1);
        rest := Collect(childRef, path, t.children[idx].value);
      }
      r := if rest.None? then None else Some([encodedNode] + rest.value);
    }

    // ----- nodes

    /** Reads a node; the hypothesis that it is stored rules the KeyError out. */
    method GetNode(reference: Bytes, ghost n: TrieNode) returns (node: NodeObject)
      requires IsStored(db, n, cfg) && Ref(n, cfg) == reference
      ensures ValidObject(node) && NodeValue(node) == n
      ensures !node.BranchObject? ==> fresh(node.path)
    {
      var data := db[reference];
      if cfg.poseidon {
        var decoded := ZkDecode(data, n);
        return decoded.value;
      }
      DecodesNode(n, cfg.rlp);
      var decoded := DecodeNode(data, cfg.rlp);
      match decoded.value {
        case RawLeaf(path, item) => node := LeafObject(path, item.bytes);
        case RawExtension(path, nextRef) => node := ExtensionObject(path, nextRef);
        case RawBranch(branches, item) => node := BranchObject(branches, item.bytes);
      }
    }

    method StoreNode(node: NodeObject, ghost keep: set<TrieNode>, ghost all: set<TrieNode>) returns (reference: Bytes)
      requires ValidObject(node)
      requires AllStored(db, keep, cfg) && keep + {NodeValue(node)} <= all && CollisionFree(all, cfg)
      modifies this`db
      ensures reference == ReferenceTo(NodeValue(node), cfg)
      ensures db == if |reference| == CHUNK then old(db)[reference := EncodedBy(NodeValue(node), cfg)] else old(db)
      ensures GoodNode(NodeValue(node), cfg) ==>
        reference == Ref(NodeValue(node), cfg) && AllStored(db, keep + {NodeValue(node)}, cfg)
    {
      hide GoodNode, EncodedBy, IsStored, NodeValue, AllStored, CollisionFree;
      ghost var n := NodeValue(node);
      var encoded := EncodeObject(node);
      reference := if !cfg.poseidon && |encoded| < CHUNK then encoded else cfg.hash(encoded);
      if GoodNode(n, cfg) {
        GoodReference(n, cfg);
        StoreKeeps(db, n, keep, all, cfg);
      }
      if |reference| == CHUNK {
        db := db[reference := encoded];
      }
    }

    method EncodeObject(node: NodeObject) returns (encoded: Bytes)
      requires ValidObject(node)
      ensures encoded == EncodedBy(NodeValue(node), cfg)
    {
      hide ZkEncoded, ItemsOf;
      if !cfg.poseidon {
        encoded := EncodeNode(node, cfg.rlp);
        return;
      }
      match node {
        case LeafObject(path, data) => encoded := ZkEncodeLeaf(path, data);
        case ExtensionObject(path, nextRef) => encoded := ZkEncodeExtension(path, nextRef);
        case BranchObject(branches, data) => encoded := ZkEncodeBranch(branches, data);
      }
    }

    // ----- updating

    /** The reference of the subtrie once the path has its value. */
    method Update(nodeRef: Bytes, path: NibblePath, value: Bytes, ghost t: Option<Trie>, ghost keep: set<TrieNode>, ghost all: set<TrieNode>)
      returns (reference: Bytes)
      requires path.Valid() && path.width == WIDTH
      requires t.Some? ==> Shaped(t.value)
      requires nodeRef == if t.None? then [] else RefOf(t.value, cfg)
      requires AllStored(db, keep, cfg) && NodesOf(t, cfg) <= keep
      requires keep + Nodes(After(t, path.Rest(), value), cfg) <= all && CollisionFree(all, cfg) && AllGood(all, cfg)
      modifies this`db, path`offset
      ensures reference == RefOf(After(t, old(path.Rest()), value), cfg)
      ensures AllStored(db, keep + Nodes(After(t, old(path.Rest()), value), cfg), cfg)
      decreases |path.Rest()|
    {
      hide CollisionFree, AllStored, AllGood, GoodNode, InsertInto, Lookup, Extended, Fork;
      ghost var whole := After(t, path.Rest(), value);
      if nodeRef == [] {
        NonemptyRef(t, keep, db, cfg);
        LeafNodes(path.Rest(), value, cfg);
        GoodIn(NodeOf(whole, cfg), all, cfg);
        reference := StoreNode(LeafObject(path, value), keep, all);
        return;
      }
      NonemptyRef(t, keep, db, cfg);
      var node := GetNode(nodeRef, NodeOf(t.value, cfg));
      if node.LeafObject? {
        reference := UpdateLeaf(node.path, node.data, path, value, t.value, keep, all);
      } else if node.ExtensionObject? {
        reference := UpdateExtension(node.path, node.nextRef, path, value, t.value, keep, all);
      } else {
        reference := UpdateBranch(node.branches, node.data, path, value, t.value, keep, all);
      }
    }

    method UpdateLeaf(nodePath: NibblePath, data: Bytes, path: NibblePath, value: Bytes, ghost t: Trie,
                      ghost keep: set<TrieNode>, ghost all: set<TrieNode>) returns (reference: Bytes)
      requires path.Valid() && path.width == WIDTH && nodePath.Valid() && nodePath.width == WIDTH && path != nodePath
      requires Shaped(t) && t == Leaf(nodePath.Rest(), data)
      requires AllStored(db, keep, cfg)
      requires keep + Nodes(InsertInto(t, path.Rest(), value), cfg) <= all && CollisionFree(all, cfg) && AllGood(all, cfg)
      modifies this`db, path`offset, nodePath`offset
      ensures reference == RefOf(InsertInto(t, old(path.Rest()), value), cfg)
      ensures AllStored(db, keep + Nodes(InsertInto(t, old(path.Rest()), value), cfg), cfg)
      decreases |path.Rest()|, 0
    {
      hide CollisionFree, AllStored, AllGood, GoodNode, Lookup;
      ghost var whole := InsertInto(t, path.Rest(), value);
      var same := nodePath.Equals(path);
      if same {
        LeafNodes(path.Rest(), value, cfg);
        GoodIn(NodeOf(whole, cfg), all, cfg);
        reference := StoreNode(LeafObject(nodePath, value), keep, all);
        return;
      }
      reference := SplitLeaf(nodePath, data, path, value, keep, all);
    }

    method SplitLeaf(nodePath: NibblePath, data: Bytes, path: NibblePath, value: Bytes,
                     ghost keep: set<TrieNode>, ghost all: set<TrieNode>) returns (reference: Bytes)
      requires path.Valid() && path.width == WIDTH && nodePath.Valid() && nodePath.width == WIDTH && path != nodePath
      requires path.Rest() != nodePath.Rest()
      requires AllStored(db, keep, cfg)
      requires keep + Nodes(InsertInto(Leaf(nodePath.Rest(), data), path.Rest(), value), cfg) <= all
      requires CollisionFree(all, cfg) && AllGood(all, cfg)
      modifies this`db, path`offset, nodePath`offset
      ensures reference == RefOf(InsertInto(Leaf(old(nodePath.Rest()), data), old(path.Rest()), value), cfg)
      ensures AllStored(db, keep + Nodes(InsertInto(Leaf(old(nodePath.Rest()), data), old(path.Rest()), value), cfg), cfg)
    {
      hide CollisionFree, AllStored, AllGood, GoodNode, Lookup, InsertInto, Extended, Fork, CommonLength, Nodes, NodeOf;
      ghost var p, q := path.Rest(), nodePath.Rest();
      ghost var c, fork := LeafParts(p, value, q, data, cfg);
      var commonPrefix := CutCommon(path, nodePath);
      var branchRef := CreateBranchNode(path, value, nodePath, data, fork, keep, all);
      reference := ExtendFork(commonPrefix, branchRef, fork, keep, all);
    }

    /** An extension is put above a branch unless its path is empty. */
    method Extend(prefix: NibblePath, branchRef: Bytes, ghost t: Trie, ghost keep: set<TrieNode>, ghost all: set<TrieNode>)
      returns (reference: Bytes)
      requires prefix.Valid() && prefix.width == WIDTH && branchRef == RefOf(t, cfg) && Nodes(t, cfg) <= keep
      requires AllStored(db, keep, cfg)
      requires keep + Nodes(Extended(prefix.Rest(), t), cfg) <= all && CollisionFree(all, cfg) && AllGood(all, cfg)
      modifies this`db
      ensures reference == RefOf(Extended(prefix.Rest(), t), cfg)
      ensures AllStored(db, keep + Nodes(Extended(prefix.Rest(), t), cfg), cfg)
    {
      hide CollisionFree, AllStored, AllGood, GoodNode;
      ghost var whole := Extended(prefix.Rest(), t);
      ExtendedNodes(prefix.Rest(), t, cfg);
      if prefix.Length() != 0 {
        GoodIn(NodeOf(whole, cfg), all, cfg);
        reference := StoreNode(ExtensionObject(prefix, branchRef), keep, all);
        assert keep + {NodeOf(whole, cfg)} == keep + Nodes(whole, cfg);
      } else {
        reference := branchRef;
        assert keep + Nodes(whole, cfg) == keep;
      }
    }

    /** The same for a branch that has just been stored. */
    method ExtendFork(prefix: NibblePath, branchRef: Bytes, ghost t: Trie, ghost keep: set<TrieNode>, ghost all: set<TrieNode>)
      returns (reference: Bytes)
      requires prefix.Valid() && prefix.width == WIDTH && branchRef == RefOf(t, cfg) && AllStored(db, keep + Nodes(t, cfg), cfg)
      requires Nodes(t, cfg) <= Nodes(Extended(prefix.Rest(), t), cfg)
      requires keep + Nodes(Extended(prefix.Rest(), t), cfg) <= all && CollisionFree(all, cfg) && AllGood(all, cfg)
      modifies this`db
      ensures reference == RefOf(Extended(prefix.Rest(), t), cfg)
      ensures AllStored(db, keep + Nodes(Extended(prefix.Rest(), t), cfg), cfg)
    {
      hide *;
      ghost var whole := Extended(prefix.Rest(), t);
      reference := Extend(prefix, branchRef, t, keep + Nodes(t, cfg), all);
      assert keep + Nodes(t, cfg) + Nodes(whole, cfg) == keep + Nodes(whole, cfg);
    }

    /** A branch with a leaf for each of two paths that part at once; an empty path leaves its
        value in the branch. */
    method CreateBranchNode(pathA: NibblePath, valueA: Bytes, pathB: NibblePath, valueB: Bytes, ghost t: Trie,
                            ghost keep: set<TrieNode>, ghost all: set<TrieNode>) returns (reference: Bytes)
      requires pathA.Valid() && pathA.width == WIDTH && pathB.Valid() && pathB.width == WIDTH && pathA != pathB
      requires Apart(pathA.Rest(), pathB.Rest()) && t == LeafFork(pathA.Rest(), valueA, pathB.Rest(), valueB)
      requires AllStored(db, keep, cfg)
      requires keep + Nodes(t, cfg) <= all && CollisionFree(all, cfg) && AllGood(all, cfg)
      modifies this`db, pathA`offset, pathB`offset
      ensures reference == RefOf(t, cfg) && AllStored(db, keep + Nodes(t, cfg), cfg)
    {
      hide CollisionFree, AllStored, AllGood, GoodNode, Nodes;
      ghost var a, b := pathA.Rest(), pathB.Rest();
      ghost var ta, tb := Leaf(Tail(a), valueA), Leaf(Tail(b), valueB);
      var branches: seq<Bytes> := seq(WIDTH, _ => []);
      var branchValue: Bytes := [];
      if pathA.Length() == 0 {
        branchValue := valueA;
      } else if pathB.Length() == 0 {
        branchValue := valueB;
      }
      assert t == Fork(a, ta, b, tb, branchValue);
      ForkNodes(a, ta, b, tb, branchValue, cfg);
      hide Fork, LeafFork, Part, PutRef, NodeOf;
      branches := CreateBranchLeaf(pathA, valueA, branches, ta, keep, all);
      branches := CreateBranchLeaf(pathB, valueB, branches, tb, keep + Part(a, ta, cfg), all);
      reference := StoreBranch(branches, branchValue, t, keep + Part(a, ta, cfg) + Part(b, tb, cfg), keep, all);
    }

    /** A branch whose children are stored. */
    method StoreBranch(branches: seq<Bytes>, value: Bytes, ghost t: Trie, ghost stored: set<TrieNode>, ghost keep: set<TrieNode>,
                       ghost all: set<TrieNode>) returns (reference: Bytes)
      requires NodeOf(t, cfg) == BranchNode(branches, value) && AllStored(db, stored, cfg)
      requires stored + {NodeOf(t, cfg)} <= all && CollisionFree(all, cfg) && AllGood(all, cfg)
      requires keep + Nodes(t, cfg) <= stored + {NodeOf(t, cfg)}
      modifies this`db
      ensures reference == RefOf(t, cfg) && AllStored(db, keep + Nodes(t, cfg), cfg)
    {
      hide CollisionFree, AllStored, AllGood, GoodNode, Nodes, NodeOf;
      GoodIn(NodeOf(t, cfg), all, cfg);
      reference := StoreNode(BranchObject(branches, value), stored, all);
      StoredSubset(db, stored + {NodeOf(t, cfg)}, keep + Nodes(t, cfg), cfg);
    }

    /** A leaf for what is left of a path, in the slot of its first digit. */
    method CreateBranchLeaf(path: NibblePath, value: Bytes, branches: seq<Bytes>, ghost t: Trie,
                            ghost keep: set<TrieNode>, ghost all: set<TrieNode>) returns (r: seq<Bytes>)
      requires path.Valid() && path.width == WIDTH && |branches| == WIDTH
      requires t == Leaf(Tail(path.Rest()), value)
      requires AllStored(db, keep, cfg)
      requires keep + Part(path.Rest(), t, cfg) <= all && CollisionFree(all, cfg) && AllGood(all, cfg)
      modifies this`db, path`offset
      ensures r == PutRef(branches, old(path.Rest()), RefOf(t, cfg))
      ensures AllStored(db, keep + Part(old(path.Rest()), t, cfg), cfg)
    {
      hide CollisionFree, AllStored, AllGood, GoodNode;
      r := branches;
      if path.Length() > 0 {
        var idx := path.At(0);
        path.Consume(1);
        LeafNodes(path.Rest(), value, cfg);
        GoodIn(NodeOf(t, cfg), all, cfg);
        var leafRef := StoreNode(LeafObject(path, value), keep, all);
        r := r[idx := leafRef];
      } else {
        assert keep + Part(path.Rest(), t, cfg) == keep;
      }
    }

    /** What is left of an extension, in the slot of its first digit. */
    method CreateBranchExtension(path: NibblePath, nextRef: Bytes, branches: seq<Bytes>, ghost child: Trie,
                                 ghost keep: set<TrieNode>, ghost all: set<TrieNode>) returns (r: seq<Bytes>)
      requires path.Valid() && path.width == WIDTH && path.Length() > 0 && |branches| == WIDTH
      requires nextRef == RefOf(child, cfg) && Nodes(child, cfg) <= keep
      requires AllStored(db, keep, cfg)
      requires keep + Nodes(Extended(path.Rest()[1..], child), cfg) <= all && CollisionFree(all, cfg) && AllGood(all, cfg)
      modifies this`db, path`offset
      ensures r == branches[old(path.Rest()[0]) := RefOf(Extended(old(path.Rest()[1..]), child), cfg)]
      ensures AllStored(db, keep + Nodes(Extended(old(path.Rest()[1..]), child), cfg), cfg)
    {
      hide CollisionFree, AllStored, AllGood, GoodNode;
      ghost var whole := Extended(path.Rest()[1..], child);
      ExtendedNodes(path.Rest()[1..], child, cfg);
      if path.Length() == 1 {
        r := branches[path.At(0) := nextRef];
        assert keep + Nodes(whole, cfg) == keep;
      } else {
        var idx := path.At(0);
        path.Consume(1);
        GoodIn(NodeOf(whole, cfg), all, cfg);
        var ref := StoreNode(ExtensionObject(path, nextRef), keep, all);
        r := branches[idx := ref];
        assert keep + {NodeOf(whole, cfg)} == keep + Nodes(whole, cfg);
      }
    }

    method UpdateExtension(nodePath: NibblePath, nextRef: Bytes, path: NibblePath, value: Bytes, ghost t: Trie,
                           ghost keep: set<TrieNode>, ghost all: set<TrieNode>) returns (reference: Bytes)
      requires path.Valid() && path.width == WIDTH && nodePath.Valid() && nodePath.width == WIDTH && path != nodePath
      requires Shaped(t) && t.Ext? && t.path == nodePath.Rest() && nextRef == RefOf(t.child, cfg)
      requires AllStored(db, keep, cfg) && Nodes(t, cfg) <= keep
      requires keep + Nodes(InsertInto(t, path.Rest(), value), cfg) <= all && CollisionFree(all, cfg) && AllGood(all, cfg)
      modifies this`db, path`offset, nodePath`offset
      ensures reference == RefOf(InsertInto(t, old(path.Rest()), value), cfg)
      ensures AllStored(db, keep + Nodes(InsertInto(t, old(path.Rest()), value), cfg), cfg)
      decreases |path.Rest()|, 0
    {
      hide CollisionFree, AllStored, AllGood, GoodNode, Lookup;
      var below := path.StartsWith(nodePath);
      if !below {
        reference := SplitExtension(nodePath, nextRef, path, value, t, keep, all);
        return;
      }
      ghost var whole := InsertInto(t, path.Rest(), value);
      ghost var next := InsertInto(t.child, path.Rest()[|t.path|..], value);
      path.Consume(nodePath.Length());
      ExtNodes(t.path, t.child, cfg);
      ExtNodes(t.path, next, cfg);
      hide InsertInto;
      var newRef := Update(nextRef, path, value, Some(t.child), keep, all);
      GoodIn(NodeOf(whole, cfg), all, cfg);
      reference := StoreNode(ExtensionObject(nodePath, newRef), keep + Nodes(next, cfg), all);
      assert keep + Nodes(next, cfg) + {NodeOf(whole, cfg)} == keep + Nodes(whole, cfg);
    }

    method SplitExtension(nodePath: NibblePath, nextRef: Bytes, path: NibblePath, value: Bytes, ghost t: Trie,
                          ghost keep: set<TrieNode>, ghost all: set<TrieNode>) returns (reference: Bytes)
      requires path.Valid() && path.width == WIDTH && nodePath.Valid() && nodePath.width == WIDTH && path != nodePath
      requires Shaped(t) && t.Ext? && t.path == nodePath.Rest() && nextRef == RefOf(t.child, cfg)
      requires !(t.path <= path.Rest())
      requires AllStored(db, keep, cfg) && Nodes(t, cfg) <= keep
      requires keep + Nodes(InsertInto(t, path.Rest(), value), cfg) <= all && CollisionFree(all, cfg) && AllGood(all, cfg)
      modifies this`db, path`offset, nodePath`offset
      ensures reference == RefOf(InsertInto(t, old(path.Rest()), value), cfg)
      ensures AllStored(db, keep + Nodes(InsertInto(t, old(path.Rest()), value), cfg), cfg)
    {
      hide CollisionFree, AllStored, AllGood, GoodNode, Lookup, Nodes, NodeOf;
      ghost var p, q := path.Rest(), nodePath.Rest();
      ghost var c, fork := SplitParts(p, value, t, cfg);
      hide InsertInto, Shaped, Extended, Fork, CommonLength, ExtFork;
      var commonPrefix := CutCommon(path, nodePath);
      var branchRef := ForkExtension(nodePath, nextRef, path, value, t.child, fork, keep, all);
      reference := ExtendFork(commonPrefix, branchRef, fork, keep, all);
    }

    /** The branch for a new leaf, or a new value, and for what is left of an extension. */
    method ForkExtension(nodePath: NibblePath, nextRef: Bytes, path: NibblePath, value: Bytes, ghost child: Trie,
                         ghost t: Trie, ghost keep: set<TrieNode>, ghost all: set<TrieNode>) returns (reference: Bytes)
      requires path.Valid() && path.width == WIDTH && nodePath.Valid() && nodePath.width == WIDTH && path != nodePath
      requires nodePath.Length() > 0 && Apart(path.Rest(), nodePath.Rest())
      requires nextRef == RefOf(child, cfg) && Nodes(child, cfg) <= keep
      requires t == ExtFork(path.Rest(), value, nodePath.Rest(), child)
      requires AllStored(db, keep, cfg)
      requires keep + Nodes(t, cfg) <= all && CollisionFree(all, cfg) && AllGood(all, cfg)
      modifies this`db, path`offset, nodePath`offset
      ensures reference == RefOf(t, cfg) && AllStored(db, keep + Nodes(t, cfg), cfg)
    {
      hide CollisionFree, AllStored, AllGood, GoodNode, Nodes, Extended;
      ghost var a, b := path.Rest(), nodePath.Rest();
      ghost var ta, tb := Leaf(Tail(a), value), Extended(Tail(b), child);
      var branches: seq<Bytes> := seq(WIDTH, _ => []);
      var branchValue: Bytes := if path.Length() == 0 then value else [];
      assert t == Fork(a, ta, b, tb, branchValue);
      ForkNodes(a, ta, b, tb, branchValue, cfg);
      assert Part(b, tb, cfg) == Nodes(tb, cfg);
      hide Fork, ExtFork, Part, NodeOf;
      branches := CreateBranchLeaf(path, value, branches, ta, keep, all);
      branches := CreateBranchExtension(nodePath, nextRef, branches, child, keep + Part(a, ta, cfg), all);
      reference := StoreBranch(branches, branchValue, t, keep + Part(a, ta, cfg) + Nodes(tb, cfg), keep, all);
    }

    method UpdateBranch(branches: seq<Bytes>, data: Bytes, path: NibblePath, value: Bytes, ghost t: Trie,
                        ghost keep: set<TrieNode>, ghost all: set<TrieNode>) returns (reference: Bytes)
      requires path.Valid() && path.width == WIDTH
      requires Shaped(t) && t.Branch? && NodeOf(t, cfg) == BranchNode(branches, data)
      requires AllStored(db, keep, cfg) && Nodes(t, cfg) <= keep
      requires keep + Nodes(InsertInto(t, path.Rest(), value), cfg) <= all && CollisionFree(all, cfg) && AllGood(all, cfg)
      modifies this`db, path`offset
      ensures reference == RefOf(InsertInto(t, old(path.Rest()), value), cfg)
      ensures AllStored(db, keep + Nodes(InsertInto(t, old(path.Rest()), value), cfg), cfg)
      decreases |path.Rest()|, 1
    {
      hide CollisionFree, AllStored, AllGood, GoodNode, Lookup, Nodes;
      if path.Length() == 0 {
        reference := SetBranchValue(branches, value, t, keep, all);
        return;
      }
      reference := UpdateChild(branches, data, path, value, t, keep, all);
    }

    /** The path goes on below the branch. */
    method UpdateChild(branches: seq<Bytes>, data: Bytes, path: NibblePath, value: Bytes, ghost t: Trie,
                       ghost keep: set<TrieNode>, ghost all: set<TrieNode>) returns (reference: Bytes)
      requires path.Valid() && path.width == WIDTH && path.Length() > 0
      requires Shaped(t) && t.Branch? && NodeOf(t, cfg) == BranchNode(branches, data)
      requires AllStored(db, keep, cfg) && Nodes(t, cfg) <= keep
      requires keep + Nodes(InsertInto(t, path.Rest(), value), cfg) <= all && CollisionFree(all, cfg) && AllGood(all, cfg)
      modifies this`db, path`offset
      ensures reference == RefOf(InsertInto(t, old(path.Rest()), value), cfg)
      ensures AllStored(db, keep + Nodes(InsertInto(t, old(path.Rest()), value), cfg), cfg)
      decreases |path.Rest()|, 0
    {
      hide CollisionFree, AllStored, AllGood, GoodNode, Lookup, Nodes, HasChild;
      var idx := path.At(0);
      ghost var child := t.children[idx];
      ghost var whole := InsertInto(t, path.Rest(), value);
      ghost var next := After(child, path.Rest()[1..], value);
      assert whole == Branch(t.children[idx := Some(next)], t.value);
      ReplacedNodes(t, idx, next, cfg);
      ChildOf(t, idx, cfg);
      BranchReplaced(t, idx, next, cfg);
      OwnNode(whole, cfg);
      hide InsertInto, After, NodeOf;
      path.Consume(1);
      var newRef := Update(branches[idx], path, value, child, keep, all);
      reference := StoreBranch(branches[idx := newRef], data, whole, keep + Nodes(next, cfg), keep, all);
    }

    /** The path ends at the branch. */
    method SetBranchValue(branches: seq<Bytes>, value: Bytes, ghost t: Trie, ghost keep: set<TrieNode>, ghost all: set<TrieNode>)
      returns (reference: Bytes)
      requires t.Branch? && NodeOf(t, cfg).BranchNode? && NodeOf(t, cfg).branches == branches
      requires AllStored(db, keep, cfg) && Nodes(t, cfg) <= keep
      requires keep + Nodes(Branch(t.children, value), cfg) <= all && CollisionFree(all, cfg) && AllGood(all, cfg)
      modifies this`db
      ensures reference == RefOf(Branch(t.children, value), cfg)
      ensures AllStored(db, keep + Nodes(Branch(t.children, value), cfg), cfg)
    {
      hide CollisionFree, AllStored, AllGood, GoodNode, Nodes;
      ghost var whole := Branch(t.children, value);
      RevaluedNodes(t, value, cfg);
      OwnNode(whole, cfg);
      GoodIn(NodeOf(whole, cfg), all, cfg);
      reference := StoreNode(BranchObject(branches, value), keep, all);
      StoredSubset(db, keep + {NodeOf(whole, cfg)}, keep + Nodes(whole, cfg), cfg);
    }
  }

  // ----- nodes of the parts

  lemma StoredGood(db: map<Bytes, Bytes>, keep: set<TrieNode>, more: set<TrieNode>, cfg: Config)
    requires AllStored(db, keep, cfg) && AllGood(more, cfg)
    ensures AllGood(keep + more, cfg)
  {
  }

  lemma OwnStored(db: map<Bytes, Bytes>, t: Trie, cfg: Config)
    requires AllStored(db, Nodes(t, cfg), cfg)
    ensures IsStored(db, NodeOf(t, cfg), cfg)
  {
    OwnNode(t, cfg);
  }

  /** The node of a trie can be read, and what is read is its encoding. */
  lemma EncodedStored(db: map<Bytes, Bytes>, t: Trie, cfg: Config)
    requires AllStored(db, Nodes(t, cfg), cfg)
    ensures IsStored(db, NodeOf(t, cfg), cfg) && Ref(NodeOf(t, cfg), cfg) == RefOf(t, cfg)
    ensures RefOf(t, cfg) in db && db[RefOf(t, cfg)] == EncodedBy(NodeOf(t, cfg), cfg)
  {
    OwnStored(db, t, cfg);
  }

  lemma RefNonempty(db: map<Bytes, Bytes>, t: Trie, cfg: Config)
    requires AllStored(db, Nodes(t, cfg), cfg)
    ensures |RefOf(t, cfg)| == CHUNK
  {
    OwnStored(db, t, cfg);
  }

  lemma GoodIn(n: TrieNode, all: set<TrieNode>, cfg: Config)
    requires n in all && AllGood(all, cfg)
    ensures GoodNode(n, cfg)
  {
  }

  lemma StoredSubset(db: map<Bytes, Bytes>, stored: set<TrieNode>, nodes: set<TrieNode>, cfg: Config)
    requires AllStored(db, stored, cfg) && nodes <= stored
    ensures AllStored(db, nodes, cfg)
  {
  }

  /** The branch that a split leaf leaves. */
  lemma LeafParts(p: Digits, value: Bytes, q: Digits, data: Bytes, cfg: Config) returns (c: nat, fork: Trie)
    requires p != q && Below(p, WIDTH) && Below(q, WIDTH)
    ensures c == CommonLength(p, q) && Apart(p[c..], q[c..])
    ensures fork == LeafFork(p[c..], value, q[c..], data)
    ensures InsertInto(Leaf(q, data), p, value) == Extended(p[..c], fork)
    ensures Nodes(fork, cfg) <= Nodes(Extended(p[..c], fork), cfg)
  {
    PartsApart(p, q);
    c := CommonLength(p, q);
    fork := LeafFork(p[c..], value, q[c..], data);
    ExtendedNodes(p[..c], fork, cfg);
  }

  /** The branch that a split extension leaves. */
  lemma SplitParts(p: Digits, value: Bytes, t: Trie, cfg: Config) returns (c: nat, fork: Trie)
    requires t.Ext? && Shaped(t) && Below(p, WIDTH) && !(t.path <= p)
    ensures c == CommonLength(p, t.path) && Apart(p[c..], t.path[c..]) && t.path[c..] != []
    ensures fork == ExtFork(p[c..], value, t.path[c..], t.child)
    ensures InsertInto(t, p, value) == Extended(p[..c], fork)
    ensures Nodes(fork, cfg) <= Nodes(Extended(p[..c], fork), cfg)
    ensures Nodes(t.child, cfg) <= Nodes(t, cfg)
  {
    PartsApart(p, t.path);
    c := CommonLength(p, t.path);
    fork := ExtFork(p[c..], value, t.path[c..], t.child);
    ExtNodes(t.path, t.child, cfg);
    ExtendedNodes(p[..c], fork, cfg);
  }

  lemma NoTrie(t: Option<Trie>, m: map<Bytes, Bytes>)
    requires RepresentsMap(t, m) && t.None?
    ensures m == map[]
  {
  }

  lemma NonemptyRef(t: Option<Trie>, keep: set<TrieNode>, db: map<Bytes, Bytes>, cfg: Config)
    requires AllStored(db, keep, cfg) && NodesOf(t, cfg) <= keep
    ensures t.Some? ==> IsStored(db, NodeOf(t.value, cfg), cfg) && RefOf(t.value, cfg) != []
  {
    if t.Some? {
      OwnNode(t.value, cfg);
    }
  }

  lemma OwnNode(t: Trie, cfg: Config)
    ensures NodeOf(t, cfg) in Nodes(t, cfg)
  {
  }

  lemma LeafNodes(path: Digits, value: Bytes, cfg: Config)
    ensures Nodes(Leaf(path, value), cfg) == {NodeOf(Leaf(path, value), cfg)}
  {
  }

  lemma ExtNodes(path: Digits, child: Trie, cfg: Config)
    ensures Nodes(Ext(path, child), cfg) == {NodeOf(Ext(path, child), cfg)} + Nodes(child, cfg)
  {
  }

  lemma ExtendedNodes(prefix: Digits, t: Trie, cfg: Config)
    ensures Nodes(Extended(prefix, t), cfg) == {NodeOf(Extended(prefix, t), cfg)} + Nodes(t, cfg)
    ensures prefix == [] ==> Extended(prefix, t) == t
  {
    OwnNode(t, cfg);
  }

  /** A branch with one child replaced, as a node. */
  lemma BranchReplaced(t: Trie, i: nat, t': Trie, cfg: Config)
    requires t.Branch? && i < |t.children|
    ensures NodeOf(Branch(t.children[i := Some(t')], t.value), cfg)
      == BranchNode(NodeOf(t, cfg).branches[i := RefOf(t', cfg)], t.value)
  {
    var after := Branch(t.children[i := Some(t')], t.value);
    assert NodeOf(after, cfg).branches == NodeOf(t, cfg).branches[i := RefOf(t', cfg)];
  }

  lemma ChildOf(t: Trie, i: nat, cfg: Config)
    requires t.Branch? && i < |t.children|
    ensures NodesOf(t.children[i], cfg) <= Nodes(t, cfg)
    ensures NodeOf(t, cfg).branches[i] == if t.children[i].None? then [] else RefOf(t.children[i].value, cfg)
  {
    if t.children[i].Some? {
      ChildNodes(t, i, cfg);
    }
  }

  /** The nodes of a subtrie below a branch; an empty path has none. */
  ghost function Part(rest: Digits, t: Trie, cfg: Config): set<TrieNode> {
    if rest == [] then {} else Nodes(t, cfg)
  }

  ghost function PutRef(refs: seq<Bytes>, rest: Digits, ref: Bytes): (r: seq<Bytes>)
    requires |refs| == WIDTH && Below(rest, WIDTH)
    ensures |r| == WIDTH
  {
    if rest == [] then refs else refs[rest[0] := ref]
  }

  ghost function RefsOf(children: seq<Option<Trie>>, cfg: Config): (r: seq<Bytes>)
    ensures |r| == |children|
  {
    seq(|children|, i requires 0 <= i < |children| => if children[i].None? then [] else RefOf(children[i].value, cfg))
  }

  lemma PutRefs(children: seq<Option<Trie>>, rest: Digits, t: Trie, cfg: Config)
    requires |children| == WIDTH && Below(rest, WIDTH)
    ensures RefsOf(Put(children, rest, t), cfg) == PutRef(RefsOf(children, cfg), rest, RefOf(t, cfg))
  {
  }

  lemma ForkBranches(a: Digits, ta: Trie, b: Digits, tb: Trie, value: Bytes, cfg: Config)
    requires Below(a, WIDTH) && Below(b, WIDTH)
    ensures NodeOf(Fork(a, ta, b, tb, value), cfg)
      == BranchNode(PutRef(PutRef(seq(WIDTH, _ => []), a, RefOf(ta, cfg)), b, RefOf(tb, cfg)), value)
  {
    var t := Fork(a, ta, b, tb, value);
    assert RefsOf(NoTries(), cfg) == seq(WIDTH, _ => []);
    PutRefs(NoTries(), a, ta, cfg);
    PutRefs(Put(NoTries(), a, ta), b, tb, cfg);
    assert NodeOf(t, cfg).branches == RefsOf(t.children, cfg);
  }

  /** The nodes below a branch. */
  ghost function NodesBelow(children: seq<Option<Trie>>, cfg: Config): set<TrieNode> {
    set i, n | 0 <= i < |children| && children[i].Some? && n in Nodes(children[i].value, cfg) :: n
  }

  lemma PutNodes(children: seq<Option<Trie>>, rest: Digits, t: Trie, cfg: Config)
    requires |children| == WIDTH && Below(rest, WIDTH) && (rest != [] ==> children[rest[0]] == None)
    ensures NodesBelow(Put(children, rest, t), cfg) == NodesBelow(children, cfg) + Part(rest, t, cfg)
  {
    hide Nodes;
    if rest != [] {
      var after := Put(children, rest, t);
      assert after[rest[0]] == Some(t);
      forall n | n in NodesBelow(children, cfg) + Part(rest, t, cfg)
        ensures n in NodesBelow(after, cfg)
      {
        if n in NodesBelow(children, cfg) {
          var i :| 0 <= i < |children| && children[i].Some? && n in Nodes(children[i].value, cfg);
          assert after[i] == children[i];
        }
      }
    }
  }

  lemma ForkNodes(a: Digits, ta: Trie, b: Digits, tb: Trie, value: Bytes, cfg: Config)
    requires Below(a, WIDTH) && Below(b, WIDTH) && Apart(a, b)
    ensures var t := Fork(a, ta, b, tb, value);
      && NodeOf(t, cfg) == BranchNode(PutRef(PutRef(seq(WIDTH, _ => []), a, RefOf(ta, cfg)), b, RefOf(tb, cfg)), value)
      && Nodes(t, cfg) == {NodeOf(t, cfg)} + Part(a, ta, cfg) + Part(b, tb, cfg)
  {
    ForkBranches(a, ta, b, tb, value, cfg);
    BranchNodes(Fork(a, ta, b, tb, value), cfg);
    hide NodeOf, RefOf, PutRef, NodesBelow, Nodes, Part;
    NothingBelow(cfg);
    PutNodes(NoTries(), a, ta, cfg);
    PutNodes(Put(NoTries(), a, ta), b, tb, cfg);
  }

  lemma BranchNodes(t: Trie, cfg: Config)
    requires t.Branch?
    ensures Nodes(t, cfg) == {NodeOf(t, cfg)} + NodesBelow(t.children, cfg)
  {
  }

  lemma NothingBelow(cfg: Config)
    ensures NodesBelow(NoTries(), cfg) == {}
  {
  }

  /** The nodes of a branch with another value. */
  lemma RevaluedNodes(t: Trie, value: Bytes, cfg: Config)
    requires t.Branch?
    ensures var whole := Branch(t.children, value);
      && NodeOf(whole, cfg) == BranchNode(NodeOf(t, cfg).branches, value)
      && Nodes(whole, cfg) <= Nodes(t, cfg) + {NodeOf(whole, cfg)}
  {
    var whole := Branch(t.children, value);
    assert NodeOf(whole, cfg).branches == NodeOf(t, cfg).branches;
    forall n | n in Nodes(whole, cfg) && n != NodeOf(whole, cfg)
      ensures n in Nodes(t, cfg)
    {
      var j :| 0 <= j < |whole.children| && whole.children[j].Some? && n in Nodes(whole.children[j].value, cfg);
      ChildNodes(t, j, cfg);
    }
  }

  // ----- nodes that can be stored

  /** Paths use up at most n digits, and values fit into the field for data. */
  ghost predicate Small(t: Trie, n: nat) {
    match t
    case Leaf(path, value) => |path| <= n && |value| <= DATA_BYTES
    case Ext(path, child) => |path| <= n && Small(child, n - |path|)
    case Branch(children, value) =>
      && |value| <= DATA_BYTES
      && forall i :: 0 <= i < |children| && children[i].Some? ==> n > 0 && Small(children[i].value, n - 1)
  }

  lemma {:induction false} SmallMore(t: Trie, m: nat, n: nat)
    requires Small(t, m) && m <= n
    ensures Small(t, n)
    decreases t
  {
    match t
    case Leaf(_, _) =>
    case Ext(path, child) => SmallMore(child, m - |path|, n - |path|);
    case Branch(children, _) =>
      forall i | 0 <= i < |children| && children[i].Some?
        ensures Small(children[i].value, n - 1)
      {
        SmallMore(children[i].value, m - 1, n - 1);
      }
  }

  lemma SmallFork(prefix: Digits, a: Digits, ta: Trie, b: Digits, tb: Trie, value: Bytes, n: nat)
    requires Below(a, WIDTH) && Below(b, WIDTH) && |prefix| <= n && |value| <= DATA_BYTES
    requires a != [] ==> |prefix| < n && Small(ta, n - |prefix| - 1)
    requires b != [] ==> |prefix| < n && Small(tb, n - |prefix| - 1)
    ensures Small(Extended(prefix, Fork(a, ta, b, tb, value)), n)
  {
    assert Small(Fork(a, ta, b, tb, value), n - |prefix|);
  }

  lemma SmallRest(path: Digits, c: nat, child: Trie, n: nat)
    requires Small(Ext(path, child), n) && c < |path|
    ensures Small(Extended(Tail(path[c..]), child), n - c - 1)
  {
  }

  /** Inserting a small value under a short path keeps a trie small. */
  lemma {:induction false} SmallInserted(t: Trie, path: Digits, value: Bytes, n: nat)
    requires Shaped(t) && Below(path, WIDTH) && Small(t, n) && |path| <= n && |value| <= DATA_BYTES
    ensures Small(InsertInto(t, path, value), n)
    decreases t
  {
    hide Fork, HasChild, CommonLength, Extended;
    match t
    case Leaf(path', value') =>
      if path' != path {
        SmallLeafFork(path', value', path, value, n);
      }
    case Ext(path', child) =>
      if path' <= path {
        SmallInserted(child, path[|path'|..], value, n - |path'|);
      } else {
        SmallExtFork(path', child, path, value, n);
      }
    case Branch(children, value') =>
      if path != [] && children[path[0]].Some? {
        SmallInserted(children[path[0]].value, path[1..], value, n - 1);
      }
  }

  lemma SmallLeafFork(path': Digits, value': Bytes, path: Digits, value: Bytes, n: nat)
    requires Below(path, WIDTH) && Below(path', WIDTH) && path != path' && |path| <= n && |path'| <= n
    requires |value| <= DATA_BYTES && |value'| <= DATA_BYTES
    ensures Small(InsertInto(Leaf(path', value'), path, value), n)
  {
    hide Fork, HasChild, CommonLength, Extended;
    PartsApart(path, path');
    var c := CommonLength(path, path');
    var a, b := path[c..], path'[c..];
    SmallFork(path[..c], a, Leaf(Tail(a), value), b, Leaf(Tail(b), value'), if a == [] then value else if b == [] then value' else [], n);
  }

  lemma SmallExtFork(path': Digits, child: Trie, path: Digits, value: Bytes, n: nat)
    requires Shaped(Ext(path', child)) && Small(Ext(path', child), n) && Below(path, WIDTH) && !(path' <= path) && |path| <= n
    requires |value| <= DATA_BYTES
    ensures Small(InsertInto(Ext(path', child), path, value), n)
  {
    hide *;
    var c := CommonLength(path, path');
    var a, b := path[c..], path'[c..];
    ExtForked(path', child, path, value);
    SmallLength(path', child, n);
    SmallRest(path', c, child, n);
    SmallNew(path, value, c, n);
    SmallFork(path[..c], a, Leaf(Tail(a), value), b, Extended(Tail(b), child), if a == [] then value else [], n);
  }

  lemma ExtForked(path': Digits, child: Trie, path: Digits, value: Bytes)
    requires Shaped(Ext(path', child)) && Below(path, WIDTH) && !(path' <= path)
    ensures var c := CommonLength(path, path');
      c < |path'| && c <= |path| && Below(path[c..], WIDTH) && Below(path'[c..], WIDTH)
      && (path[c..] != [] ==> path[c..][0] != path'[c..][0])
      && InsertInto(Ext(path', child), path, value) == Extended(path[..c], Fork(path[c..], Leaf(Tail(path[c..]), value),
           path'[c..], Extended(Tail(path'[c..]), child), if path[c..] == [] then value else []))
  {
    hide Fork, HasChild, CommonLength, Extended;
    PartsApart(path, path');
  }

  lemma SmallLength(path: Digits, child: Trie, n: nat)
    requires Small(Ext(path, child), n)
    ensures |path| <= n
  {
  }

  lemma SmallNew(path: Digits, value: Bytes, c: nat, n: nat)
    requires |path| <= n && |value| <= DATA_BYTES
    ensures c < |path| ==> Small(Leaf(Tail(path[c..]), value), n - c - 1)
  {
  }

  /** In poseidon mode, with keys of at most 32 bytes and values of at most 96, every node
      can be stored and read back as long as hashes are references, that is, not zero. */
  lemma {:induction false} PoseidonGood(t: Trie, n: nat, cfg: Config, node: TrieNode)
    requires cfg.poseidon && Shaped(t) && Small(t, n) && n <= 64 && node in Nodes(t, cfg)
    requires forall x :: x in Nodes(t, cfg) ==> IsReference(Ref(x, cfg))
    ensures GoodNode(node, cfg)
    decreases t
  {
    hide IsReference, GoodNode, NodeOf;
    if node == NodeOf(t, cfg) {
      OwnGood(t, n, cfg);
    } else if t.Ext? {
      ExtNodes(t.path, t.child, cfg);
      PoseidonGood(t.child, n - |t.path|, cfg, node);
    } else {
      var i :| 0 <= i < |t.children| && t.children[i].Some? && node in Nodes(t.children[i].value, cfg);
      ChildNodes(t, i, cfg);
      PoseidonGood(t.children[i].value, n - 1, cfg, node);
    }
  }

  lemma OwnGood(t: Trie, n: nat, cfg: Config)
    requires cfg.poseidon && Shaped(t) && Small(t, n) && n <= 64
    requires forall x :: x in Nodes(t, cfg) ==> IsReference(Ref(x, cfg))
    ensures GoodNode(NodeOf(t, cfg), cfg)
  {
    OwnNode(t, cfg);
    ReferenceSize(RefOf(t, cfg));
    if t.Ext? {
      ExtNodes(t.path, t.child, cfg);
      OwnNode(t.child, cfg);
      ReferenceSize(RefOf(t.child, cfg));
    } else if t.Branch? {
      BranchGood(t, cfg);
    }
  }

  lemma ReferenceSize(ref: Bytes)
    requires IsReference(ref)
    ensures |ref| == CHUNK
  {
  }

  lemma BranchGood(t: Trie, cfg: Config)
    requires cfg.poseidon && t.Branch? && |t.children| == WIDTH && |t.value| <= DATA_BYTES
    requires forall x :: x in Nodes(t, cfg) ==> IsReference(Ref(x, cfg))
    ensures GoodNode(NodeOf(t, cfg), cfg)
  {
    OwnNode(t, cfg);
    forall i | 0 <= i < WIDTH
      ensures NodeOf(t, cfg).branches[i] == [] || IsReference(NodeOf(t, cfg).branches[i])
    {
      if t.children[i].Some? {
        ChildNodes(t, i, cfg);
        OwnNode(t.children[i].value, cfg);
      }
    }
  }

  /** In keccak mode every node can be stored and read back as long as encodings have at least
      the size of a hash, and hashes have that size. */
  lemma {:induction false} KeccakGood(t: Trie, cfg: Config, node: TrieNode)
    requires !cfg.poseidon && GoodRlp(cfg.rlp) && Shaped(t) && node in Nodes(t, cfg)
    requires forall x :: x in Nodes(t, cfg) ==> |EncodedBy(x, cfg)| >= CHUNK && |Ref(x, cfg)| == CHUNK
    ensures GoodNode(node, cfg)
    decreases t
  {
    hide GoodNode, NodeOf, GoodRlp;
    if node == NodeOf(t, cfg) {
      OwnKeccak(t, cfg);
    } else if t.Ext? {
      ExtNodes(t.path, t.child, cfg);
      KeccakGood(t.child, cfg, node);
    } else {
      var i :| 0 <= i < |t.children| && t.children[i].Some? && node in Nodes(t.children[i].value, cfg);
      ChildNodes(t, i, cfg);
      KeccakGood(t.children[i].value, cfg, node);
    }
  }

  lemma OwnKeccak(t: Trie, cfg: Config)
    requires !cfg.poseidon && GoodRlp(cfg.rlp) && Shaped(t)
    requires forall x :: x in Nodes(t, cfg) ==> |EncodedBy(x, cfg)| >= CHUNK && |Ref(x, cfg)| == CHUNK
    ensures GoodNode(NodeOf(t, cfg), cfg)
  {
    OwnNode(t, cfg);
    if t.Ext? {
      ExtNodes(t.path, t.child, cfg);
      OwnNode(t.child, cfg);
    } else if t.Branch? {
      forall i | 0 <= i < WIDTH
        ensures NodeOf(t, cfg).branches[i] == [] || |NodeOf(t, cfg).branches[i]| == CHUNK
      {
        if t.children[i].Some? {
          ChildNodes(t, i, cfg);
          OwnNode(t.children[i].value, cfg);
        }
      }
    }
  }
}
