/** Proofs for the keys of a Verkle tree: get_proof_tree in tree/verkle_tree.py, generate_proof in
    prover/verkle_proof.py and verify_proof in verifier/verkle_verification.py, for keys that have
    a value.  The random factors are a parameter. */
module VerkleProof {
  import opened Wrappers
  import opened Field
  import opened ByteStrings
  import opened NodeSerialization
  import opened KeyChunks
  import opened VerkleShape
  import opened VerkleTree
  import opened SharedEntries
  import Commitment
  import Opening

  /** The nodes that a stem passes, from the root. */
  ghost function PathNodes(t: Tree, stem: Bytes, s: Scheme): seq<Node> {
    [NodeOf(t, s)] +
    match t
    case Branch(children) =>
      if stem == [] || stem[0] >= |children| || children[stem[0]].None? then [] else PathNodes(children[stem[0]].value, stem[1..], s)
    case Stemmed(stem', leaves) => if stem == stem' then [Suffix(leaves)] else []
  }

  /** Branches, an extension and leaves, each with the reference of the next. */
  ghost predicate GoodPath(nodes: seq<Node>, stem: Bytes, leaves: Children, width: nat, s: Scheme) {
    && 2 <= |nodes| <= |stem| + 2
    && nodes[|nodes| - 1] == Suffix(leaves) && |leaves| == width
    && nodes[|nodes| - 2].Extension? && nodes[|nodes| - 2].child == Some(Ref(nodes[|nodes| - 1], s))
    && forall k :: 0 <= k < |nodes| - 2 ==> LeadsTo(nodes, k, stem, width, s)
  }

  ghost predicate LeadsTo(nodes: seq<Node>, k: nat, stem: Bytes, width: nat, s: Scheme)
    requires k + 1 < |nodes| && k < |stem|
  {
    && nodes[k].Internal? && |nodes[k].children| == width && stem[k] < width
    && nodes[k].children[stem[k]] == Some(Ref(nodes[k + 1], s))
  }

  lemma {:induction false} PathIsGood(t: Tree, stem: Bytes, width: nat, s: Scheme)
    requires Shaped(t, width, |stem|) && EndOf(t, stem).Some? && EndOf(t, stem).value.Stemmed?
    ensures GoodPath(PathNodes(t, stem, s), stem, EndOf(t, stem).value.leaves, width, s)
    ensures forall n :: n in PathNodes(t, stem, s) ==> n in Nodes(t, s)
    decreases t
  {
    var nodes := PathNodes(t, stem, s);
    match t
    case Branch(children) =>
      var child := children[stem[0]].value;
      var rest := PathNodes(child, stem[1..], s);
      PathIsGood(child, stem[1..], width, s);
      assert nodes == [NodeOf(t, s)] + rest && rest[0] == NodeOf(child, s);
      ChildNodes(t, s, stem[0]);
      forall k | 0 <= k < |nodes| - 2
        ensures LeadsTo(nodes, k, stem, width, s)
      {
        if k > 0 {
          assert LeadsTo(rest, k - 1, stem[1..], width, s);
        }
      }
    case Stemmed(_, leaves) =>
      assert nodes == [NodeOf(t, s), Suffix(leaves)];
  }

  // ----- the prover

  /** The position that is opened in a node of a path. */
  function IndexIn(n: Node, level: nat, stem: Bytes, suffix: nat): nat {
    match n
    case Internal(_) => if level < |stem| then stem[level] else 0
    case Extension(_, _) => 2
    case Suffix(_) => suffix
  }

  ghost function StepAt(nodes: seq<Node>, k: nat, stem: Bytes, suffix: nat, width: nat, factor: nat): Opening.Step
    requires k < |nodes| && width >= 4
  {
    Opening.Step(Numbers(nodes[k], width), IndexIn(nodes[k], k, stem, suffix), factor)
  }

  /** The values that the prover takes from a node. */
  method ValuesOf(node: TreeNode, width: nat) returns (values: seq<nat>)
    requires width >= 4
    ensures values == Numbers(node.Content(), width)
  {
    match node.kind {
      case ExtensionKind => values := [1, ByteStrings.FromBytes(node.stem), NumberOf(node.child), 0] + seq(width - 4, _ => 0);
      case InternalKind => values := ChildValues(node.children, width);
      case SuffixKind => values := ChildValues(node.children, width);
    }
  }

  /** Everything on the path can be read. */
  ghost predicate Readable(tree: VerkleTree, nodes: seq<Node>)
    reads tree
  {
    forall k :: 0 < k < |nodes| ==> IsStored(tree.db, nodes[k], tree.scheme)
  }

  /** The next node of a path. */
  method NextNode(tree: VerkleTree, node: TreeNode, stem: Bytes, depth: nat, ghost nodes: seq<Node>, ghost level: nat, ghost leaves: Children)
    returns (next: TreeNode, depth': nat)
    requires GoodPath(nodes, stem, leaves, tree.width, tree.scheme) && Readable(tree, nodes)
    requires level < |nodes| - 1 && node.Content() == nodes[level] && (level < |nodes| - 2 ==> depth == level)
    ensures next.Content() == nodes[level + 1] && depth' == if level < |nodes| - 2 then depth + 1 else depth
  {
    hide IsStored;
    PathKind(nodes, level, stem, leaves, tree.width, tree.scheme);
    depth' := depth;
    if node.kind.InternalKind? {
      assert LeadsTo(nodes, level, stem, tree.width, tree.scheme);
      next := tree.MakeTreeNode(node.children[stem[depth]].value, nodes[level + 1]);
      depth' := depth + 1;
    } else {
      next := tree.MakeTreeNode(node.child.value, nodes[level + 1]);
    }
  }

  /** What the prover opens along the path of a key. */
  method StepsFor(tree: VerkleTree, stem: Bytes, suffix: nat, levels: nat, factors: nat -> nat, ghost nodes: seq<Node>, ghost leaves: Children)
    returns (steps: seq<Opening.Step>)
    requires tree.width >= 4 && levels == |nodes| > 0 && tree.root != null && tree.root.Content() == nodes[0]
    requires GoodPath(nodes, stem, leaves, tree.width, tree.scheme) && Readable(tree, nodes)
    ensures |steps| == |nodes|
    ensures forall k :: 0 <= k < |nodes| ==> steps[k] == StepAt(nodes, k, stem, suffix, tree.width, factors(k))
  {
    hide GoodPath, Readable, Numbers;
    var node: TreeNode := tree.root;
    var depth := 0;
    steps := [];
    for level := 0 to levels
      invariant node.Content() == nodes[if level < levels then level else levels - 1]
      invariant level <= levels - 2 ==> depth == level
      invariant |steps| == level
      invariant forall k :: 0 <= k < level ==> steps[k] == StepAt(nodes, k, stem, suffix, tree.width, factors(k))
    {
      PathKind(nodes, level, stem, leaves, tree.width, tree.scheme);
      var values := ValuesOf(node, tree.width);
      var idx := if node.kind.InternalKind? then stem[depth] else if node.kind.ExtensionKind? then 2 else suffix;
      steps := steps + [Opening.Step(values, idx, factors(level))];
      if !node.kind.SuffixKind? {
        node, depth := NextNode(tree, node, stem, depth, nodes, level, leaves);
      }
    }
  }

  lemma PathKind(nodes: seq<Node>, level: nat, stem: Bytes, leaves: Children, width: nat, s: Scheme)
    requires GoodPath(nodes, stem, leaves, width, s) && level < |nodes|
    ensures nodes[level].Internal? <==> level < |nodes| - 2
    ensures nodes[level].Suffix? <==> level == |nodes| - 1
    ensures level < |nodes| - 2 ==> level < |stem|
  {
    if level < |nodes| - 2 {
      assert LeadsTo(nodes, level, stem, width, s);
    }
  }

  /** The children as numbers. */
  function ChildValues(children: Children, width: nat): (r: seq<nat>)
    ensures |r| == width
  {
    seq(width, i requires 0 <= i < width => if i < |children| then NumberOf(children[i]) else 0)
  }

  // ----- the commitments along a path

  function Commits(nodes: seq<Node>, s: Scheme): (r: seq<Point>)
    ensures |r| == |nodes|
  {
    seq(|nodes|, k requires 0 <= k < |nodes| => s.commit(nodes[k]))
  }

  method ChunksOf(key: Bytes, width: nat) returns (stem: Bytes, suffix: nat)
    requires GoodWidth(width)
    ensures stem == StemOf(key, width) && suffix == SuffixOf(key, width)
  {
    CountRange(width);
    var chunks := GetKeyChunks(key, width);
    var last := |chunks.value| - 1;
    stem, suffix := chunks.value[..last], chunks.value[last];
  }

  /** The commitments on the path of a key, without that of the root. */
  method GetProofTree(tree: VerkleTree, key: Bytes) returns (ok: bool, proof: seq<Point>)
    requires tree.Valid()
    ensures ok == (|key| == KEY_BYTES)
    ensures ok && tree.root != null ==> proof == Commits(PathNodes(tree.tree, StemOf(key, tree.width), tree.scheme), tree.scheme)[1..]
    ensures ok && tree.root == null ==> proof == []
  {
    if |key| != KEY_BYTES {
      return false, [];
    }
    var stem, suffix := ChunksOf(key, tree.width);
    hide RepresentsMap, GoodWidth, StemOf, SuffixOf;
    ok, proof := true, [];
    if tree.root != null {
      proof := CollectCommitments(tree, stem);
      proof := proof[1..];
    }
  }

  method CollectCommitments(tree: VerkleTree, stem: Bytes) returns (proof: seq<Point>)
    requires tree.root != null && tree.Reads(tree.tree) && Shaped(tree.tree, tree.width, |stem|) && InRange(stem, tree.width)
    ensures proof == Commits(PathNodes(tree.tree, stem, tree.scheme), tree.scheme) && proof != []
  {
    hide Encodes, Inner, RefOf, NodeOf, IsStored, PathNodes, Commits, Ref;
    var s := tree.scheme;
    var node: TreeNode, depth := tree.root, 0;
    ghost var cur, whole := tree.tree, Commits(PathNodes(tree.tree, stem, s), s);
    assert stem[0..] == stem;
    InnerStored(tree.db, tree.tree, s);
    proof := [];
    var more := true;
    while more
      invariant more ==> depth <= |stem| && Shaped(cur, tree.width, |stem| - depth)
      invariant more ==> node.Content() == NodeOf(cur, s) && node.commitment == s.commit(node.Content())
      invariant more ==> AllStored(tree.db, Inner(cur, s), s)
      invariant more ==> whole == proof + Commits(PathNodes(cur, stem[depth..], s), s)
      invariant !more ==> proof == whole && proof != []
      decreases |stem| - depth, more
    {
      NodeTells(node, cur, s);
      ghost var before := proof;
      proof := proof + [node.commitment];
      if node.kind.InternalKind? {
        var childRef := node.children[stem[depth]];
        PathBranch(cur, stem, depth, s);
        if childRef.None? {
          more := false;
        } else {
          ChildStored(cur, stem[depth], tree.db, s);
          cur := cur.children[stem[depth]].value;
          assert whole == before + ([node.commitment] + Commits(PathNodes(cur, stem[depth + 1..], s), s));
          node := tree.MakeTreeNode(childRef.value, NodeOf(cur, s));
          depth := depth + 1;
        }
      } else {
        PathStemmed(cur, stem[depth..], s);
        if stem[depth..] == node.stem {
          InnerOfStemmed(cur, s);
          var leaf := tree.MakeTreeNode(node.child.value, Suffix(cur.leaves));
          proof := proof + [leaf.commitment];
        }
        more := false;
      }
    }
  }

  lemma PathBranch(t: Tree, stem: Bytes, depth: nat, s: Scheme)
    requires t.Branch? && depth < |stem|
    ensures Commits(PathNodes(t, stem[depth..], s), s) == [s.commit(NodeOf(t, s))] +
      if stem[depth] >= |t.children| || t.children[stem[depth]].None? then []
      else Commits(PathNodes(t.children[stem[depth]].value, stem[depth + 1..], s), s)
  {
    assert stem[depth..][1..] == stem[depth + 1..] && stem[depth..][0] == stem[depth];
  }

  lemma PathStemmed(t: Tree, stem: Bytes, s: Scheme)
    requires t.Stemmed?
    ensures Commits(PathNodes(t, stem, s), s) == [s.commit(NodeOf(t, s))] + if stem == t.stem then [s.commit(Suffix(t.leaves))] else []
  {
  }

  // ----- the verifier

  /** What the verifier makes of one commitment: the last belongs to leaves, the one before to an extension. */
  function ClaimAt(root: Point, c: seq<Point>, k: nat, stem: Bytes, suffix: nat, v: nat, s: Scheme, dlog: Point -> int, factor: nat): Opening.Claim
    requires k <= |c| && (k + 1 < |c| ==> k < |stem|)
  {
    Opening.Claim(dlog(if k > 0 then c[k - 1] else root),
                  if k == |c| then suffix else if k + 1 == |c| then 2 else stem[k],
                  if k < |c| then ByteStrings.FromBytes(s.hash(c[k])) else v, factor)
  }

  /** None where the stem is too short for the proof. */
  method ClaimsFor(root: Point, c: seq<Point>, stem: Bytes, suffix: nat, v: nat, s: Scheme, dlog: Point -> int, factors: nat -> nat)
    returns (claims: Option<seq<Opening.Claim>>)
    ensures claims.Some? <==> |c| <= |stem| + 1
    ensures claims.Some? ==> |claims.value| == |c| + 1 && forall k :: 0 <= k <= |c| ==>
      claims.value[k] == ClaimAt(root, c, k, stem, suffix, v, s, dlog, factors(k))
  {
    var r := [];
    for level := 0 to |c| + 1
      invariant |r| == level && (level <= |c| - 1 ==> level <= |stem|) && (|c| >= 1 && level >= |c| ==> |c| - 1 <= |stem|)
      invariant forall k :: 0 <= k < level ==> (k + 1 < |c| ==> k < |stem|) && r[k] == ClaimAt(root, c, k, stem, suffix, v, s, dlog, factors(k))
    {
      if level + 1 < |c| && level >= |stem| {
        return None;
      }
      r := r + [ClaimAt(root, c, level, stem, suffix, v, s, dlog, factors(level))];
    }
    claims := Some(r);
  }

  // ----- honest proofs

  /** Commitments are to the values of a node, and a reference is the hash of a commitment, a number
      below the order of the curve. */
  ghost predicate CommitsValues(s: Scheme, dlog: Point -> int, st: Commitment.Setup, secret: int, p: Prime)
    requires st.width >= 4
  {
    && (forall n: Node :: FitsWidth(n, st.width) ==>
      Cong(p, dlog(s.commit(n)), Opening.Committed(Numbers(n, st.width), st, secret, p)))
    && forall c: Point :: ByteStrings.FromBytes(s.hash(c)) < p
  }

  ghost predicate FitsWidth(n: Node, width: nat) {
    match n
    case Internal(children) => |children| == width
    case Suffix(values) => |values| == width
    case Extension(_, _) => true
  }

  /** The steps of the prover and the claims of the verifier for one key. */
  ghost predicate ForKey(steps: seq<Opening.Step>, claims: seq<Opening.Claim>, nodes: seq<Node>, stem: Bytes, suffix: nat, v: nat,
                         width: nat, s: Scheme, dlog: Point -> int, factors: nat -> nat)
    requires width >= 4 && 2 <= |nodes| <= |stem| + 2
  {
    && |steps| == |claims| == |nodes|
    && (forall k :: 0 <= k < |nodes| ==> steps[k] == StepAt(nodes, k, stem, suffix, width, factors(k)))
    && forall k :: 0 <= k < |nodes| ==>
      claims[k] == ClaimAt(s.commit(nodes[0]), Commits(nodes, s)[1..], k, stem, suffix, v, s, dlog, factors(k))
  }

  lemma StepTrue(steps: seq<Opening.Step>, claims: seq<Opening.Claim>, nodes: seq<Node>, leaves: Children, stem: Bytes, suffix: nat,
                 v: nat, s: Scheme, dlog: Point -> int, factors: nat -> nat, st: Commitment.Setup, secret: int, k: nat, p: Prime)
    requires st.width >= 4 && CommitsValues(s, dlog, st, secret, p) && suffix < st.width
    requires GoodPath(nodes, stem, leaves, st.width, s) && v == NumberOf(leaves[suffix]) && k < |nodes|
    requires ForKey(steps, claims, nodes, stem, suffix, v, st.width, s, dlog, factors)
    ensures |steps[k].values| == st.width && steps[k].index < st.width
    ensures claims[k].index == steps[k].index && claims[k].factor == steps[k].factor
    ensures Cong(p, claims[k].commitment, Opening.Committed(steps[k].values, st, secret, p))
    ensures claims[k].leaf == steps[k].values[steps[k].index]
    ensures k < |nodes| - 1 ==> claims[k].leaf < p
    ensures k == |nodes| - 1 ==> claims[k].leaf == v
  {
    hide *;
    PathSize(nodes, stem, leaves, st.width, s);
    OpenedValue(nodes, k, stem, suffix, leaves, st.width, s);
    PartsOfKey(steps, claims, nodes, stem, suffix, v, st.width, s, dlog, factors, k);
    CommittedValue(nodes[k], s, dlog, st, secret, p);
    if k < |nodes| - 1 {
      HashSmall(s.commit(nodes[k + 1]), s, dlog, st, secret, p);
    }
  }

  /** What is opened in a node of a path is the reference of the next node, or the value in the leaves. */
  lemma OpenedValue(nodes: seq<Node>, k: nat, stem: Bytes, suffix: nat, leaves: Children, width: nat, s: Scheme)
    requires width >= 4 && GoodPath(nodes, stem, leaves, width, s) && k < |nodes| && suffix < width
    ensures FitsWidth(nodes[k], width) && |Numbers(nodes[k], width)| == width && IndexIn(nodes[k], k, stem, suffix) < width
    ensures IndexIn(nodes[k], k, stem, suffix) == if k == |nodes| - 1 then suffix else if k == |nodes| - 2 then 2 else stem[k]
    ensures Numbers(nodes[k], width)[IndexIn(nodes[k], k, stem, suffix)]
      == if k == |nodes| - 1 then NumberOf(leaves[suffix]) else ByteStrings.FromBytes(s.hash(s.commit(nodes[k + 1])))
  {
    PathKind(nodes, k, stem, leaves, width, s);
    if k < |nodes| - 2 {
      assert LeadsTo(nodes, k, stem, width, s);
    }
  }

  /** The step and the claim about one node of a path. */
  lemma PartsOfKey(steps: seq<Opening.Step>, claims: seq<Opening.Claim>, nodes: seq<Node>, stem: Bytes, suffix: nat, v: nat,
                   width: nat, s: Scheme, dlog: Point -> int, factors: nat -> nat, k: nat)
    requires width >= 4 && 2 <= |nodes| <= |stem| + 2 && k < |nodes|
    requires ForKey(steps, claims, nodes, stem, suffix, v, width, s, dlog, factors)
    ensures |steps| == |claims| == |nodes|
    ensures steps[k] == Opening.Step(Numbers(nodes[k], width), IndexIn(nodes[k], k, stem, suffix), factors(k))
    ensures claims[k] == Opening.Claim(dlog(s.commit(nodes[k])),
      if k == |nodes| - 1 then suffix else if k == |nodes| - 2 then 2 else stem[k],
      if k < |nodes| - 1 then ByteStrings.FromBytes(s.hash(s.commit(nodes[k + 1]))) else v, factors(k))
  {
    var c := Commits(nodes, s)[1..];
    assert k > 0 ==> c[k - 1] == s.commit(nodes[k]);
    assert k < |c| ==> c[k] == s.commit(nodes[k + 1]);
  }

  lemma CommittedValue(n: Node, s: Scheme, dlog: Point -> int, st: Commitment.Setup, secret: int, p: Prime)
    requires st.width >= 4 && CommitsValues(s, dlog, st, secret, p) && FitsWidth(n, st.width)
    ensures Cong(p, dlog(s.commit(n)), Opening.Committed(Numbers(n, st.width), st, secret, p))
  {
    hide Cong, Numbers, Opening.Committed, FitsWidth;
  }

  lemma HashSmall(c: Point, s: Scheme, dlog: Point -> int, st: Commitment.Setup, secret: int, p: Prime)
    requires st.width >= 4 && CommitsValues(s, dlog, st, secret, p)
    ensures ByteStrings.FromBytes(s.hash(c)) < p
  {
    hide Cong, Opening.Committed, FitsWidth;
  }

  lemma KeyTrue(steps: seq<Opening.Step>, claims: seq<Opening.Claim>, nodes: seq<Node>, leaves: Children, stem: Bytes, suffix: nat,
                v: nat, s: Scheme, dlog: Point -> int, factors: nat -> nat, st: Commitment.Setup, secret: int, p: Prime)
    requires st.width >= 4 && |st.powers| == st.width && CommitsValues(s, dlog, st, secret, p) && suffix < st.width
    requires GoodPath(nodes, stem, leaves, st.width, s) && v == NumberOf(leaves[suffix])
    requires ForKey(steps, claims, nodes, stem, suffix, v, st.width, s, dlog, factors)
    ensures Opening.GoodSteps(steps, st) && Opening.GoodClaims(claims, st) && Opening.TrueClaims(claims, steps, st, secret, p)
    ensures Opening.InField(claims, p) <==> v <= p
  {
    hide Opening.Committed, Cong, ForKey, GoodPath, CommitsValues;
    PathSize(nodes, stem, leaves, st.width, s);
    KeySize(steps, claims, nodes, stem, suffix, v, st.width, s, dlog, factors);
    forall k | 0 <= k < |nodes|
      ensures |steps[k].values| == st.width && steps[k].index < st.width
      ensures claims[k].index == steps[k].index && claims[k].factor == steps[k].factor
      ensures Cong(p, claims[k].commitment, Opening.Committed(steps[k].values, st, secret, p))
      ensures claims[k].leaf == steps[k].values[steps[k].index]
      ensures k < |nodes| - 1 ==> claims[k].leaf < p
      ensures k == |nodes| - 1 ==> claims[k].leaf == v
    {
      StepTrue(steps, claims, nodes, leaves, stem, suffix, v, s, dlog, factors, st, secret, k, p);
    }
    assert claims[|nodes| - 1].leaf == v;
  }

  lemma PathSize(nodes: seq<Node>, stem: Bytes, leaves: Children, width: nat, s: Scheme)
    requires GoodPath(nodes, stem, leaves, width, s)
    ensures 2 <= |nodes| <= |stem| + 2
  {
  }

  lemma KeySize(steps: seq<Opening.Step>, claims: seq<Opening.Claim>, nodes: seq<Node>, stem: Bytes, suffix: nat, v: nat,
                width: nat, s: Scheme, dlog: Point -> int, factors: nat -> nat)
    requires width >= 4 && 2 <= |nodes| <= |stem| + 2 && ForKey(steps, claims, nodes, stem, suffix, v, width, s, dlog, factors)
    ensures |steps| == |claims| == |nodes|
  {
  }

  // ----- proofs for several keys

  /** The random factors of a key. */
  function FactorsOf(factors: (Bytes, nat) -> nat, key: Bytes): nat -> nat {
    (k: nat) => factors(key, k)
  }

  /** What is opened for a key. */
  ghost function KeySteps(t: Tree, key: Bytes, width: nat, s: Scheme, factors: nat -> nat): seq<Opening.Step>
    requires GoodWidth(width) && width >= 4
  {
    var nodes := PathNodes(t, StemOf(key, width), s);
    seq(|nodes|, k requires 0 <= k < |nodes| => StepAt(nodes, k, StemOf(key, width), SuffixOf(key, width), width, factors(k)))
  }

  ghost function AllSteps(t: Tree, keys: seq<Bytes>, width: nat, s: Scheme, factors: (Bytes, nat) -> nat): seq<Opening.Step>
    requires GoodWidth(width) && width >= 4
  {
    if keys == [] then []
    else
      var last := keys[|keys| - 1];
      AllSteps(t, keys[..|keys| - 1], width, s, factors) + KeySteps(t, last, width, s, FactorsOf(factors, last))
  }

  /** What is claimed for a key. */
  ghost function KeyClaims(root: Point, c: seq<Point>, key: Bytes, v: nat, width: nat, s: Scheme, dlog: Point -> int,
                           factors: nat -> nat): seq<Opening.Claim>
    requires GoodWidth(width) && |c| <= StemLength(width) + 1
  {
    seq(|c| + 1, k requires 0 <= k <= |c| => ClaimAt(root, c, k, StemOf(key, width), SuffixOf(key, width), v, s, dlog, factors(k)))
  }

  /** Proofs that are not longer than a path can be. */
  ghost predicate ShortEnough(cs: seq<seq<Point>>, width: nat)
    requires GoodWidth(width)
  {
    forall i :: 0 <= i < |cs| ==> |cs[i]| <= StemLength(width) + 1
  }

  ghost function AllClaims(root: Point, cs: seq<seq<Point>>, keys: seq<Bytes>, vs: seq<nat>, width: nat, s: Scheme, dlog: Point -> int,
                           factors: (Bytes, nat) -> nat): seq<Opening.Claim>
    requires GoodWidth(width) && |cs| == |keys| == |vs| && ShortEnough(cs, width)
  {
    if cs == [] then []
    else
      var last := |cs| - 1;
      AllClaims(root, cs[..last], keys[..last], vs[..last], width, s, dlog, factors)
      + KeyClaims(root, cs[last], keys[last], vs[last], width, s, dlog, FactorsOf(factors, keys[last]))
  }

  /** Keys that have values. */
  ghost predicate Present(tree: VerkleTree, keys: seq<Bytes>)
    reads tree
  {
    forall i :: 0 <= i < |keys| ==> keys[i] in tree.contents
  }

  /** The nodes on the path of a key that has a value. */
  lemma PresentPath(tree: VerkleTree, key: Bytes) returns (leaves: Children)
    requires tree.Valid() && key in tree.contents
    ensures |key| == KEY_BYTES && tree.root != null
    ensures var nodes := PathNodes(tree.tree, StemOf(key, tree.width), tree.scheme);
      && GoodPath(nodes, StemOf(key, tree.width), leaves, tree.width, tree.scheme) && Readable(tree, nodes)
      && nodes[0] == NodeOf(tree.tree, tree.scheme)
      && leaves[SuffixOf(key, tree.width)] == Some(tree.contents[key])
  {
    hide *;
    WidthGood(tree);
    var t, stem, suffix, s := tree.tree, StemOf(key, tree.width), SuffixOf(key, tree.width), tree.scheme;
    ValueFound(tree, key);
    EndLookup(t, stem, suffix);
    leaves := EndOf(t, stem).value.leaves;
    PathIsGood(t, stem, tree.width, s);
    PathSize(PathNodes(t, stem, s), stem, leaves, tree.width, s);
    LastLeaves(PathNodes(t, stem, s), stem, leaves, tree.width, s);
    PathReadable(tree, PathNodes(t, stem, s));
    PathHead(t, stem, s);
  }

  lemma WidthGood(tree: VerkleTree)
    requires tree.Valid()
    ensures GoodWidth(tree.width)
  {
  }

  /** A key of the map has a value at the end of its stem. */
  lemma ValueFound(tree: VerkleTree, key: Bytes)
    requires tree.Valid() && key in tree.contents
    ensures |key| == KEY_BYTES && tree.root != null && Shaped(tree.tree, tree.width, StemLength(tree.width))
    ensures Lookup(tree.tree, StemOf(key, tree.width), SuffixOf(key, tree.width)) == Some(tree.contents[key])
    ensures AllStored(tree.db, Nodes(tree.tree, tree.scheme), tree.scheme)
  {
    hide GoodWidth, Shaped, StemOf, SuffixOf, AllStored, Nodes;
    assert Lookup(tree.tree, StemOf(key, tree.width), SuffixOf(key, tree.width)) == Some(tree.contents[key]);
    EmptyLookup(tree.width, StemOf(key, tree.width), SuffixOf(key, tree.width));
  }

  lemma PathReadable(tree: VerkleTree, nodes: seq<Node>)
    requires AllStored(tree.db, Nodes(tree.tree, tree.scheme), tree.scheme)
    requires forall n :: n in nodes ==> n in Nodes(tree.tree, tree.scheme)
    ensures Readable(tree, nodes)
  {
    hide IsStored, Nodes;
  }

  lemma PathHead(t: Tree, stem: Bytes, s: Scheme)
    ensures PathNodes(t, stem, s) != [] && PathNodes(t, stem, s)[0] == NodeOf(t, s)
  {
  }

  lemma LastLeaves(nodes: seq<Node>, stem: Bytes, leaves: Children, width: nat, s: Scheme)
    requires GoodPath(nodes, stem, leaves, width, s)
    ensures |leaves| == width
  {
  }

  /** The commitments of a proof. */
  ghost predicate CommitsFor(tree: VerkleTree, keys: seq<Bytes>, commitments: seq<seq<Point>>)
    requires GoodWidth(tree.width)
    reads tree
  {
    |commitments| == |keys| && forall i :: 0 <= i < |keys| ==>
      commitments[i] == Commits(PathNodes(tree.tree, StemOf(keys[i], tree.width), tree.scheme), tree.scheme)[1..]
  }

  /** generate_proof: commitments for every key, and one opening for all of them. */
  method Prove(tree: VerkleTree, keys: seq<Bytes>, st: Commitment.Setup, sec: Opening.Secret, ghost secret: int,
               factors: (Bytes, nat) -> nat, partitionSize: nat, p: Prime)
    returns (commitments: seq<seq<Point>>, opening: int, ghost qs: seq<seq<int>>)
    requires tree.Valid() && tree.width == st.width >= 4 && Present(tree, keys) && partitionSize > 0
    requires Commitment.ValidSetup(st, p) && Opening.ValidSecret(sec, secret, st, p)
    requires Opening.GoodSteps(AllSteps(tree.tree, keys, st.width, tree.scheme, factors), st)
    ensures CommitsFor(tree, keys, commitments)
    ensures var steps := AllSteps(tree.tree, keys, st.width, tree.scheme, factors);
      && Opening.Quotients(qs, steps, st, p) && (forall i :: 0 <= i < |qs| ==> |qs[i]| == st.width)
      && Cong(p, opening, Opening.WitnessOf(steps, qs, st, secret, p))
  {
    hide *;
    var steps;
    commitments, steps := ProveSteps(tree, keys, factors);
    opening, qs := Opening.GenerateProof(steps, st, sec, secret, partitionSize, p);
  }

  method ProveSteps(tree: VerkleTree, keys: seq<Bytes>, factors: (Bytes, nat) -> nat)
    returns (commitments: seq<seq<Point>>, steps: seq<Opening.Step>)
    requires tree.Valid() && tree.width >= 4 && Present(tree, keys)
    ensures CommitsFor(tree, keys, commitments)
    ensures steps == AllSteps(tree.tree, keys, tree.width, tree.scheme, factors)
  {
    hide KeySteps, Commits, PathNodes, StemOf, SuffixOf, GoodWidth, Shaped, RepresentsMap;
    steps := [];
    commitments := [];
    for i := 0 to |keys|
      invariant CommitsFor(tree, keys[..i], commitments) && steps == AllSteps(tree.tree, keys[..i], tree.width, tree.scheme, factors)
    {
      var c, more := ProveKey(tree, keys[i], FactorsOf(factors, keys[i]));
      assert keys[..i + 1][..i] == keys[..i] && keys[..i + 1][i] == keys[i];
      commitments, steps := commitments + [c], steps + more;
    }
    assert keys[..|keys|] == keys;
  }

  method ProveKey(tree: VerkleTree, key: Bytes, factors: nat -> nat) returns (c: seq<Point>, steps: seq<Opening.Step>)
    requires tree.Valid() && tree.width >= 4 && key in tree.contents
    ensures c == Commits(PathNodes(tree.tree, StemOf(key, tree.width), tree.scheme), tree.scheme)[1..]
    ensures steps == KeySteps(tree.tree, key, tree.width, tree.scheme, factors)
  {
    hide RepresentsMap, Shaped, GoodPath, Readable, StepAt, GoodWidth;
    var ok;
    ghost var leaves := PresentPath(tree, key);
    ghost var nodes := PathNodes(tree.tree, StemOf(key, tree.width), tree.scheme);
    ok, c := GetProofTree(tree, key);
    PathSize(nodes, StemOf(key, tree.width), leaves, tree.width, tree.scheme);
    var stem, suffix := ChunksOf(key, tree.width);
    steps := StepsFor(tree, stem, suffix, |c| + 1, factors, nodes, leaves);
  }

  /** verify_proof: an error for proofs that are too long and for values above the modulus. */
  method Verify(root: Point, commitments: seq<seq<Point>>, keys: seq<Bytes>, values: seq<nat>, opening: int, st: Commitment.Setup,
                sec: Opening.Secret, ghost secret: int, s: Scheme, dlog: Point -> int, factors: (Bytes, nat) -> nat, p: Prime)
    returns (r: Option<bool>)
    requires GoodWidth(st.width) && st.width >= 4 && |commitments| == |keys| == |values|
    requires Commitment.ValidSetup(st, p) && Opening.ValidSecret(sec, secret, st, p)
    requires forall key :: key in keys ==> |key| == KEY_BYTES
    ensures !ShortEnough(commitments, st.width) ==> r == None
    ensures ShortEnough(commitments, st.width) ==>
      var claims := AllClaims(root, commitments, keys, values, st.width, s, dlog, factors);
      && Opening.GoodClaims(claims, st) && r == Opening.Outcome(claims, opening, st, secret, p)
  {
    hide *;
    var claims := CollectClaims(root, commitments, keys, values, st, s, dlog, factors);
    if claims.None? {
      return None;
    }
    r := Opening.VerifyProof(claims.value, opening, st, sec, secret, p);
  }

  /** The claims about all keys; None if a proof is too long. */
  method CollectClaims(root: Point, commitments: seq<seq<Point>>, keys: seq<Bytes>, values: seq<nat>, st: Commitment.Setup, s: Scheme,
                       dlog: Point -> int, factors: (Bytes, nat) -> nat) returns (claims: Option<seq<Opening.Claim>>)
    requires GoodWidth(st.width) && st.width >= 4 && |commitments| == |keys| == |values|
    requires forall key :: key in keys ==> |key| == KEY_BYTES
    ensures claims.Some? <==> ShortEnough(commitments, st.width)
    ensures claims.Some? ==> Opening.GoodClaims(claims.value, st)
    ensures claims.Some? ==> claims.value == AllClaims(root, commitments, keys, values, st.width, s, dlog, factors)
  {
    hide *;
    var all := [];
    NoneClaimed(root, commitments, keys, values, st, s, dlog, factors);
    for i := 0 to |keys|
      invariant ShortEnough(commitments[..i], st.width) && Opening.GoodClaims(all, st)
      invariant all == AllClaims(root, commitments[..i], keys[..i], values[..i], st.width, s, dlog, factors)
    {
      var more := ClaimsOfKey(root, commitments[i], keys[i], values[i], st, s, dlog, FactorsOf(factors, keys[i]));
      if more.None? {
        TooLong(commitments, i, st.width);
        return None;
      }
      assert commitments[..i + 1][..i] == commitments[..i] && keys[..i + 1][..i] == keys[..i] && values[..i + 1][..i] == values[..i];
      assert commitments[..i + 1][i] == commitments[i] && keys[..i + 1][i] == keys[i] && values[..i + 1][i] == values[i];
      MoreClaims(all, more.value, st);
      ShortMore(commitments[..i + 1], st.width);
      UnfoldClaims(root, commitments[..i + 1], keys[..i + 1], values[..i + 1], st.width, s, dlog, factors);
      all := all + more.value;
    }
    assert commitments[..|keys|] == commitments && keys[..|keys|] == keys && values[..|keys|] == values;
    claims := Some(all);
  }

  lemma NoneClaimed(root: Point, cs: seq<seq<Point>>, keys: seq<Bytes>, vs: seq<nat>, st: Commitment.Setup, s: Scheme, dlog: Point -> int,
                    factors: (Bytes, nat) -> nat)
    requires GoodWidth(st.width)
    ensures ShortEnough(cs[..0], st.width) && Opening.GoodClaims([], st)
    ensures AllClaims(root, cs[..0], keys[..0], vs[..0], st.width, s, dlog, factors) == []
  {
  }

  lemma TooLong(cs: seq<seq<Point>>, i: nat, width: nat)
    requires GoodWidth(width) && i < |cs| && |cs[i]| > StemLength(width) + 1
    ensures !ShortEnough(cs, width)
  {
  }

  lemma MoreClaims(claims: seq<Opening.Claim>, more: seq<Opening.Claim>, st: Commitment.Setup)
    requires Opening.GoodClaims(claims, st) && Opening.GoodClaims(more, st)
    ensures Opening.GoodClaims(claims + more, st)
  {
  }

  method ClaimsOfKey(root: Point, c: seq<Point>, key: Bytes, v: nat, st: Commitment.Setup, s: Scheme, dlog: Point -> int, factors: nat -> nat)
    returns (claims: Option<seq<Opening.Claim>>)
    requires GoodWidth(st.width) && st.width >= 4 && |key| == KEY_BYTES
    ensures claims.Some? <==> |c| <= StemLength(st.width) + 1
    ensures claims.Some? ==> Opening.GoodClaims(claims.value, st) && claims.value == KeyClaims(root, c, key, v, st.width, s, dlog, factors)
  {
    hide GoodWidth, StemOf, SuffixOf, ClaimAt, Opening.GoodClaims;
    var stem, suffix := ChunksOf(key, st.width);
    claims := ClaimsFor(root, c, stem, suffix, v, s, dlog, factors);
    if claims.Some? {
      assert claims.value == KeyClaims(root, c, key, v, st.width, s, dlog, factors);
      ClaimsGood(claims.value, root, c, key, v, st.width, s, dlog, factors, st);
    }
  }

  lemma ClaimsGood(claims: seq<Opening.Claim>, root: Point, c: seq<Point>, key: Bytes, v: nat, width: nat, s: Scheme, dlog: Point -> int,
                   factors: nat -> nat, st: Commitment.Setup)
    requires GoodWidth(width) && width == st.width >= 4 && |c| <= StemLength(width) + 1
    requires claims == KeyClaims(root, c, key, v, width, s, dlog, factors)
    ensures Opening.GoodClaims(claims, st)
  {
    var stem, suffix := StemOf(key, width), SuffixOf(key, width);
    hide StemOf, SuffixOf;
    forall k | 0 <= k < |claims|
      ensures claims[k].index < st.width
    {
      assert claims[k] == ClaimAt(root, c, k, stem, suffix, v, s, dlog, factors(k));
    }
  }

  /** The claims of an honest proof for one key are true. */
  lemma KeyAllTrue(tree: VerkleTree, c: seq<Point>, key: Bytes, v: nat, st: Commitment.Setup, secret: int, dlog: Point -> int,
                   factors: nat -> nat, p: Prime)
    requires tree.Valid() && tree.width == st.width >= 4 && |st.powers| == st.width && key in tree.contents
    requires CommitsValues(tree.scheme, dlog, st, secret, p)
    requires c == Commits(PathNodes(tree.tree, StemOf(key, st.width), tree.scheme), tree.scheme)[1..]
    requires v == ByteStrings.FromBytes(tree.contents[key])
    ensures |c| <= StemLength(st.width) + 1
    ensures var claims, steps := KeyClaims(RootPoint(tree), c, key, v, st.width, tree.scheme, dlog, factors),
                                 KeySteps(tree.tree, key, st.width, tree.scheme, factors);
      && Opening.GoodSteps(steps, st) && Opening.GoodClaims(claims, st) && Opening.TrueClaims(claims, steps, st, secret, p)
      && (Opening.InField(claims, p) <==> v <= p)
  {
    hide CommitsValues, Commits, PathNodes, GoodWidth, Shaped, RepresentsMap, GoodPath, StepAt, ClaimAt, Opening.GoodSteps, Opening.GoodClaims,
      Opening.TrueClaims, Opening.InField;
    var leaves := PresentPath(tree, key);
    var stem, suffix, s := StemOf(key, st.width), SuffixOf(key, st.width), tree.scheme;
    var nodes := PathNodes(tree.tree, stem, s);
    hide StemOf, SuffixOf;
    PathSize(nodes, stem, leaves, st.width, s);
    var claims, steps := KeyClaims(RootPoint(tree), c, key, v, st.width, s, dlog, factors), KeySteps(tree.tree, key, st.width, s, factors);
    assert ForKey(steps, claims, nodes, stem, suffix, v, st.width, s, dlog, factors);
    KeyTrue(steps, claims, nodes, leaves, stem, suffix, v, s, dlog, factors, st, secret, p);
  }

  lemma JoinTrue(claims: seq<Opening.Claim>, steps: seq<Opening.Step>, more: seq<Opening.Claim>, next: seq<Opening.Step>, st: Commitment.Setup,
                 secret: int, p: Prime)
    requires Opening.GoodSteps(steps, st) && Opening.GoodClaims(claims, st) && Opening.TrueClaims(claims, steps, st, secret, p)
    requires Opening.GoodSteps(next, st) && Opening.GoodClaims(more, st) && Opening.TrueClaims(more, next, st, secret, p)
    ensures Opening.GoodSteps(steps + next, st) && Opening.GoodClaims(claims + more, st)
    ensures Opening.TrueClaims(claims + more, steps + next, st, secret, p)
    ensures Opening.InField(claims + more, p) <==> Opening.InField(claims, p) && Opening.InField(more, p)
  {
    hide Opening.Committed, Cong;
    assert forall k :: 0 <= k < |claims| ==> (claims + more)[k] == claims[k];
    assert forall k :: 0 <= k < |more| ==> (claims + more)[|claims| + k] == more[k];
  }

  /** What an honest proof leads to: true claims, within the field exactly if the values are. */
  ghost predicate HonestPair(claims: seq<Opening.Claim>, steps: seq<Opening.Step>, values: seq<nat>, st: Commitment.Setup, secret: int, p: Prime) {
    && Opening.GoodSteps(steps, st) && Opening.GoodClaims(claims, st) && Opening.TrueClaims(claims, steps, st, secret, p)
    && (Opening.InField(claims, p) <==> forall i :: 0 <= i < |values| ==> values[i] <= p)
  }

  /** All claims of an honest proof are true. */
  lemma {:induction false} AllTrue(tree: VerkleTree, commitments: seq<seq<Point>>, keys: seq<Bytes>, values: seq<nat>, st: Commitment.Setup,
                                   secret: int, dlog: Point -> int, factors: (Bytes, nat) -> nat, p: Prime)
    requires tree.Valid() && tree.width == st.width >= 4 && |st.powers| == st.width && Present(tree, keys)
    requires CommitsValues(tree.scheme, dlog, st, secret, p) && |values| == |keys| && CommitsFor(tree, keys, commitments)
    requires forall i :: 0 <= i < |keys| ==> values[i] == ByteStrings.FromBytes(tree.contents[keys[i]])
    ensures ShortEnough(commitments, st.width)
    ensures HonestPair(AllClaims(RootPoint(tree), commitments, keys, values, st.width, tree.scheme, dlog, factors),
                       AllSteps(tree.tree, keys, st.width, tree.scheme, factors), values, st, secret, p)
  {
    hide *;
    KeysSized(tree, keys);
    CommitsLength(tree, keys, commitments);
    if keys == [] {
      NoneTrue(tree, commitments, values, st, secret, dlog, factors, p);
    } else {
      var last := |keys| - 1;
      FrontHonest(tree, commitments, keys);
      AllTrue(tree, commitments[..last], keys[..last], values[..last], st, secret, dlog, factors, p);
      KeyAllTrue(tree, commitments[last], keys[last], values[last], st, secret, dlog, FactorsOf(factors, keys[last]), p);
      ShortMore(commitments, st.width);
      var claims, steps := AllClaims(RootPoint(tree), commitments[..last], keys[..last], values[..last], st.width, tree.scheme, dlog, factors),
                           AllSteps(tree.tree, keys[..last], st.width, tree.scheme, factors);
      var more, next := KeyClaims(RootPoint(tree), commitments[last], keys[last], values[last], st.width, tree.scheme, dlog, FactorsOf(factors, keys[last])),
                        KeySteps(tree.tree, keys[last], st.width, tree.scheme, FactorsOf(factors, keys[last]));
      PairMore(claims, steps, more, next, values, st, secret, p);
      UnfoldClaims(RootPoint(tree), commitments, keys, values, st.width, tree.scheme, dlog, factors);
      UnfoldSteps(tree.tree, keys, st.width, tree.scheme, factors);
    }
  }

  lemma NoneTrue(tree: VerkleTree, commitments: seq<seq<Point>>, values: seq<nat>, st: Commitment.Setup, secret: int, dlog: Point -> int,
                 factors: (Bytes, nat) -> nat, p: Prime)
    requires GoodWidth(st.width) && st.width >= 4 && |st.powers| == st.width && commitments == [] && values == []
    ensures ShortEnough(commitments, st.width)
    ensures HonestPair(AllClaims(RootPoint(tree), commitments, [], values, st.width, tree.scheme, dlog, factors),
                       AllSteps(tree.tree, [], st.width, tree.scheme, factors), values, st, secret, p)
  {
  }

  lemma FrontHonest(tree: VerkleTree, commitments: seq<seq<Point>>, keys: seq<Bytes>)
    requires GoodWidth(tree.width) && Present(tree, keys) && CommitsFor(tree, keys, commitments) && keys != []
    ensures Present(tree, keys[..|keys| - 1]) && CommitsFor(tree, keys[..|keys| - 1], commitments[..|keys| - 1])
    ensures |commitments| == |keys| && keys[|keys| - 1] in tree.contents
    ensures commitments[|keys| - 1] == Commits(PathNodes(tree.tree, StemOf(keys[|keys| - 1], tree.width), tree.scheme), tree.scheme)[1..]
  {
    hide Commits, PathNodes, StemOf;
  }

  lemma ShortMore(cs: seq<seq<Point>>, width: nat)
    requires GoodWidth(width) && cs != [] && ShortEnough(cs[..|cs| - 1], width) && |cs[|cs| - 1]| <= StemLength(width) + 1
    ensures ShortEnough(cs, width)
  {
    forall i | 0 <= i < |cs|
      ensures |cs[i]| <= StemLength(width) + 1
    {
      if i < |cs| - 1 {
        assert cs[..|cs| - 1][i] == cs[i];
      }
    }
  }

  lemma PairMore(claims: seq<Opening.Claim>, steps: seq<Opening.Step>, more: seq<Opening.Claim>, next: seq<Opening.Step>, values: seq<nat>,
                 st: Commitment.Setup, secret: int, p: Prime)
    requires values != [] && HonestPair(claims, steps, values[..|values| - 1], st, secret, p)
    requires Opening.GoodSteps(next, st) && Opening.GoodClaims(more, st) && Opening.TrueClaims(more, next, st, secret, p)
    requires Opening.InField(more, p) <==> values[|values| - 1] <= p
    ensures HonestPair(claims + more, steps + next, values, st, secret, p)
  {
    hide Opening.GoodSteps, Opening.GoodClaims, Opening.TrueClaims, Opening.InField;
    JoinTrue(claims, steps, more, next, st, secret, p);
    var last := |values| - 1;
    assert (forall i :: 0 <= i < |values| ==> values[i] <= p) <==>
      values[last] <= p && forall i :: 0 <= i < last ==> values[..last][i] <= p by {
      assert forall i :: 0 <= i < last ==> values[..last][i] == values[i];
    }
  }

  lemma UnfoldClaims(root: Point, cs: seq<seq<Point>>, keys: seq<Bytes>, vs: seq<nat>, width: nat, s: Scheme, dlog: Point -> int,
                     factors: (Bytes, nat) -> nat)
    requires GoodWidth(width) && |cs| == |keys| == |vs| > 0 && ShortEnough(cs, width)
    ensures var last := |keys| - 1;
      && ShortEnough(cs[..last], width) && |cs[last]| <= StemLength(width) + 1
      && AllClaims(root, cs, keys, vs, width, s, dlog, factors)
        == AllClaims(root, cs[..last], keys[..last], vs[..last], width, s, dlog, factors)
          + KeyClaims(root, cs[last], keys[last], vs[last], width, s, dlog, FactorsOf(factors, keys[last]))
  {
    hide GoodWidth, KeyClaims, FactorsOf;
  }

  lemma UnfoldSteps(t: Tree, keys: seq<Bytes>, width: nat, s: Scheme, factors: (Bytes, nat) -> nat)
    requires GoodWidth(width) && width >= 4 && keys != []
    ensures var last := |keys| - 1;
      AllSteps(t, keys, width, s, factors)
        == AllSteps(t, keys[..last], width, s, factors) + KeySteps(t, keys[last], width, s, FactorsOf(factors, keys[last]))
  {
    hide GoodWidth, KeySteps, FactorsOf;
  }

  lemma KeyPresent(tree: VerkleTree, keys: seq<Bytes>, i: nat)
    requires Present(tree, keys) && i < |keys|
    ensures keys[i] in tree.contents
  {
  }

  /** The values of the keys as numbers, as get returns them. */
  method ValuesFor(tree: VerkleTree, keys: seq<Bytes>) returns (values: seq<nat>)
    requires tree.Valid() && Present(tree, keys)
    ensures |values| == |keys| && forall i :: 0 <= i < |keys| ==> values[i] == ByteStrings.FromBytes(tree.contents[keys[i]])
  {
    hide *;
    KeysSized(tree, keys);
    values := [];
    for i := 0 to |keys|
      invariant |values| == i && forall j :: 0 <= j < i ==> keys[j] in tree.contents && values[j] == ByteStrings.FromBytes(tree.contents[keys[j]])
    {
      KeyPresent(tree, keys, i);
      var ok, v := tree.Get(keys[i]);
      values := values + [v.value];
    }
  }

  /** Proof and verification of keys that have a value: the values in the tree are accepted exactly if
      none is above the modulus; otherwise the verification is an error. */
  method ProveAndVerify(tree: VerkleTree, keys: seq<Bytes>, st: Commitment.Setup, sec: Opening.Secret, ghost secret: int, dlog: Point -> int,
                        factors: (Bytes, nat) -> nat, partitionSize: nat, p: Prime) returns (r: Option<bool>)
    requires tree.Valid() && tree.width == st.width >= 4 && Present(tree, keys) && partitionSize > 0
    requires Commitment.ValidSetup(st, p) && Opening.ValidSecret(sec, secret, st, p) && CommitsValues(tree.scheme, dlog, st, secret, p)
    ensures r == if ValuesInField(tree, keys, p) then Some(true) else None
  {
    hide *;
    HonestSteps(tree, keys, st, secret, dlog, factors, p);
    KeysSized(tree, keys);
    var values := ValuesFor(tree, keys);
    var commitments, opening;
    ghost var qs;
    commitments, opening, qs := Prove(tree, keys, st, sec, secret, factors, partitionSize, p);
    var root := RootCommitment(tree);
    HonestOutcome(tree, keys, values, commitments, root, qs, opening, st, secret, dlog, factors, p);
    r := Verify(root, commitments, keys, values, opening, st, sec, secret, tree.scheme, dlog, factors, p);
  }

  /** What the verifier makes of an honest proof. */
  lemma HonestOutcome(tree: VerkleTree, keys: seq<Bytes>, values: seq<nat>, commitments: seq<seq<Point>>, root: Point, qs: seq<seq<int>>,
                      opening: int, st: Commitment.Setup, secret: int, dlog: Point -> int, factors: (Bytes, nat) -> nat, p: Prime)
    requires tree.Valid() && tree.width == st.width >= 4 && Present(tree, keys) && Commitment.ValidSetup(st, p)
    requires CommitsValues(tree.scheme, dlog, st, secret, p) && CommitsFor(tree, keys, commitments) && |values| == |keys|
    requires forall i :: 0 <= i < |keys| ==> values[i] == ByteStrings.FromBytes(tree.contents[keys[i]])
    requires tree.root != null ==> root == RootPoint(tree)
    requires var steps := AllSteps(tree.tree, keys, st.width, tree.scheme, factors);
      && Opening.GoodSteps(steps, st) && Opening.Quotients(qs, steps, st, p) && (forall i :: 0 <= i < |qs| ==> |qs[i]| == st.width)
      && Cong(p, opening, Opening.WitnessOf(steps, qs, st, secret, p))
    ensures |commitments| == |keys| && ShortEnough(commitments, st.width)
    ensures var claims := AllClaims(root, commitments, keys, values, st.width, tree.scheme, dlog, factors);
      Opening.GoodClaims(claims, st) && Opening.Outcome(claims, opening, st, secret, p)
        == if ValuesInField(tree, keys, p) then Some(true) else None
  {
    hide *;
    SetupShape(st, p);
    KeysSized(tree, keys);
    RootKnown(tree, keys);
    CommitsLength(tree, keys, commitments);
    SameBound(tree, keys, values, p);
    AllTrue(tree, commitments, keys, values, st, secret, dlog, factors, p);
    SameRoot(tree, root, commitments, keys, values, st.width, dlog, factors);
    PairAccepted(AllClaims(RootPoint(tree), commitments, keys, values, st.width, tree.scheme, dlog, factors),
                 AllSteps(tree.tree, keys, st.width, tree.scheme, factors), values, qs, opening, st, secret, p);
  }

  /** No value of the keys is above the modulus. */
  ghost predicate ValuesInField(tree: VerkleTree, keys: seq<Bytes>, p: Prime)
    requires Present(tree, keys)
    reads tree
  {
    forall i :: 0 <= i < |keys| ==> ByteStrings.FromBytes(tree.contents[keys[i]]) <= p
  }

  lemma SameBound(tree: VerkleTree, keys: seq<Bytes>, values: seq<nat>, p: Prime)
    requires Present(tree, keys) && |values| == |keys|
    requires forall i :: 0 <= i < |keys| ==> values[i] == ByteStrings.FromBytes(tree.contents[keys[i]])
    ensures ValuesInField(tree, keys, p) <==> forall i :: 0 <= i < |values| ==> values[i] <= p
  {
    hide ByteStrings.FromBytes;
  }

  lemma RootKnown(tree: VerkleTree, keys: seq<Bytes>)
    requires tree.Valid() && Present(tree, keys)
    ensures keys == [] || tree.root != null
  {
    if keys != [] {
      var leaves := PresentPath(tree, keys[0]);
    }
  }

  /** Without keys there are no claims about the root. */
  lemma SameRoot(tree: VerkleTree, root: Point, cs: seq<seq<Point>>, keys: seq<Bytes>, vs: seq<nat>, width: nat, dlog: Point -> int,
                 factors: (Bytes, nat) -> nat)
    requires GoodWidth(width) && |cs| == |keys| == |vs| && ShortEnough(cs, width)
    requires keys == [] || root == RootPoint(tree)
    ensures AllClaims(root, cs, keys, vs, width, tree.scheme, dlog, factors)
      == AllClaims(RootPoint(tree), cs, keys, vs, width, tree.scheme, dlog, factors)
  {
  }

  lemma SetupShape(st: Commitment.Setup, p: Prime)
    requires Commitment.ValidSetup(st, p)
    ensures |st.powers| == st.width
  {
  }

  lemma KeysSized(tree: VerkleTree, keys: seq<Bytes>)
    requires tree.Valid() && Present(tree, keys)
    ensures GoodWidth(tree.width) && forall key :: key in keys ==> |key| == KEY_BYTES
  {
    hide GoodWidth, Lookup, Shaped, StemOf, SuffixOf;
  }

  lemma CommitsLength(tree: VerkleTree, keys: seq<Bytes>, commitments: seq<seq<Point>>)
    requires GoodWidth(tree.width) && CommitsFor(tree, keys, commitments)
    ensures |commitments| == |keys|
  {
  }

  /** What is opened for an honest proof is well formed. */
  lemma HonestSteps(tree: VerkleTree, keys: seq<Bytes>, st: Commitment.Setup, secret: int, dlog: Point -> int,
                    factors: (Bytes, nat) -> nat, p: Prime)
    requires tree.Valid() && tree.width == st.width >= 4 && Commitment.ValidSetup(st, p) && Present(tree, keys)
    requires CommitsValues(tree.scheme, dlog, st, secret, p)
    ensures Opening.GoodSteps(AllSteps(tree.tree, keys, st.width, tree.scheme, factors), st)
  {
    SetupShape(st, p);
    KeysSized(tree, keys);
    var commitments, values := HonestParts(tree, keys);
    hide *;
    AllTrue(tree, commitments, keys, values, st, secret, dlog, factors, p);
    PairSteps(AllClaims(RootPoint(tree), commitments, keys, values, st.width, tree.scheme, dlog, factors),
              AllSteps(tree.tree, keys, st.width, tree.scheme, factors), values, st, secret, p);
  }

  lemma PairSteps(claims: seq<Opening.Claim>, steps: seq<Opening.Step>, values: seq<nat>, st: Commitment.Setup, secret: int, p: Prime)
    requires HonestPair(claims, steps, values, st, secret, p)
    ensures Opening.GoodSteps(steps, st)
  {
  }

  /** The commitments and values of an honest proof. */
  lemma HonestParts(tree: VerkleTree, keys: seq<Bytes>) returns (commitments: seq<seq<Point>>, values: seq<nat>)
    requires GoodWidth(tree.width) && Present(tree, keys)
    ensures CommitsFor(tree, keys, commitments) && |values| == |keys|
    ensures forall i :: 0 <= i < |keys| ==> values[i] == ByteStrings.FromBytes(tree.contents[keys[i]])
  {
    hide ByteStrings.FromBytes, Commits, StemOf, GoodWidth;
    commitments, values := [], [];
    for i := 0 to |keys|
      invariant |commitments| == |values| == i
      invariant forall j :: 0 <= j < i ==> values[j] == ByteStrings.FromBytes(tree.contents[keys[j]])
      invariant forall j :: 0 <= j < i ==>
        commitments[j] == Commits(PathNodes(tree.tree, StemOf(keys[j], tree.width), tree.scheme), tree.scheme)[1..]
    {
      var nodes := PathNodes(tree.tree, StemOf(keys[i], tree.width), tree.scheme);
      commitments := commitments + [Commits(nodes, tree.scheme)[1..]];
      values := values + [ByteStrings.FromBytes(tree.contents[keys[i]])];
    }
  }

  /** The commitment of the root, which is the empty point where there is no root. */
  method RootCommitment(tree: VerkleTree) returns (root: Point)
    requires tree.Valid()
    ensures tree.root != null ==> root == RootPoint(tree)
  {
    root := Point(0, 0);
    if tree.root != null {
      root := tree.root.commitment;
    }
  }

  lemma PairAccepted(claims: seq<Opening.Claim>, steps: seq<Opening.Step>, values: seq<nat>, qs: seq<seq<int>>, opening: int,
                     st: Commitment.Setup, secret: int, p: Prime)
    requires Commitment.ValidSetup(st, p) && HonestPair(claims, steps, values, st, secret, p)
    requires Opening.Quotients(qs, steps, st, p) && forall k :: 0 <= k < |qs| ==> |qs[k]| == st.width
    requires Cong(p, opening, Opening.WitnessOf(steps, qs, st, secret, p))
    ensures Opening.GoodClaims(claims, st)
    ensures Opening.Outcome(claims, opening, st, secret, p)
      == if forall i :: 0 <= i < |values| ==> values[i] <= p then Some(true) else None
  {
    hide Cong, Commitment.ValidSetup, Opening.Quotients, Opening.WitnessOf, Opening.TrueClaims, Opening.GoodSteps, Opening.GoodClaims, Opening.CheckOf;
    Opening.HonestAccepted(claims, steps, qs, opening, st, secret, p);
    OutcomeField(claims, opening, st, secret, p);
  }

  lemma OutcomeField(claims: seq<Opening.Claim>, opening: int, st: Commitment.Setup, secret: int, p: Prime)
    requires Commitment.ValidSetup(st, p) && Opening.GoodClaims(claims, st)
    ensures Opening.Outcome(claims, opening, st, secret, p).Some? <==> Opening.InField(claims, p)
  {
  }

  /** The commitment of the root. */
  ghost function RootPoint(tree: VerkleTree): Point
    reads tree
  {
    tree.scheme.commit(NodeOf(tree.tree, tree.scheme))
  }
}
