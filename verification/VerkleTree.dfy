/** The Verkle tree over a store of nodes addressed by reference: tree/verkle_tree.py. */
module VerkleTree {
  import opened Wrappers
  import opened ByteStrings
  import opened NodeSerialization
  import opened KeyChunks
  import opened VerkleShape
  import opened VerkleCanonical

  datatype Kind = InternalKind | ExtensionKind | SuffixKind

  class TreeNode {
    var kind: Kind
    var children: Children
    var stem: Bytes
    var child: Option<Bytes>
    var commitment: Point
    var value: Option<Bytes>

    constructor (kind: Kind, width: nat)
      ensures this.kind == kind && children == NoChildren(width) && stem == [] && child == None && value == None
    {
      this.kind := kind;
      children := seq(width, _ => None);
      stem := [];
      child := None;
      commitment := Point(0, 0);
      value := None;
    }

    /** What is committed to and stored. */
    function Content(): Node
      reads this
    {
      match kind
      case InternalKind => Internal(children)
      case SuffixKind => Suffix(children)
      case ExtensionKind => Extension(stem, child)
    }
  }

  /** Where in its parent a node belongs. */
  datatype Slot = NoSlot | At(index: nat) | ChildSlot

  datatype Entry = Entry(parent: TreeNode?, slot: Slot, node: TreeNode)

  /** A node once a reference has been put into one of its slots. */
  ghost function Patch(c: Node, slot: Slot, ref: Bytes): Node {
    match c
    case Internal(children) =>
      if slot.At? && slot.index < |children| then Internal(children[slot.index := Some(ref)]) else c
    case Suffix(values) => c
    case Extension(stem, child) => if slot.ChildSlot? then Extension(stem, Some(ref)) else c
  }

  /** A node once all later entries of the stack that belong to it have been linked. */
  ghost function PatchAll(c: Node, node: TreeNode, entries: seq<Entry>, trees: seq<Node>, s: Scheme): Node
    requires |entries| == |trees|
    decreases |entries|
  {
    if entries == [] then c
    else
      var last := |entries| - 1;
      var c' := if entries[last].parent == node then Patch(c, entries[last].slot, Ref(trees[last], s)) else c;
      PatchAll(c', node, entries[..last], trees[..last], s)
  }

  ghost predicate SlotFits(kind: Kind, width: nat, slot: Slot) {
    match kind
    case InternalKind => slot.At? && slot.index < width
    case ExtensionKind => slot.ChildSlot?
    case SuffixKind => false
  }

  /** Every entry but the first belongs to an earlier one; all nodes are different objects. */
  ghost predicate Linked(stack: seq<Entry>, width: nat)
    reads set e | e in stack :: e.node
  {
    LinkedBy(stack, Kinds(stack), width) && forall i :: 0 <= i < |stack| ==> |stack[i].node.children| == width
  }

  ghost predicate LinkedBy(stack: seq<Entry>, kinds: seq<Kind>, width: nat) {
    && |kinds| == |stack|
    && (forall i, j :: 0 <= i < j < |stack| ==> stack[i].node != stack[j].node)
    && (forall i :: 0 <= i < |stack| ==> (stack[i].parent == null <==> i == 0))
    && (forall i :: 0 < i < |stack| ==> HasParent(stack, kinds, i, width))
  }

  ghost predicate HasParent(stack: seq<Entry>, kinds: seq<Kind>, i: nat, width: nat)
    requires 0 < i < |stack| == |kinds|
  {
    exists j :: 0 <= j < i && stack[i].parent == stack[j].node && SlotFits(kinds[j], width, stack[i].slot)
  }

  ghost function Kinds(stack: seq<Entry>): (r: seq<Kind>)
    reads set e | e in stack :: e.node
    ensures |r| == |stack| && forall i :: 0 <= i < |stack| ==> r[i] == stack[i].node.kind
  {
    if stack == [] then [] else Kinds(stack[..|stack| - 1]) + [stack[|stack| - 1].node.kind]
  }

  /** The first k entries become what is intended once the later entries are linked. */
  ghost predicate Intended(stack: seq<Entry>, targets: seq<Node>, k: nat, s: Scheme)
    requires |stack| == |targets| && k <= |stack|
    reads set e | e in stack :: e.node
  {
    forall i :: 0 <= i < k ==> IntendedAt(stack, targets, i, s)
  }

  ghost predicate IntendedAt(stack: seq<Entry>, targets: seq<Node>, i: nat, s: Scheme)
    requires |stack| == |targets| && i < |stack|
    reads set e | e in stack :: e.node
  {
    PatchAll(stack[i].node.Content(), stack[i].node, stack[i + 1..], targets[i + 1..], s) == targets[i]
  }

  // ----- the store

  /** The node can be read back from the store. */
  ghost predicate IsStored(db: map<Bytes, Bytes>, n: Node, s: Scheme) {
    && SizedNode(n) && SizedPoint(s.commit(n))
    && Ref(n, s) in db && Encodes(db[Ref(n, s)], s.commit(n), n)
  }

  ghost predicate AllStored(db: map<Bytes, Bytes>, nodes: set<Node>, s: Scheme) {
    forall n :: n in nodes ==> IsStored(db, n, s)
  }

  /** The nodes that share their reference with no other node that is written. */
  ghost function Safe(nodes: set<Node>, written: set<Node>, s: Scheme): set<Node> {
    set n | n in nodes && forall w :: w in written && Ref(w, s) == Ref(n, s) ==> w == n
  }

  lemma StoreKeeps(db: map<Bytes, Bytes>, data: Bytes, n: Node, nodes: set<Node>, written: set<Node>, s: Scheme)
    requires GoodScheme(s) && AllStored(db, Safe(nodes, written, s), s) && n in written
    requires SizedNode(n) && Encodes(data, s.commit(n), n)
    ensures AllStored(db[Ref(n, s) := data], Safe(nodes + {n}, written, s), s)
  {
    forall x | x in Safe(nodes + {n}, written, s)
      ensures IsStored(db[Ref(n, s) := data], x, s)
    {
      if x == n {
        assert SizedPoint(s.commit(n));
      } else {
        assert x in Safe(nodes, written, s);
        assert Ref(x, s) != Ref(n, s);
      }
    }
  }

  /** Nodes that can all be read back do not share references. */
  lemma StoredApart(db: map<Bytes, Bytes>, nodes: set<Node>, s: Scheme)
    requires AllStored(db, nodes, s)
    ensures CollisionFree(nodes, s)
  {
    forall a, b | a in nodes && b in nodes && Ref(a, s) == Ref(b, s)
      ensures a == b
    {
      assert IsStored(db, a, s) && IsStored(db, b, s);
      EncodesOnce(db[Ref(a, s)], s.commit(a), a, s.commit(b), b);
    }
  }

  /** What has become of a list of targets: a set. */
  ghost function SetOf(targets: seq<Node>): set<Node> {
    set n | n in targets
  }

  /** The values of the tree are those of the map. */
  ghost predicate RepresentsMap(t: Tree, m: map<Bytes, Bytes>, width: nat)
    requires GoodWidth(width)
  {
    && (forall key :: key in m ==> |key| == KEY_BYTES && |m[key]| == 32)
    && forall key: Bytes :: |key| == KEY_BYTES ==>
      Lookup(t, StemOf(key, width), SuffixOf(key, width)) == if key in m then Some(m[key]) else None
  }

  class VerkleTree {
    const width: nat
    const scheme: Scheme
    var db: map<Bytes, Bytes>
    var root: TreeNode?
    var rootRef: Option<Bytes>
    ghost var tree: Tree
    ghost var contents: map<Bytes, Bytes>

    ghost predicate Valid()
      reads this, root
    {
      Sound() && Reads(tree)
    }

    /** The tree stands for the map, and the root for the tree. */
    ghost predicate Sound()
      reads this, root
    {
      && GoodWidth(width) && GoodScheme(scheme)
      && tree.Branch? && Shaped(tree, width, StemLength(width)) && Tight(tree, width, StemLength(width))
      && RepresentsMap(tree, contents, width)
      && (root == null ==> rootRef == None)
      && (root != null ==> rootRef == root.value == Some(RefOf(tree, scheme)))
    }

    /** What is in memory and in the store is that tree. */
    ghost predicate Reads(t: Tree)
      reads this, root
    {
      && (root == null ==> t == Branch(NoTrees(width)))
      && (root != null ==>
        && |root.children| == width && root.Content() == NodeOf(t, scheme)
        && root.commitment == scheme.commit(root.Content())
        && AllStored(db, Nodes(t, scheme), scheme))
    }

    /** An empty tree. */
    constructor (width: nat, scheme: Scheme)
      requires GoodScheme(scheme) && GoodWidth(width)
      ensures Valid() && contents == map[] && db == map[] && root == null
      ensures this.width == width && this.scheme == scheme
    {
      this.width := width;
      this.scheme := scheme;
      db := map[];
      root := null;
      rootRef := None;
      tree := Branch(NoTrees(width));
      contents := map[];
      new;
      EmptyRepresents();
    }

    lemma EmptyRepresents()
      requires GoodWidth(width) && tree == Branch(NoTrees(width)) && contents == map[]
      ensures Shaped(tree, width, StemLength(width)) && Tight(tree, width, StemLength(width))
      ensures RepresentsMap(tree, contents, width)
    {
      EmptyTight(width, StemLength(width));
      forall key: Bytes | |key| == KEY_BYTES
        ensures Lookup(tree, StemOf(key, width), SuffixOf(key, width)) == None
      {
        EmptyLookup(width, StemOf(key, width), SuffixOf(key, width));
      }
    }

    /** A tree from its store and the reference of its root. */
    constructor Open(width: nat, scheme: Scheme, db: map<Bytes, Bytes>, rootRef: Bytes, ghost t: Tree, ghost m: map<Bytes, Bytes>)
      requires GoodScheme(scheme) && GoodWidth(width)
      requires t.Branch? && Shaped(t, width, StemLength(width)) && Tight(t, width, StemLength(width))
      requires RepresentsMap(t, m, width)
      requires AllStored(db, Nodes(t, scheme), scheme) && rootRef == RefOf(t, scheme)
      ensures Valid() && contents == m && tree == t && this.db == db && this.rootRef == Some(rootRef)
      ensures this.width == width && this.scheme == scheme
    {
      this.width := width;
      this.scheme := scheme;
      this.db := db;
      this.rootRef := Some(rootRef);
      this.root := null;
      tree := t;
      contents := m;
      new;
      hide RepresentsMap, Lookup, Encodes, Inner, GoodWidth, GoodScheme, IsStored, Tight;
      assert NodeOf(t, scheme) in Nodes(t, scheme);
      var node := MakeTreeNode(rootRef, NodeOf(t, scheme));
      ChildWidth(t, scheme, width, StemLength(width), node);
      this.root := node;
    }

    // ----- the operations

    /** Sets the value of a key.  False, and nothing changed, when the key has the wrong
        size.  All nodes of the new tree can be read back exactly if no two of them have
        the same reference. */
    method Insert(key: Bytes, value: Bytes) returns (ok: bool)
      requires Valid() && |value| == 32
      modifies this, root
      ensures ok == (|key| == KEY_BYTES) && Sound() && (root == old(root) || fresh(root))
      ensures ok ==> contents == old(contents)[key := value] && tree == old(After(key, value))
      ensures ok ==> (Valid() <==> CollisionFree(Nodes(tree, scheme), scheme))
      ensures !ok ==> Valid() && contents == old(contents) && tree == old(tree) && db == old(db) && rootRef == old(rootRef)
    {
      if |key| != KEY_BYTES {
        return false;
      }
      ghost var written := InsertSized(key, value);
      ok := true;
      assert Reads(tree) ==> CollisionFree(Nodes(tree, scheme), scheme) by {
        if Reads(tree) {
          StoredApart(db, Nodes(tree, scheme), scheme);
        }
      }
      if CollisionFree(Nodes(tree, scheme), scheme) {
        AllSafe(Nodes(tree, scheme), Inner(old(tree), scheme), written, scheme);
      }
    }

    /** What an insertion has written, and which of it can be read back in any case. */
    ghost predicate Written(before: Tree, written: set<Node>)
      reads this, root
    {
      && written <= Nodes(tree, scheme) <= Inner(before, scheme) + written && OneSuffix(written)
      && AllStored(db, Safe(Inner(before, scheme) + written, written, scheme), scheme)
      && root != null && |root.children| == width && root.Content() == NodeOf(tree, scheme)
      && root.commitment == scheme.commit(root.Content())
    }

    method InsertSized(key: Bytes, value: Bytes) returns (ghost written: set<Node>)
      requires Valid() && |value| == 32 && |key| == KEY_BYTES
      modifies this, root
      ensures Sound() && contents == old(contents)[key := value] && tree == old(After(key, value))
      ensures root == old(root) || fresh(root)
      ensures Written(old(tree), written)
    {
      hide RepresentsMap, Lookup, IsStored, AllStored, Inner, GoodScheme, InsertInto, Shaped, StemOf, SuffixOf, NodeOf, Safe, OneSuffix;
      InsertTight(tree, StemOf(key, width), SuffixOf(key, width), value, width);
      InsertRepresents(tree, contents, key, value, width);
      ghost var whole := After(key, value);
      var stem, suffix := SplitKey(key);
      var top := root;
      if top == null {
        top := new TreeNode(InternalKind, width);
        EmptyNode(top, scheme, width);
        NothingStored(db, scheme);
      } else {
        InnerStored(db, tree, scheme);
      }
      assert width <= 256;
      hide GoodWidth;
      written := BuildAndCommit(top, stem, suffix, value);
      tree, contents := whole, contents[key := value];
    }

    /** The tree once the key has its value. */
    ghost function After(key: Bytes, value: Bytes): Tree
      reads this, root
      requires Valid()
    {
      InsertInto(tree, StemOf(key, width), SuffixOf(key, width), value, width)
    }

    method SplitKey(key: Bytes) returns (stem: Bytes, suffix: nat)
      requires GoodWidth(width)
      ensures stem == StemOf(key, width) && suffix == SuffixOf(key, width)
    {
      CountRange(width);
      var chunks := GetKeyChunks(key, width);
      var last := |chunks.value| - 1;
      stem, suffix := chunks.value[..last], chunks.value[last];
    }

    /** Both phases of an insertion: the stack is built, then taken down. */
    method BuildAndCommit(top: TreeNode, stem: Bytes, suffix: nat, value: Bytes) returns (ghost written: set<Node>)
      requires GoodScheme(scheme) && width <= 256 && |stem| < 256 && |value| == 32
      requires tree.Branch? && Shaped(tree, width, |stem|) && InRange(stem, width) && suffix < width
      requires top.Content() == NodeOf(tree, scheme) && |top.children| == width
      requires AllStored(db, Inner(tree, scheme), scheme)
      modifies this`db, this`root, this`rootRef, top
      ensures written <= Nodes(InsertInto(tree, stem, suffix, value, width), scheme) <= Inner(tree, scheme) + written
      ensures OneSuffix(written)
      ensures AllStored(db, Safe(Inner(tree, scheme) + written, written, scheme), scheme)
      ensures root == top && |root.children| == width && root.Content() == NodeOf(InsertInto(tree, stem, suffix, value, width), scheme)
      ensures rootRef == root.value == Some(RefOf(InsertInto(tree, stem, suffix, value, width), scheme))
      ensures root.commitment == scheme.commit(root.Content())
    {
      hide OneSuffix, Safe;
      ghost var whole, keep := InsertInto(tree, stem, suffix, value, width), Inner(tree, scheme);
      var stack;
      ghost var targets;
      stack, targets := BuildStack(top, stem, suffix, value);
      written := SetOf(targets);
      TargetsSized(targets, whole, stem, suffix, value);
      SafeSubset(db, keep, written, scheme);
      CommitStack(stack, targets, keep);
    }

    lemma TargetsSized(targets: seq<Node>, whole: Tree, stem: Bytes, suffix: nat, value: Bytes)
      requires GoodScheme(scheme) && width <= 256 && |stem| < 256 && |value| == 32
      requires Shaped(tree, width, |stem|) && InRange(stem, width) && suffix < width
      requires whole == InsertInto(tree, stem, suffix, value, width) && SetOf(targets) <= Nodes(whole, scheme)
      ensures forall i :: 0 <= i < |targets| ==> SizedNode(targets[i])
    {
      InsertShaped(tree, stem, suffix, value, width);
      forall i | 0 <= i < |targets|
        ensures SizedNode(targets[i])
      {
        assert targets[i] in SetOf(targets);
        NodesSized(whole, scheme, width, |stem|, targets[i]);
      }
    }

    /** From the top to the place of the new value. */
    method BuildStack(top: TreeNode, stem: Bytes, suffix: nat, value: Bytes) returns (stack: seq<Entry>, ghost targets: seq<Node>)
      requires tree.Branch? && Shaped(tree, width, |stem|) && InRange(stem, width) && suffix < width
      requires top.Content() == NodeOf(tree, scheme) && |top.children| == width
      requires AllStored(db, Inner(tree, scheme), scheme)
      ensures Complete(stack, targets, InsertInto(tree, stem, suffix, value, width), Inner(tree, scheme), scheme, width)
      ensures OneSuffix(SetOf(targets))
      ensures stack[0].node == top && forall i :: 0 < i < |stack| ==> fresh(stack[i].node)
    {
      hide Complete, AllStored, Inner, InsertInto, Covers, Intended, Linked, Pending, Standing, OneSuffix;
      ghost var whole, keep := InsertInto(tree, stem, suffix, value, width), Inner(tree, scheme);
      ghost var cur;
      stack, targets, cur := Descend(top, stem, suffix, value);
      PathKind(stack, targets, cur, stem, suffix, value, whole, keep, scheme, width);
      PathStem(stack, targets, cur, stem, suffix, value, whole, keep, scheme, width);
      ghost var path := stack;
      var node := stack[|stack| - 1].node;
      if node.kind.InternalKind? {
        hide OnPath, NodeOf, Shaped;
        stack, targets := FillSlot(stack, stem, suffix, value, targets, cur, whole, keep);
      } else if node.stem == stem[|stack| - 1..] {
        hide OnPath, NodeOf, Shaped;
        stack, targets := SetLeaf(stack, stem, suffix, value, targets, cur, whole, keep);
      } else {
        hide OnPath, NodeOf, Shaped;
        stack, targets := SplitStem(stack, stem, suffix, value, targets, cur, whole, keep);
      }
      CompleteNonempty(stack, targets, whole, keep, scheme, width);
      assert path[0].node == top;
      CompleteSuffix(stack, targets, whole, keep, scheme, width);
    }

    /** The value of a key as a number; None for a key that has none. */
    method Get(key: Bytes) returns (ok: bool, r: Option<nat>)
      requires Valid()
      ensures ok == (|key| == KEY_BYTES)
      ensures ok ==> r == if key in contents then Some(FromBytes(contents[key])) else None
    {
      ok, r := GetFrom(key, tree);
    }

    /** What is found depends on what is in memory and in the store only. */
    method GetFrom(key: Bytes, ghost t: Tree) returns (ok: bool, r: Option<nat>)
      requires GoodWidth(width) && Shaped(t, width, StemLength(width)) && Reads(t)
      ensures ok == (|key| == KEY_BYTES)
      ensures ok ==> r == match Lookup(t, StemOf(key, width), SuffixOf(key, width))
        case None => None
        case Some(value) => Some(FromBytes(value))
    {
      r := None;
      if |key| != KEY_BYTES {
        return false, None;
      }
      ok := true;
      var stem, suffix := SplitKey(key);
      var found := Find(stem, suffix, t);
      if found.Some? {
        r := Some(FromBytes(found.value));
      }
    }

    method Find(stem: Bytes, suffix: nat, ghost t: Tree) returns (r: Option<Bytes>)
      requires Reads(t) && Shaped(t, width, |stem|) && InRange(stem, width) && suffix < width
      ensures r == Lookup(t, stem, suffix)
    {
      hide Encodes, Inner, RefOf, NodeOf, IsStored;
      var node := root;
      var depth := 0;
      ghost var cur := t;
      assert stem[0..] == stem;
      EmptyLookup(width, stem, suffix);
      if node != null {
        InnerStored(db, t, scheme);
      }
      while node != null
        invariant depth <= |stem| && Shaped(cur, width, |stem| - depth)
        invariant node != null ==> node.Content() == NodeOf(cur, scheme) && AllStored(db, Inner(cur, scheme), scheme)
        invariant Lookup(t, stem, suffix) == Lookup(cur, stem[depth..], suffix)
        invariant node == null ==> Lookup(t, stem, suffix) == None
        decreases |stem| + 1 - depth, node
      {
        NodeTells(node, cur, scheme);
        if node.kind.InternalKind? {
          var childRef := node.children[stem[depth]];
          if childRef.None? {
            return None;
          }
          ChildStored(cur, stem[depth], db, scheme);
          assert stem[depth..][1..] == stem[depth + 1..];
          cur := cur.children[stem[depth]].value;
          node := MakeTreeNode(childRef.value, NodeOf(cur, scheme));
          depth := depth + 1;
        } else {
          if stem[depth..] != node.stem {
            return None;
          }
          InnerOfStemmed(cur, scheme);
          var leaf := MakeTreeNode(node.child.value, Suffix(cur.leaves));
          return leaf.children[suffix];
        }
      }
      r := None;
    }

    // ----- nodes in memory and in the store

    /** Reads a node back from the store. */
    method MakeTreeNode(reference: Bytes, ghost n: Node) returns (node: TreeNode)
      requires IsStored(db, n, scheme) && Ref(n, scheme) == reference
      ensures fresh(node) && node.Content() == n && node.value == Some(reference) && node.commitment == scheme.commit(n)
      ensures |node.children| == if n.Internal? then |n.children| else if n.Suffix? then |n.values| else width
    {
      var result := DeserializeAnyNode(db[reference], scheme.commit(n), n);
      var (comm, content) := result.value;
      match content {
        case Internal(children) =>
          node := new TreeNode(InternalKind, width);
          node.children := children;
        case Suffix(values) =>
          node := new TreeNode(SuffixKind, width);
          node.children := values;
        case Extension(stem, child) =>
          node := new TreeNode(ExtensionKind, width);
          node.stem, node.child := stem, child;
      }
      node.commitment := comm;
      node.value := Some(scheme.hash(comm));
    }

    method StoreNode(node: TreeNode) returns (ghost data: Bytes)
      requires GoodScheme(scheme) && SizedNode(node.Content())
      requires node.commitment == scheme.commit(node.Content()) && node.value == Some(Ref(node.Content(), scheme))
      modifies this`db
      ensures Encodes(data, scheme.commit(node.Content()), node.Content())
      ensures db == old(db)[Ref(node.Content(), scheme) := data]
    {
      var encoded;
      match node.kind {
        case InternalKind => encoded := SerializeArrayNode(PREFIX_INTERNAL, node.commitment, node.children);
        case SuffixKind => encoded := SerializeArrayNode(PREFIX_SUFFIX, node.commitment, node.children);
        case ExtensionKind => encoded := SerializeExtensionNode(node.commitment, node.stem, node.child.value);
      }
      data := encoded;
      db := db[node.value.value := encoded];
    }

    // ----- committing and linking, children before parents

    method CommitStack(stack: seq<Entry>, ghost targets: seq<Node>, ghost keep: set<Node>)
      requires GoodScheme(scheme) && |stack| == |targets| > 0
      requires Linked(stack, width) && Intended(stack, targets, |stack|, scheme)
      requires forall i :: 0 <= i < |targets| ==> SizedNode(targets[i])
      requires AllStored(db, Safe(keep, SetOf(targets), scheme), scheme)
      modifies this`db, this`root, this`rootRef, set e | e in stack :: e.node
      ensures AllStored(db, Safe(keep + SetOf(targets), SetOf(targets), scheme), scheme)
      ensures root == stack[0].node && root.Content() == targets[0] && |root.children| == width
      ensures rootRef == root.value == Some(Ref(targets[0], scheme)) && root.commitment == scheme.commit(targets[0])
    {
      hide AllStored, IsStored, Safe, GoodScheme, Linked, Intended, SizedNode;
      var rest := stack;
      ghost var goals, stored, written := targets, keep, SetOf(targets);
      while rest != []
        invariant |goals| == |rest| && rest == stack[..|rest|] && goals == targets[..|rest|]
        invariant InProgress(rest, goals, scheme, width)
        invariant AllStored(db, Safe(stored, written, scheme), scheme) && stored + SetOf(goals) == keep + written
        invariant rest == [] ==> IsRoot(stack[0].node, targets[0])
        decreases |rest|
      {
        var last := |rest| - 1;
        assert goals[last] == targets[last];
        PopEntry(rest, goals, stored, written);
        SetOfFront(goals);
        stored := stored + {goals[last]};
        rest, goals := rest[..last], goals[..last];
      }
      assert SetOf(goals) == {};
      assert stored == keep + written;
      rootRef := root.value;
    }

    /** The root object holds that node. */
    ghost predicate IsRoot(node: TreeNode, n: Node)
      reads this, node
    {
      && root == node && node.Content() == n && |node.children| == width
      && node.value == Some(Ref(n, scheme)) && node.commitment == scheme.commit(n)
    }

    /** The last entry of the stack is committed to, stored and linked into its parent. */
    method PopEntry(stack: seq<Entry>, ghost targets: seq<Node>, ghost keep: set<Node>, ghost written: set<Node>)
      requires GoodScheme(scheme) && InProgress(stack, targets, scheme, width) && stack != []
      requires SizedNode(targets[|targets| - 1]) && targets[|targets| - 1] in written
      requires AllStored(db, Safe(keep, written, scheme), scheme)
      modifies this`db, this`root, set e | e in stack :: e.node
      ensures AllStored(db, Safe(keep + {targets[|targets| - 1]}, written, scheme), scheme)
      ensures InProgress(stack[..|stack| - 1], targets[..|stack| - 1], scheme, width)
      ensures |stack| == 1 ==> IsRoot(stack[0].node, targets[0])
    {
      hide Intended, LinkedBy, Patch, PatchAll, IsStored, GoodScheme, SizedNode, Safe, AllStored;
      ghost var before, n := Contents(stack), targets[|targets| - 1];
      LastIntended(stack, targets, scheme);
      BeforeIntended(stack, targets, scheme);
      CommitNode(stack, n, keep, written);
      LinkOrRoot(stack, n);
      PoppedProgress(stack, targets, before, scheme, width);
    }

    /** The new reference goes into the parent; the first entry becomes the root. */
    method LinkOrRoot(stack: seq<Entry>, ghost n: Node)
      requires stack != [] && Linked(stack, width)
      requires stack[|stack| - 1].node.value == Some(Ref(n, scheme)) && stack[|stack| - 1].node.Content() == n
      requires stack[|stack| - 1].node.commitment == scheme.commit(n)
      modifies this`root, set e | e in stack[..|stack| - 1] :: e.node
      ensures Linked(stack, width)
      ensures forall i :: 0 <= i < |stack| - 1 ==>
        stack[i].node.Content() == PatchedBy(old(stack[i].node.Content()), stack, i, Ref(n, scheme))
      ensures |stack| == 1 ==> IsRoot(stack[0].node, n)
    {
      hide Patch;
      var last := |stack| - 1;
      if stack[last].parent != null {
        LinkNode(stack, stack[last].node.value.value, width);
      } else {
        root := stack[last].node;
      }
    }

    method CommitNode(stack: seq<Entry>, ghost n: Node, ghost keep: set<Node>, ghost written: set<Node>)
      requires GoodScheme(scheme) && stack != [] && Linked(stack, width)
      requires stack[|stack| - 1].node.Content() == n && SizedNode(n) && n in written
      requires AllStored(db, Safe(keep, written, scheme), scheme)
      modifies this`db, stack[|stack| - 1].node
      ensures AllStored(db, Safe(keep + {n}, written, scheme), scheme) && Linked(stack, width)
      ensures Contents(stack) == old(Contents(stack))
      ensures stack[|stack| - 1].node.value == Some(Ref(n, scheme)) && stack[|stack| - 1].node.commitment == scheme.commit(n)
    {
      hide Safe;
      var current := stack[|stack| - 1].node;
      ghost var kinds, contents := Kinds(stack), Contents(stack);
      current.commitment := scheme.commit(current.Content());
      current.value := Some(scheme.hash(current.commitment));
      ghost var data := StoreNode(current);
      StoreKeeps(old(db), data, n, keep, written, scheme);
      assert Kinds(stack) == kinds && Contents(stack) == contents;
    }

    // ----- the way down

    /** Follows the stem to the first empty slot or to a stem. */
    method Descend(top: TreeNode, stem: Bytes, ghost suffix: nat, ghost value: Bytes)
      returns (stack: seq<Entry>, ghost targets: seq<Node>, ghost cur: Tree)
      requires tree.Branch? && Shaped(tree, width, |stem|) && InRange(stem, width) && suffix < width
      requires top.Content() == NodeOf(tree, scheme) && |top.children| == width
      requires AllStored(db, Inner(tree, scheme), scheme)
      ensures |stack| > 0 && stack[0].node == top && forall i :: 0 < i < |stack| ==> fresh(stack[i].node)
      ensures OnPath(stack, targets, cur, stem, suffix, value, InsertInto(tree, stem, suffix, value, width),
                     Inner(tree, scheme), scheme, width)
      ensures cur.Branch? ==> cur.children[stem[|stack| - 1]].None?
      ensures cur.Stemmed? ==> |stack| > 1
      ensures Inner(cur, scheme) <= Inner(tree, scheme)
    {
      hide OnPath, AllStored, Inner, InsertInto, NodeOf, Shaped, Covers, Intended, Linked, Pending, Standing;
      ghost var keep, whole := Inner(tree, scheme), InsertInto(tree, stem, suffix, value, width);
      stack := [Entry(null, NoSlot, top)];
      cur, targets := tree, [NodeOf(whole, scheme)];
      FirstOnPath(stack, targets, tree, stem, suffix, value, whole, keep, scheme, width);
      PathKind(stack, targets, cur, stem, suffix, value, whole, keep, scheme, width);
      while stack[|stack| - 1].node.kind.InternalKind? && stack[|stack| - 1].node.children[stem[|stack| - 1]].Some?
        invariant |stack| > 0 && stack[0].node == top && forall i :: 0 < i < |stack| ==> fresh(stack[i].node)
        invariant OnPath(stack, targets, cur, stem, suffix, value, whole, keep, scheme, width)
        invariant PathKindOf(stack, cur, stem, scheme, width)
        invariant AllStored(db, Inner(cur, scheme), scheme) && Inner(cur, scheme) <= keep
        invariant |stack| == 1 ==> cur == tree
        decreases |stem| + 1 - |stack|
      {
        var child, next := Follow(stack, targets, cur, stem, suffix, value, whole, keep);
        ghost var t' := InsertNext(next, stem, |stack|, suffix, value, width);
        stack := stack + [Entry(stack[|stack| - 1].node, At(stem[|stack| - 1]), child)];
        targets := targets + [NodeOf(t', scheme)];
        cur := next;
        PathKind(stack, targets, cur, stem, suffix, value, whole, keep, scheme, width);
      }
    }

    /** Reads the next node and puts it on the stack. */
    method Follow(stack: seq<Entry>, ghost targets: seq<Node>, ghost cur: Tree, stem: Bytes, ghost suffix: nat,
                  ghost value: Bytes, ghost whole: Tree, ghost keep: set<Node>)
      returns (child: TreeNode, ghost next: Tree)
      requires OnPath(stack, targets, cur, stem, suffix, value, whole, keep, scheme, width)
      requires AllStored(db, Inner(cur, scheme), scheme) && Inner(cur, scheme) <= keep
      requires cur.Branch? && |stack| <= |stem| && stem[|stack| - 1] < |cur.children| && cur.children[stem[|stack| - 1]].Some?
      ensures fresh(child)
      ensures Shaped(next, width, |stem| - |stack|)
      ensures OnPath(stack + [Entry(stack[|stack| - 1].node, At(stem[|stack| - 1]), child)],
                     targets + [NodeOf(InsertNext(next, stem, |stack|, suffix, value, width), scheme)],
                     next, stem, suffix, value, whole, keep, scheme, width)
      ensures AllStored(db, Inner(next, scheme), scheme) && Inner(next, scheme) <= Inner(cur, scheme)
    {
      hide Covers, Intended, Linked, Patch, IsStored, AllStored, Inner, Encodes, Pending, Standing;
      var node, chunk := stack[|stack| - 1].node, stem[|stack| - 1];
      next := cur.children[chunk].value;
      ChildStored(cur, chunk, db, scheme);
      PathShape(stack, targets, cur, stem, suffix, value, whole, keep, scheme, width);
      child := MakeTreeNode(node.children[chunk].value, NodeOf(next, scheme));
      ChildWidth(next, scheme, width, |stem| - |stack|, child);
      assert forall i :: 0 <= i < |stack| ==> stack[i].node != child;
      assert OnPath(stack, targets, cur, stem, suffix, value, whole, keep, scheme, width);
      hide *;
      PathPushed(stack, targets, cur, stem, suffix, value, whole, keep, child, scheme, width);
    }

    // ----- the three ways in which the path ends

    /** The slot is empty: the rest of the stem and a leaf go there. */
    method FillSlot(stack: seq<Entry>, stem: Bytes, suffix: nat, value: Bytes, ghost targets: seq<Node>, ghost cur: Tree,
                    ghost whole: Tree, ghost keep: set<Node>)
      returns (stack': seq<Entry>, ghost targets': seq<Node>)
      requires OnPath(stack, targets, cur, stem, suffix, value, whole, keep, scheme, width)
      requires cur.Branch? && |stack| <= |stem| && stem[|stack| - 1] < |cur.children| && cur.children[stem[|stack| - 1]].None?
      requires Inner(cur, scheme) <= keep
      ensures Complete(stack', targets', whole, keep, scheme, width)
      ensures |stack'| >= |stack| && stack'[..|stack|] == stack
      ensures forall i :: |stack| <= i < |stack'| ==> fresh(stack'[i].node)
    {
      hide Covers, Intended, Linked, Patch, Inner, Pending, Standing, Complete, NodeOf;
      PathKind(stack, targets, cur, stem, suffix, value, whole, keep, scheme, width);
      var depth := |stack| - 1;
      var node, chunk := stack[depth].node, stem[depth];
      var extNode, suffixTree := NewLeaf(stem[depth + 1..], suffix, value);
      assert forall e :: e in stack ==> e.node != suffixTree && e.node != extNode;
      assert OnPath(stack, targets, cur, stem, suffix, value, whole, keep, scheme, width);
      hide *;
      ghost var leaves := OneLeaf(width, suffix, value);
      SlotFilled(stack, targets, cur, stem, suffix, value, whole, keep, extNode, suffixTree, scheme, width);
      stack' := stack + [Entry(node, At(chunk), extNode)] + [Entry(extNode, ChildSlot, suffixTree)];
      targets' := targets + [NodeOf(Stemmed(stem[depth + 1..], leaves), scheme)] + [Suffix(leaves)];
    }

    /** An extension for the rest of a stem, and the suffix tree that belongs below it. */
    method NewLeaf(stem: Bytes, suffix: nat, value: Bytes) returns (extNode: TreeNode, suffixTree: TreeNode)
      requires suffix < width
      ensures fresh(extNode) && fresh(suffixTree) && extNode != suffixTree
      ensures extNode.Content() == Extension(stem, None) && |extNode.children| == width
      ensures suffixTree.Content() == Suffix(OneLeaf(width, suffix, value)) && |suffixTree.children| == width
    {
      suffixTree := new TreeNode(SuffixKind, width);
      suffixTree.children := suffixTree.children[suffix := Some(value)];
      extNode := new TreeNode(ExtensionKind, width);
      extNode.stem := stem;
    }

    /** The stem is the one looked for: its leaves get a new value. */
    method SetLeaf(stack: seq<Entry>, stem: Bytes, suffix: nat, value: Bytes, ghost targets: seq<Node>, ghost cur: Tree,
                   ghost whole: Tree, ghost keep: set<Node>)
      returns (stack': seq<Entry>, ghost targets': seq<Node>)
      requires OnPath(stack, targets, cur, stem, suffix, value, whole, keep, scheme, width)
      requires cur.Stemmed? && cur.stem == stem[|stack| - 1..]
      requires Inner(cur, scheme) <= keep && AllStored(db, keep, scheme)
      ensures Complete(stack', targets', whole, keep, scheme, width)
      ensures |stack'| >= |stack| && stack'[..|stack|] == stack
      ensures forall i :: |stack| <= i < |stack'| ==> fresh(stack'[i].node)
    {
      hide Covers, Intended, Linked, Patch, Pending, Standing, Complete, Encodes;
      var node := stack[|stack| - 1].node;
      var suffixTree := MakeTreeNode(node.child.value, Suffix(cur.leaves));
      suffixTree.children := suffixTree.children[suffix := Some(value)];
      assert forall e :: e in stack ==> e.node != suffixTree;
      assert OnPath(stack, targets, cur, stem, suffix, value, whole, keep, scheme, width);
      ghost var t := InsertNext(cur, stem, |stack| - 1, suffix, value, width);
      PatchStem(node.Content(), t, scheme);
      PushLeaves(stack, targets, t, whole, keep, suffixTree, scheme, width);
      stack', targets' := stack + [Entry(node, ChildSlot, suffixTree)], targets + [Suffix(t.leaves)];
    }

    /** Another stem lies in the way: branches for the common chunks, then one for both. */
    method SplitStem(stack: seq<Entry>, stem: Bytes, suffix: nat, value: Bytes, ghost targets: seq<Node>, ghost cur: Tree,
                     ghost whole: Tree, ghost keep: set<Node>)
      returns (stack': seq<Entry>, ghost targets': seq<Node>)
      requires OnPath(stack, targets, cur, stem, suffix, value, whole, keep, scheme, width) && |stack| > 1
      requires cur.Stemmed? && cur.stem != stem[|stack| - 1..] && InRange(cur.stem, width)
      requires Inner(cur, scheme) <= keep
      modifies stack[|stack| - 1].node
      ensures Complete(stack', targets', whole, keep, scheme, width)
      ensures |stack'| >= |stack| - 1 && stack'[..|stack| - 1] == stack[..|stack| - 1]
      ensures forall i :: |stack| - 1 <= i < |stack'| ==> fresh(stack'[i].node) || stack'[i].node == stack[|stack| - 1].node
    {
      hide Covers, Intended, Linked, Patch, Inner, Pending, Standing, Complete;
      var depth := |stack| - 1;
      var node := stack[depth].node;
      var existingStem, newStem := node.stem, stem[depth..];
      var matchLength := 0;
      while matchLength < |existingStem| && matchLength < |newStem| && existingStem[matchLength] == newStem[matchLength]
        invariant matchLength <= |existingStem|
        invariant forall k :: 0 <= k < matchLength ==> existingStem[k] == newStem[k]
      {
        matchLength := matchLength + 1;
      }
      TailsDiffer(existingStem, newStem, matchLength);
      ghost var leaves, leaves' := cur.leaves, OneLeaf(width, suffix, value);
      NodesApart(stack, targets, InsertNext(cur, stem, depth, suffix, value, width), whole, keep, scheme, width);
      assert existingStem[0..] == existingStem && newStem[0..] == newStem;
      InnerOfStemmed(cur, scheme);
      hide OnPath;
      var slot;
      stack', targets', slot := PushAllShared(stack[..depth], targets[..depth], stack[depth].slot, node, existingStem, leaves,
                                              newStem, leaves', matchLength, whole, keep);
      stack', targets' := Diverge(stack', targets', slot, node, existingStem, leaves, newStem, suffix, value, matchLength, whole, keep);
    }

    /** A branch for every chunk that both stems have. */
    method PushAllShared(base: seq<Entry>, ghost targets: seq<Node>, slot: Slot, ghost node: TreeNode, stem: Bytes,
                         ghost leaves: Children, stem': Bytes, ghost leaves': Children, matchLength: nat,
                         ghost whole: Tree, ghost keep: set<Node>)
      returns (stack: seq<Entry>, ghost targets': seq<Node>, slot': Slot)
      requires matchLength <= |stem| == |stem'| && InRange(stem, width) && InRange(stem', width)
      requires forall i :: 0 <= i < matchLength ==> stem[i] == stem'[i]
      requires forall i :: 0 <= i <= matchLength ==> stem[i..] != stem'[i..]
      requires Pending(base, targets, slot, SplitAt(stem, leaves, stem', leaves', width, 0), whole, keep, scheme, width)
      requires forall k :: 0 <= k < |base| ==> base[k].node != node
      ensures |base| <= |stack| && stack[..|base|] == base
      ensures forall k :: |base| <= k < |stack| ==> fresh(stack[k].node)
      ensures forall k :: 0 <= k < |stack| ==> stack[k].node != node
      ensures Pending(stack, targets', slot', SplitAt(stem, leaves, stem', leaves', width, matchLength), whole, keep, scheme, width)
    {
      hide Pending, SplitAt, InRange;
      stack, targets', slot' := base, targets, slot;
      for i := 0 to matchLength
        invariant |base| <= |stack| && stack[..|base|] == base
        invariant forall k :: |base| <= k < |stack| ==> fresh(stack[k].node)
        invariant forall k :: 0 <= k < |stack| ==> stack[k].node != node
        invariant Pending(stack, targets', slot', SplitAt(stem, leaves, stem', leaves', width, i), whole, keep, scheme, width)
      {
        stack, targets', slot' := PushShared(stack, targets', slot', stem, leaves, stem', leaves', i, whole, keep);
      }
    }

    /** One branch for a chunk that both stems have. */
    method PushShared(stack: seq<Entry>, ghost targets: seq<Node>, slot: Slot, stem: Bytes, ghost leaves: Children,
                      stem': Bytes, ghost leaves': Children, i: nat, ghost whole: Tree, ghost keep: set<Node>)
      returns (more: seq<Entry>, ghost goals: seq<Node>, slot': Slot)
      requires i < |stem| == |stem'| && stem[i] == stem'[i] && stem[i + 1..] != stem'[i + 1..] && stem[i..] != stem'[i..]
      requires InRange(stem, width) && InRange(stem', width)
      requires Pending(stack, targets, slot, SplitAt(stem, leaves, stem', leaves', width, i), whole, keep, scheme, width)
      ensures |more| == |stack| + 1 && more[..|stack|] == stack && fresh(more[|stack|].node)
      ensures Pending(more, goals, slot', SplitAt(stem, leaves, stem', leaves', width, i + 1), whole, keep, scheme, width)
    {
      hide Covers, Intended, Linked, Patch, Inner, Pending, Standing;
      ghost var t, t' := SplitAt(stem, leaves, stem', leaves', width, i), SplitAt(stem, leaves, stem', leaves', width, i + 1);
      var parent := LastNode(stack, targets, slot, t, whole, keep);
      var shared := new TreeNode(InternalKind, width);
      assert forall e :: e in stack ==> e.node != shared;
      PushPending(stack, targets, slot, t, whole, keep, shared, scheme, width);
      more, goals := stack + [Entry(parent, slot, shared)], targets + [NodeOf(t, scheme)];
      slot' := At(stem[i]);
      assert stem[i..][1..] == stem[i + 1..] && stem'[i..][1..] == stem'[i + 1..];
      assert t == Branch(NoTrees(width)[stem[i] := Some(t')]);
      EmptyNode(shared, scheme, width);
      BranchPatched(Branch(NoTrees(width)), stem[i], t', scheme);
      StandingPending(more, goals, slot', t, t', whole, keep, scheme, width);
    }

    method LastNode(stack: seq<Entry>, ghost targets: seq<Node>, slot: Slot, ghost t: Tree, ghost whole: Tree, ghost keep: set<Node>)
      returns (node: TreeNode)
      requires Pending(stack, targets, slot, t, whole, keep, scheme, width)
      ensures stack != [] && node == stack[|stack| - 1].node
    {
      node := stack[|stack| - 1].node;
    }

    /** The branch at which the stems part, with the old stem and the new one below it. */
    method Diverge(stack: seq<Entry>, ghost targets: seq<Node>, slot: Slot, node: TreeNode, stem: Bytes, ghost leaves: Children,
                   stem': Bytes, suffix: nat, value: Bytes, i: nat, ghost whole: Tree, ghost keep: set<Node>)
      returns (more: seq<Entry>, ghost goals: seq<Node>)
      requires i < |stem| == |stem'| && stem[i] != stem'[i] && InRange(stem, width) && InRange(stem', width) && suffix < width
      requires Pending(stack, targets, slot, SplitAt(stem, leaves, stem', OneLeaf(width, suffix, value), width, i), whole, keep, scheme, width)
      requires node.Content() == NodeOf(Stemmed(stem, leaves), scheme) && |node.children| == width
      requires Suffix(leaves) in keep
      requires forall k :: 0 <= k < |stack| ==> stack[k].node != node
      modifies node
      ensures Complete(more, goals, whole, keep, scheme, width)
      ensures |more| >= |stack| && more[..|stack|] == stack
      ensures forall k :: |stack| <= k < |more| ==> fresh(more[k].node) || more[k].node == node
    {
      hide Covers, Intended, Linked, Patch, Inner, Pending, Standing, Complete;
      ghost var leaves' := OneLeaf(width, suffix, value);
      ghost var t := SplitAt(stem, leaves, stem', leaves', width, i);
      var parent := LastNode(stack, targets, slot, t, whole, keep);
      var divergence := new TreeNode(InternalKind, width);
      node.stem := stem[i + 1..];
      var newExtNode, newSuffixTree := NewLeaf(stem'[i + 1..], suffix, value);
      assert forall e :: e in stack ==> e.node != divergence && e.node != newSuffixTree && e.node != newExtNode && e.node != node;
      assert Pending(stack, targets, slot, t, whole, keep, scheme, width);
      PushPending(stack, targets, slot, t, whole, keep, divergence, scheme, width);
      more, goals := stack + [Entry(parent, slot, divergence)], targets + [NodeOf(t, scheme)];
      PushDivergence(more, goals, stem, leaves, stem', leaves', i, whole, keep, node, newExtNode, newSuffixTree, scheme, width);
      more := more + [Entry(divergence, At(stem[i]), node)] + [Entry(divergence, At(stem'[i]), newExtNode)]
        + [Entry(newExtNode, ChildSlot, newSuffixTree)];
      goals := goals + [NodeOf(Stemmed(stem[i + 1..], leaves), scheme)] + [NodeOf(Stemmed(stem'[i + 1..], leaves'), scheme)]
        + [Suffix(leaves')];
    }
  }

  /** What the last entry of a path stands for. */
  lemma PathShape(stack: seq<Entry>, targets: seq<Node>, cur: Tree, stem: Bytes, suffix: nat, value: Bytes, whole: Tree, keep: set<Node>,
                  s: Scheme, width: nat)
    requires OnPath(stack, targets, cur, stem, suffix, value, whole, keep, s, width)
    requires cur.Branch? && |stack| <= |stem| && stem[|stack| - 1] < |cur.children| && cur.children[stem[|stack| - 1]].Some?
    ensures var node, chunk := stack[|stack| - 1].node, stem[|stack| - 1];
      && Shaped(cur.children[chunk].value, width, |stem| - |stack|)
      && chunk < |node.children| && node.children[chunk] == Some(RefOf(cur.children[chunk].value, s))
  {
  }

  /** The next node of the path is put on the stack. */
  lemma PathPushed(stack: seq<Entry>, targets: seq<Node>, cur: Tree, stem: Bytes, suffix: nat, value: Bytes, whole: Tree, keep: set<Node>,
                   child: TreeNode, s: Scheme, width: nat)
    requires OnPath(stack, targets, cur, stem, suffix, value, whole, keep, s, width) && Inner(cur, s) <= keep
    requires cur.Branch? && |stack| <= |stem| && stem[|stack| - 1] < |cur.children| && cur.children[stem[|stack| - 1]].Some?
    requires child.Content() == NodeOf(cur.children[stem[|stack| - 1]].value, s) && |child.children| == width
    requires forall i :: 0 <= i < |stack| ==> stack[i].node != child
    ensures var next := cur.children[stem[|stack| - 1]].value;
      OnPath(stack + [Entry(stack[|stack| - 1].node, At(stem[|stack| - 1]), child)],
             targets + [NodeOf(InsertNext(next, stem, |stack|, suffix, value, width), s)],
             next, stem, suffix, value, whole, keep, s, width)
  {
    hide Covers, Intended, Linked, Patch, Inner, Pending, Standing;
    var depth := |stack| - 1;
    var node, chunk := stack[depth].node, stem[depth];
    var next := cur.children[chunk].value;
    var t, t' := InsertNext(cur, stem, depth, suffix, value, width), InsertNext(next, stem, depth + 1, suffix, value, width);
    assert stem[depth..][1..] == stem[depth + 1..] && stem[depth..][0] == chunk;
    assert t == Branch(cur.children[chunk := Some(t')]);
    BranchPatched(cur, chunk, t', s);
    StandingPending(stack, targets, At(chunk), t, t', whole, keep, s, width);
    PushPending(stack, targets, At(chunk), t', whole, keep, child, s, width);
    var more, goals := stack + [Entry(node, At(chunk), child)], targets + [NodeOf(t', s)];
    assert more[..depth + 1] == stack && goals[..depth + 1] == targets;
  }

  /** A new extension and new leaves in an empty slot complete the stack. */
  lemma SlotFilled(stack: seq<Entry>, targets: seq<Node>, cur: Tree, stem: Bytes, suffix: nat, value: Bytes, whole: Tree, keep: set<Node>,
                   ext: TreeNode, leaf: TreeNode, s: Scheme, width: nat)
    requires OnPath(stack, targets, cur, stem, suffix, value, whole, keep, s, width) && Inner(cur, s) <= keep
    requires cur.Branch? && |stack| <= |stem| && stem[|stack| - 1] < |cur.children| && cur.children[stem[|stack| - 1]].None?
    requires ext.Content() == Extension(stem[|stack|..], None) && |ext.children| == width
    requires leaf.Content() == Suffix(OneLeaf(width, suffix, value)) && |leaf.children| == width && ext != leaf
    requires forall i :: 0 <= i < |stack| ==> stack[i].node != ext && stack[i].node != leaf
    ensures var node, chunk, leaves := stack[|stack| - 1].node, stem[|stack| - 1], OneLeaf(width, suffix, value);
      Complete(stack + [Entry(node, At(chunk), ext)] + [Entry(ext, ChildSlot, leaf)],
               targets + [NodeOf(Stemmed(stem[|stack|..], leaves), s)] + [Suffix(leaves)], whole, keep, s, width)
  {
    hide Covers, Intended, Linked, Patch, Inner, Pending, Standing, Complete;
    var depth := |stack| - 1;
    var node, chunk := stack[depth].node, stem[depth];
    var leaves := OneLeaf(width, suffix, value);
    var t, t' := InsertNext(cur, stem, depth, suffix, value, width), Stemmed(stem[depth + 1..], leaves);
    assert stem[depth..][1..] == stem[depth + 1..] && stem[depth..][0] == chunk;
    assert t == Branch(cur.children[chunk := Some(t')]);
    BranchPatched(cur, chunk, t', s);
    StandingPending(stack, targets, At(chunk), t, t', whole, keep, s, width);
    PushPending(stack, targets, At(chunk), t', whole, keep, ext, s, width);
    PatchStem(ext.Content(), t', s);
    PushLeaves(stack + [Entry(node, At(chunk), ext)], targets + [NodeOf(t', s)], t', whole, keep, leaf, s, width);
  }

  lemma TailsDiffer(a: Bytes, b: Bytes, n: nat)
    requires |a| == |b| && a != b && n <= |a| && forall k :: 0 <= k < n ==> a[k] == b[k]
    requires n < |a| ==> a[n] != b[n]
    ensures n < |a| && forall i :: 0 <= i <= n ==> a[i..] != b[i..]
  {
    forall i | 0 <= i <= n
      ensures a[i..] != b[i..]
    {
      assert a[i..][n - i] != b[i..][n - i];
    }
  }

  /** What is below the first common chunks of two stems. */
  ghost function SplitAt(stem: Bytes, leaves: Children, stem': Bytes, leaves': Children, width: nat, i: nat): Tree
    requires i <= |stem| == |stem'| && stem[i..] != stem'[i..] && InRange(stem, width) && InRange(stem', width)
  {
    Split(stem[i..], leaves, stem'[i..], leaves', width)
  }

  /** The nodes of a stack are different objects. */
  lemma NodesApart(stack: seq<Entry>, targets: seq<Node>, t: Tree, whole: Tree, keep: set<Node>, s: Scheme, width: nat)
    requires Standing(stack, targets, t, whole, keep, s, width)
    ensures forall i :: 0 <= i < |stack| - 1 ==> stack[i].node != stack[|stack| - 1].node
    ensures |stack[|stack| - 1].node.children| == width
  {
  }

  lemma EmptyNode(node: TreeNode, s: Scheme, width: nat)
    requires node.kind.InternalKind? && node.children == NoChildren(width)
    ensures node.Content() == NodeOf(Branch(NoTrees(width)), s) && Inner(Branch(NoTrees(width)), s) == {}
  {
    assert NodeOf(Branch(NoTrees(width)), s).children == NoChildren(width);
  }

  /** Two slots of an empty branch filled, the later entry first. */
  lemma TwoPatches(node: TreeNode, a: nat, ta: Tree, b: nat, tb: Tree, s: Scheme, width: nat)
    requires node.kind.InternalKind? && node.children == NoChildren(width) && a < width && b < width && a != b
    ensures var t := Branch(NoTrees(width)[a := Some(ta)][b := Some(tb)]);
      && Patch(Patch(node.Content(), At(b), RefOf(tb, s)), At(a), RefOf(ta, s)) == NodeOf(t, s)
      && Inner(t, s) == Nodes(ta, s) + Nodes(tb, s)
  {
    var none := Branch(NoTrees(width));
    var one := Branch(NoTrees(width)[b := Some(tb)]);
    var t := Branch(NoTrees(width)[a := Some(ta)][b := Some(tb)]);
    EmptyNode(node, s, width);
    BranchPatched(none, b, tb, s);
    BranchPatched(one, a, ta, s);
    hide Patch, NodeOf, Inner, Nodes;
    assert one.children[a := Some(ta)] == t.children;
    assert t.children[b] == Some(tb);
    ChildNodes(t, s, b);
  }

  lemma PushDivergence(stack: seq<Entry>, targets: seq<Node>, stem: Bytes, leaves: Children, stem': Bytes, leaves': Children, i: nat,
                       whole: Tree, keep: set<Node>, old': TreeNode, ext: TreeNode, leaf: TreeNode, s: Scheme, width: nat)
    requires i < |stem| == |stem'| && stem[i] != stem'[i] && InRange(stem, width) && InRange(stem', width)
    requires Standing(stack, targets, SplitAt(stem, leaves, stem', leaves', width, i), whole, keep, s, width)
    requires Suffix(leaves) in keep
    requires var div := stack[|stack| - 1].node; div.kind.InternalKind? && div.children == NoChildren(width)
    requires old'.kind.ExtensionKind? && old'.Content() == NodeOf(Stemmed(stem[i + 1..], leaves), s) && |old'.children| == width
    requires ext.kind.ExtensionKind? && ext.stem == stem'[i + 1..] && |ext.children| == width
    requires leaf.Content() == Suffix(leaves') && |leaf.children| == width
    requires old' != ext && old' != leaf && ext != leaf
    requires forall k :: 0 <= k < |stack| ==> stack[k].node != old' && stack[k].node != ext && stack[k].node != leaf
    ensures var div := stack[|stack| - 1].node;
      Complete(stack + [Entry(div, At(stem[i]), old')] + [Entry(div, At(stem'[i]), ext)] + [Entry(ext, ChildSlot, leaf)],
               targets + [NodeOf(Stemmed(stem[i + 1..], leaves), s)] + [NodeOf(Stemmed(stem'[i + 1..], leaves'), s)] + [Suffix(leaves')],
               whole, keep, s, width)
  {
    hide Patch, PatchAll, Inner, NodeOf, Covers, IntendedAt, SetOf, LinkedBy;
    NodesApart(stack, targets, SplitAt(stem, leaves, stem', leaves', width, i), whole, keep, s, width);
    var t, ta, tb := SplitAt(stem, leaves, stem', leaves', width, i), Stemmed(stem[i + 1..], leaves), Stemmed(stem'[i + 1..], leaves');
    SplitHere(stem, leaves, stem', leaves', width, i);
    var last, div := |stack| - 1, stack[|stack| - 1].node;
    TwoPatches(div, stem[i], ta, stem'[i], tb, s, width);
    var e1, e2 := Entry(div, At(stem[i]), old'), Entry(div, At(stem'[i]), ext);
    var stack1, targets1 := stack + [e1], targets + [NodeOf(ta, s)];
    PushLinked(stack, e1, last, width);
    PushIntended(stack, targets, last, e1, NodeOf(ta, s), s);
    var stack2, targets2 := stack1 + [e2], targets1 + [NodeOf(tb, s)];
    PushLinked(stack1, e2, last, width);
    PushIntended(stack1, targets1, last, e2, NodeOf(tb, s), s);
    TwoIntended(stack, targets, e1, e2, NodeOf(ta, s), NodeOf(tb, s), s);
    OldIntended(stack1, targets1, e2, NodeOf(tb, s), s);
    PatchStem(ext.Content(), tb, s);
    var e3, last3 := Entry(ext, ChildSlot, leaf), |stack2|;
    PushLinked(stack2, e3, last3 - 1, width);
    assert Intended(stack2, targets2, last3 - 1, s);
    PushParent(stack2, targets2, e3, Suffix(leaves'), s, width);
    LastComplete(stack2 + [e3], targets2 + [Suffix(leaves')], s);
    TreesNoSuffixes(targets, ta, tb, s);
    assert (targets2 + [Suffix(leaves')])[..last3] == targets2;
    DivergenceCovers(targets, keep, whole, t, ta, tb, s);
  }

  lemma TreesNoSuffixes(targets: seq<Node>, ta: Tree, tb: Tree, s: Scheme)
    requires NoSuffixes(targets)
    ensures NoSuffixes(targets + [NodeOf(ta, s)] + [NodeOf(tb, s)])
  {
  }

  /** The branch at which the stems part. */
  lemma SplitHere(stem: Bytes, leaves: Children, stem': Bytes, leaves': Children, width: nat, i: nat)
    requires i < |stem| == |stem'| && stem[i] != stem'[i] && InRange(stem, width) && InRange(stem', width)
    ensures stem[i..] != stem'[i..]
    ensures SplitAt(stem, leaves, stem', leaves', width, i)
      == Branch(NoTrees(width)[stem[i] := Some(Stemmed(stem[i + 1..], leaves))][stem'[i] := Some(Stemmed(stem'[i + 1..], leaves'))])
  {
    assert stem[i..][0] == stem[i] && stem'[i..][0] == stem'[i];
    assert stem[i..][1..] == stem[i + 1..] && stem'[i..][1..] == stem'[i + 1..];
  }

  /** A node that waits for two entries. */
  lemma TwoIntended(stack: seq<Entry>, targets: seq<Node>, e1: Entry, e2: Entry, t1: Node, t2: Node, s: Scheme)
    requires |stack| == |targets| > 0
    requires e1.parent == e2.parent == stack[|stack| - 1].node
    requires Patch(Patch(stack[|stack| - 1].node.Content(), e2.slot, Ref(t2, s)), e1.slot, Ref(t1, s)) == targets[|stack| - 1]
    ensures IntendedAt(stack + [e1] + [e2], targets + [t1] + [t2], |stack| - 1, s)
  {
    hide Patch;
    var last, more, goals := |stack| - 1, stack + [e1] + [e2], targets + [t1] + [t2];
    var c, node := stack[last].node.Content(), stack[last].node;
    assert more[last + 1..] == [e1, e2] && goals[last + 1..] == [t1, t2];
    PatchAllLast(c, node, [e1, e2], [t1, t2], s);
    assert [e1, e2][..1] == [e1] && [t1, t2][..1] == [t1];
    PatchAllLast(Patch(c, e2.slot, Ref(t2, s)), node, [e1], [t1], s);
  }

  /** A complete last entry stays complete when the next belongs to another node. */
  lemma OldIntended(stack: seq<Entry>, targets: seq<Node>, e: Entry, t: Node, s: Scheme)
    requires |stack| == |targets| > 0 && e.parent != stack[|stack| - 1].node
    requires stack[|stack| - 1].node.Content() == targets[|stack| - 1]
    ensures IntendedAt(stack + [e], targets + [t], |stack| - 1, s)
  {
    var last, more, goals := |stack| - 1, stack + [e], targets + [t];
    assert more[last + 1..] == [e] && goals[last + 1..] == [t];
    PatchAllLast(stack[last].node.Content(), stack[last].node, [e], [t], s);
  }

  lemma DivergenceCovers(targets: seq<Node>, keep: set<Node>, whole: Tree, t: Tree, ta: Tree, tb: Tree, s: Scheme)
    requires targets != [] && targets[|targets| - 1] == NodeOf(t, s) && Covers(targets[..|targets| - 1], keep, whole, t, s)
    requires ta.Stemmed? && tb.Stemmed? && Suffix(ta.leaves) in keep
    requires Inner(t, s) == Nodes(ta, s) + Nodes(tb, s)
    ensures var goals := targets + [NodeOf(ta, s)] + [NodeOf(tb, s)] + [Suffix(tb.leaves)];
      Nodes(whole, s) <= keep + SetOf(goals) && SetOf(goals) <= Nodes(whole, s)
  {
    hide NodeOf, Inner, SetOf;
    InnerOfStemmed(ta, s);
    InnerOfStemmed(tb, s);
    var n, na, nb := NodeOf(t, s), NodeOf(ta, s), NodeOf(tb, s);
    SetOfFront(targets);
    SetOfMore(targets, na);
    SetOfMore(targets + [na], nb);
    SetOfMore(targets + [na] + [nb], Suffix(tb.leaves));
    DivergenceSets(Nodes(whole, s), keep, SetOf(targets[..|targets| - 1]), n, na, nb, Suffix(ta.leaves), Suffix(tb.leaves));
  }

  lemma DivergenceSets(whole: set<Node>, keep: set<Node>, front: set<Node>, n: Node, a: Node, b: Node, la: Node, lb: Node)
    requires la in keep
    requires whole <= keep + front + ({n} + (({a} + {la}) + ({b} + {lb})))
    requires front + ({n} + (({a} + {la}) + ({b} + {lb}))) <= whole
    ensures whole <= keep + (front + {n} + {a} + {b} + {lb}) && front + {n} + {a} + {b} + {lb} <= whole
  {
  }

  lemma InnerOfStemmed(t: Tree, s: Scheme)
    requires t.Stemmed?
    ensures Inner(t, s) == {Suffix(t.leaves)}
  {
  }

  lemma SetOfMore(targets: seq<Node>, n: Node)
    ensures SetOf(targets + [n]) == SetOf(targets) + {n}
  {
    SetOfFront(targets + [n]);
    assert (targets + [n])[..|targets|] == targets;
  }

  lemma InsertRepresents(t: Tree, m: map<Bytes, Bytes>, key: Bytes, value: Bytes, width: nat)
    requires GoodWidth(width) && |value| == 32 && |key| == KEY_BYTES
    requires t.Branch? && Shaped(t, width, StemLength(width)) && RepresentsMap(t, m, width)
    ensures var after := InsertInto(t, StemOf(key, width), SuffixOf(key, width), value, width);
      after.Branch? && Shaped(after, width, StemLength(width)) && RepresentsMap(after, m[key := value], width)
  {
    hide InsertInto, Lookup, GoodWidth, Shaped, References;
    InsertShaped(t, StemOf(key, width), SuffixOf(key, width), value, width);
    BranchStays(t, StemOf(key, width), SuffixOf(key, width), value, width);
    var after := InsertInto(t, StemOf(key, width), SuffixOf(key, width), value, width);
    forall k: Bytes | |k| == KEY_BYTES
      ensures Lookup(after, StemOf(k, width), SuffixOf(k, width))
        == if k in m[key := value] then Some(m[key := value][k]) else None
    {
      assert Lookup(t, StemOf(k, width), SuffixOf(k, width)) == if k in m then Some(m[k]) else None;
      InsertLookupKey(t, key, value, k, width);
    }
  }

  /** What a node in memory says about the tree it belongs to. */
  lemma NodeTells(node: TreeNode, t: Tree, s: Scheme)
    requires node.Content() == NodeOf(t, s)
    ensures t.Branch? <==> node.kind.InternalKind?
    ensures t.Branch? ==> |node.children| == |t.children|
    ensures t.Branch? ==> forall i :: 0 <= i < |t.children| ==>
      node.children[i] == if t.children[i].None? then None else Some(Ref(NodeOf(t.children[i].value, s), s))
    ensures t.Stemmed? ==> node.stem == t.stem && node.child == Some(Ref(Suffix(t.leaves), s))
  {
  }

  lemma NothingStored(db: map<Bytes, Bytes>, s: Scheme)
    ensures AllStored(db, {}, s)
  {
  }

  lemma InnerStored(db: map<Bytes, Bytes>, t: Tree, s: Scheme)
    requires AllStored(db, Nodes(t, s), s)
    ensures AllStored(db, Inner(t, s), s)
  {
  }

  lemma InsertLookupKey(t: Tree, key: Bytes, value: Bytes, k: Bytes, width: nat)
    requires GoodWidth(width) && |key| == |k| == KEY_BYTES && Shaped(t, width, StemLength(width))
    ensures Lookup(InsertInto(t, StemOf(key, width), SuffixOf(key, width), value, width), StemOf(k, width), SuffixOf(k, width))
      == if k == key then Some(value) else Lookup(t, StemOf(k, width), SuffixOf(k, width))
  {
    hide InsertInto, Lookup, GoodWidth, Shaped, StemOf, SuffixOf;
    InsertLookup(t, StemOf(key, width), SuffixOf(key, width), value, width, StemOf(k, width), SuffixOf(k, width));
    if StemOf(k, width) == StemOf(key, width) && SuffixOf(k, width) == SuffixOf(key, width) {
      PathsApart(k, key, width);
    }
  }

  /** Two trees with the same contents have the same shape, and so the same root, in
      whatever order the contents were inserted. */
  lemma ContentsDetermineTree(t: Tree, t': Tree, m: map<Bytes, Bytes>, width: nat)
    requires GoodWidth(width) && t.Branch? && t'.Branch?
    requires Shaped(t, width, StemLength(width)) && Tight(t, width, StemLength(width))
    requires Shaped(t', width, StemLength(width)) && Tight(t', width, StemLength(width))
    requires RepresentsMap(t, m, width) && RepresentsMap(t', m, width)
    ensures t == t' && forall s: Scheme :: RefOf(t, s) == RefOf(t', s)
  {
    forall s: seq<nat>, x: nat | |s| == StemLength(width) && x < width
      ensures Lookup(t, s, x) == Lookup(t', s, x)
    {
      if InRange(s, width) {
        var key := KeyFor(s, x, width);
        assert Lookup(t, StemOf(key, width), SuffixOf(key, width)) == if key in m then Some(m[key]) else None;
      } else {
        OutOfRangeLookup(t, width, s, x);
        OutOfRangeLookup(t', width, s, x);
      }
    }
    SameTree(t, t', width, StemLength(width));
  }

  /** Nothing is stored under chunks that no key has. */
  lemma {:induction false} OutOfRangeLookup(t: Tree, width: nat, s: seq<nat>, x: nat)
    requires Shaped(t, width, |s|) && !InRange(s, width)
    ensures Lookup(t, s, x) == None
    decreases t
  {
    if t.Branch? && s[0] < width {
      assert !InRange(s[1..], width) by {
        var i :| 0 <= i < |s| && s[i] >= width;
        assert s[1..][i - 1] >= width;
      }
      if t.children[s[0]].Some? {
        OutOfRangeLookup(t.children[s[0]].value, width, s[1..], x);
      }
    }
  }

  /** An insertion below a branch leaves a branch. */
  lemma BranchStays(t: Tree, stem: Bytes, suffix: nat, value: Bytes, width: nat)
    requires Shaped(t, width, |stem|) && InRange(stem, width) && suffix < width && t.Branch?
    ensures InsertInto(t, stem, suffix, value, width).Branch?
  {
  }

  lemma CompleteNonempty(stack: seq<Entry>, targets: seq<Node>, whole: Tree, keep: set<Node>, s: Scheme, width: nat)
    requires Complete(stack, targets, whole, keep, s, width)
    ensures stack != []
  {
  }

  /** The stem at the end of a path. */
  lemma PathStem(stack: seq<Entry>, targets: seq<Node>, cur: Tree, stem: Bytes, suffix: nat, value: Bytes,
                 whole: Tree, keep: set<Node>, s: Scheme, width: nat)
    requires OnPath(stack, targets, cur, stem, suffix, value, whole, keep, s, width)
    ensures cur.Stemmed? ==> stack[|stack| - 1].node.stem == cur.stem && InRange(cur.stem, width)
  {
    hide Covers, Intended, Pending, PatchAll;
  }

  lemma PatchStem(c: Node, t: Tree, s: Scheme)
    requires t.Stemmed? && c.Extension? && c.stem == t.stem
    ensures Patch(c, ChildSlot, Ref(Suffix(t.leaves), s)) == NodeOf(t, s)
  {
  }

  lemma PushLeaves(stack: seq<Entry>, targets: seq<Node>, t: Tree, whole: Tree, keep: set<Node>, node: TreeNode,
                   s: Scheme, width: nat)
    requires Standing(stack, targets, t, whole, keep, s, width) && t.Stemmed?
    requires stack[|stack| - 1].node.kind.ExtensionKind?
    requires Patch(stack[|stack| - 1].node.Content(), ChildSlot, Ref(Suffix(t.leaves), s)) == NodeOf(t, s)
    requires node.Content() == Suffix(t.leaves) && |node.children| == width
    requires forall i :: 0 <= i < |stack| ==> stack[i].node != node
    ensures Complete(stack + [Entry(stack[|stack| - 1].node, ChildSlot, node)], targets + [Suffix(t.leaves)], whole, keep, s, width)
  {
    var e, leaf := Entry(stack[|stack| - 1].node, ChildSlot, node), Suffix(t.leaves);
    PushLinked(stack, e, |stack| - 1, width);
    PushParent(stack, targets, e, leaf, s, width);
    LastComplete(stack + [e], targets + [leaf], s);
    assert Inner(t, s) == {leaf};
    SetOfFront(targets);
    SetOfFront(targets + [leaf]);
    assert (targets + [leaf])[..|targets|] == targets;
  }

  /** A last entry that already is what it should be. */
  lemma LastComplete(stack: seq<Entry>, targets: seq<Node>, s: Scheme)
    requires |stack| == |targets| > 0 && Intended(stack, targets, |stack| - 1, s)
    requires stack[|stack| - 1].node.Content() == targets[|stack| - 1]
    ensures Intended(stack, targets, |stack|, s)
  {
    var last := |stack| - 1;
    assert stack[last + 1..] == [] && targets[last + 1..] == [];
    assert IntendedAt(stack, targets, last, s);
  }

  /** The subtree after the insertion below the first chunks of the stem. */
  ghost function InsertNext(t: Tree, stem: Bytes, depth: nat, suffix: nat, value: Bytes, width: nat): Tree
    requires depth <= |stem| && Shaped(t, width, |stem| - depth) && InRange(stem, width) && suffix < width
  {
    InsertInto(t, stem[depth..], suffix, value, width)
  }

  /** The stack follows the stem and ends at the node of cur. */
  ghost predicate OnPath(stack: seq<Entry>, targets: seq<Node>, cur: Tree, stem: Bytes, suffix: nat, value: Bytes,
                         whole: Tree, keep: set<Node>, s: Scheme, width: nat)
    reads set e | e in stack :: e.node
  {
    && 0 < |stack| <= |stem| + 1 && InRange(stem, width) && suffix < width
    && Shaped(cur, width, |stem| + 1 - |stack|) && |stack| == |targets|
    && stack[|stack| - 1].node.Content() == NodeOf(cur, s)
    && var t := InsertNext(cur, stem, |stack| - 1, suffix, value, width);
    && Standing(stack, targets, t, whole, keep, s, width)
    && (|stack| > 1 ==>
      && stack[|stack| - 1].parent == stack[|stack| - 2].node
      && Pending(stack[..|stack| - 1], targets[..|stack| - 1], stack[|stack| - 1].slot, t, whole, keep, s, width))
  }

  lemma FirstOnPath(stack: seq<Entry>, targets: seq<Node>, t: Tree, stem: Bytes, suffix: nat, value: Bytes,
                    whole: Tree, keep: set<Node>, s: Scheme, width: nat)
    requires Shaped(t, width, |stem|) && InRange(stem, width) && suffix < width
    requires |stack| == 1 && stack[0].parent == null && |stack[0].node.children| == width
    requires stack[0].node.Content() == NodeOf(t, s)
    requires whole == InsertInto(t, stem, suffix, value, width) && targets == [NodeOf(whole, s)]
    ensures OnPath(stack, targets, t, stem, suffix, value, whole, keep, s, width)
  {
    assert stem[0..] == stem;
    FirstStanding(stack, targets, whole, keep, s, width);
  }

  /** What the node at the end of the stack tells about the tree. */
  ghost predicate PathKindOf(stack: seq<Entry>, cur: Tree, stem: Bytes, s: Scheme, width: nat)
    reads set e | e in stack :: e.node
  {
    && 0 < |stack| <= |stem| + 1 && |stack[|stack| - 1].node.children| == width
    && (cur.Branch? <==> stack[|stack| - 1].node.kind.InternalKind?)
    && (cur.Branch? ==>
      && |stack| <= |stem| && stem[|stack| - 1] < width == |cur.children|
      && (cur.children[stem[|stack| - 1]].Some? <==> stack[|stack| - 1].node.children[stem[|stack| - 1]].Some?))
  }

  lemma PathKind(stack: seq<Entry>, targets: seq<Node>, cur: Tree, stem: Bytes, suffix: nat, value: Bytes,
                 whole: Tree, keep: set<Node>, s: Scheme, width: nat)
    requires OnPath(stack, targets, cur, stem, suffix, value, whole, keep, s, width)
    ensures PathKindOf(stack, cur, stem, s, width)
  {
    hide Covers, Intended, Pending, PatchAll;
  }

  lemma FirstStanding(stack: seq<Entry>, targets: seq<Node>, whole: Tree, keep: set<Node>, s: Scheme, width: nat)
    requires |stack| == 1 && stack[0].parent == null && |stack[0].node.children| == width
    requires targets == [NodeOf(whole, s)]
    ensures Standing(stack, targets, whole, whole, keep, s, width)
  {
    assert targets[..0] == [];
  }

  lemma ChildWidth(t: Tree, s: Scheme, width: nat, m: nat, node: TreeNode)
    requires Shaped(t, width, m) && node.Content() == NodeOf(t, s)
    requires var n := node.Content();
      |node.children| == if n.Internal? then |n.children| else if n.Suffix? then |n.values| else width
    ensures |node.children| == width
  {
  }

  /** What is still on the stack becomes what is intended by linking what is above it. */
  ghost predicate InProgress(stack: seq<Entry>, targets: seq<Node>, s: Scheme, width: nat)
    reads set e | e in stack :: e.node
  {
    |stack| == |targets| && Linked(stack, width) && Intended(stack, targets, |stack|, s)
  }

  lemma PoppedProgress(stack: seq<Entry>, targets: seq<Node>, before: seq<Node>, s: Scheme, width: nat)
    requires |stack| == |targets| == |before| > 0 && Linked(stack, width)
    requires forall i :: 0 <= i < |stack| ==>
      PatchAll(before[i], stack[i].node, stack[i + 1..], targets[i + 1..], s) == targets[i]
    requires forall i :: 0 <= i < |stack| - 1 ==>
      stack[i].node.Content() == PatchedBy(before[i], stack, i, Ref(targets[|targets| - 1], s))
    ensures InProgress(stack[..|stack| - 1], targets[..|stack| - 1], s, width)
  {
    PoppedLinked(stack, width);
    PoppedIntended(stack, targets, before, s);
  }

  lemma SetOfFront(targets: seq<Node>)
    requires targets != []
    ensures SetOf(targets) == SetOf(targets[..|targets| - 1]) + {targets[|targets| - 1]}
  {
    assert targets == targets[..|targets| - 1] + [targets[|targets| - 1]];
  }

  /** parent.child = value, or parent.children[slot] = value */
  method LinkNode(stack: seq<Entry>, value: Bytes, ghost width: nat)
    requires |stack| > 1 && Linked(stack, width)
    modifies set e | e in stack[..|stack| - 1] :: e.node
    ensures forall i :: 0 <= i < |stack| - 1 ==> stack[i].node.Content() == PatchedBy(old(stack[i].node.Content()), stack, i, value)
    ensures Linked(stack, width)
    ensures stack[|stack| - 1].node.value == old(stack[|stack| - 1].node.value)
  {
    hide LinkedBy;
    var e := stack[|stack| - 1];
    ghost var kinds := Kinds(stack);
    ghost var j := ParentAt(stack, kinds, width);
    assert stack[j] in stack[..|stack| - 1];
    if e.slot.ChildSlot? {
      e.parent.child := Some(value);
    } else {
      e.parent.children := e.parent.children[e.slot.index := Some(value)];
    }
    assert Kinds(stack) == kinds;
  }

  /** The entry that the last one belongs to. */
  lemma ParentAt(stack: seq<Entry>, kinds: seq<Kind>, width: nat) returns (j: nat)
    requires |stack| > 1 && LinkedBy(stack, kinds, width)
    ensures j < |stack| - 1 && stack[|stack| - 1].parent == stack[j].node && SlotFits(kinds[j], width, stack[|stack| - 1].slot)
    ensures forall i :: 0 <= i < |stack| && i != j ==> stack[i].node != stack[j].node
  {
    var e := stack[|stack| - 1];
    assert HasParent(stack, kinds, |stack| - 1, width);
    j :| 0 <= j < |stack| - 1 && e.parent == stack[j].node && SlotFits(kinds[j], width, e.slot);
  }

  /** Only the parent of the last entry changes, and only in one slot. */
  ghost function PatchedBy(before: Node, stack: seq<Entry>, i: nat, value: Bytes): Node
    requires i < |stack|
  {
    var last := stack[|stack| - 1];
    if last.parent == stack[i].node then Patch(before, last.slot, value) else before
  }

  ghost function Contents(stack: seq<Entry>): (r: seq<Node>)
    reads set e | e in stack :: e.node
    ensures |r| == |stack| && forall i :: 0 <= i < |stack| ==> r[i] == stack[i].node.Content()
  {
    if stack == [] then [] else Contents(stack[..|stack| - 1]) + [stack[|stack| - 1].node.Content()]
  }

  lemma BeforeIntended(stack: seq<Entry>, targets: seq<Node>, s: Scheme)
    requires |stack| == |targets| > 0 && Intended(stack, targets, |stack|, s)
    ensures forall i :: 0 <= i < |stack| ==>
      PatchAll(Contents(stack)[i], stack[i].node, stack[i + 1..], targets[i + 1..], s) == targets[i]
  {
    forall i | 0 <= i < |stack|
      ensures PatchAll(Contents(stack)[i], stack[i].node, stack[i + 1..], targets[i + 1..], s) == targets[i]
    {
      assert IntendedAt(stack, targets, i, s);
    }
  }

  lemma LastIntended(stack: seq<Entry>, targets: seq<Node>, s: Scheme)
    requires |stack| == |targets| > 0 && Intended(stack, targets, |stack|, s)
    ensures stack[|stack| - 1].node.Content() == targets[|stack| - 1]
  {
    assert IntendedAt(stack, targets, |stack| - 1, s);
  }

  lemma PoppedLinked(stack: seq<Entry>, width: nat)
    requires Linked(stack, width) && stack != []
    ensures Linked(stack[..|stack| - 1], width)
  {
    var rest, kinds := stack[..|stack| - 1], Kinds(stack);
    assert Kinds(rest) == kinds[..|rest|];
    forall i | 0 < i < |rest|
      ensures HasParent(rest, Kinds(rest), i, width)
    {
      assert HasParent(stack, kinds, i, width);
      var j :| 0 <= j < i && stack[i].parent == stack[j].node && SlotFits(kinds[j], width, stack[i].slot);
      assert rest[i].parent == rest[j].node;
    }
  }

  lemma PatchAllLast(c: Node, node: TreeNode, entries: seq<Entry>, targets: seq<Node>, s: Scheme)
    requires |entries| == |targets| > 0
    ensures var last := |entries| - 1;
      PatchAll(c, node, entries, targets, s)
      == PatchAll(if entries[last].parent == node then Patch(c, entries[last].slot, Ref(targets[last], s)) else c,
                  node, entries[..last], targets[..last], s)
  {
  }

  /** Linking the last entry has done the first of the patches that the others wait for. */
  lemma PoppedIntended(stack: seq<Entry>, targets: seq<Node>, before: seq<Node>, s: Scheme)
    requires |stack| == |targets| == |before| > 0
    requires forall i :: 0 <= i < |stack| - 1 ==>
      PatchAll(before[i], stack[i].node, stack[i + 1..], targets[i + 1..], s) == targets[i]
    requires forall i :: 0 <= i < |stack| - 1 ==>
      stack[i].node.Content() == PatchedBy(before[i], stack, i, Ref(targets[|targets| - 1], s))
    ensures Intended(stack[..|stack| - 1], targets[..|stack| - 1], |stack| - 1, s)
  {
    hide PatchAll, Patch;
    var last := |stack| - 1;
    var rest, goals := stack[..last], targets[..last];
    forall i | 0 <= i < last
      ensures IntendedAt(rest, goals, i, s)
    {
      PatchAllLast(before[i], stack[i].node, stack[i + 1..], targets[i + 1..], s);
      assert stack[i + 1..][..last - i - 1] == rest[i + 1..] && targets[i + 1..][..last - i - 1] == goals[i + 1..];
    }
  }

  // ----- growing the stack

  /** The leaves are the last to be pushed. */
  ghost predicate NoSuffixes(targets: seq<Node>) {
    forall i :: 0 <= i < |targets| ==> !targets[i].Suffix?
  }

  /** Only the leaves of one stem. */
  ghost predicate OneSuffix(nodes: set<Node>) {
    forall a, b :: a in nodes && b in nodes && a.Suffix? && b.Suffix? ==> a == b
  }

  lemma CompleteSuffix(stack: seq<Entry>, targets: seq<Node>, whole: Tree, keep: set<Node>, s: Scheme, width: nat)
    requires Complete(stack, targets, whole, keep, s, width)
    ensures OneSuffix(SetOf(targets))
  {
    var last := |targets| - 1;
    forall i | 0 <= i < last
      ensures !targets[i].Suffix?
    {
      assert targets[..last][i] == targets[i];
    }
  }

  lemma SafeSubset(db: map<Bytes, Bytes>, keep: set<Node>, written: set<Node>, s: Scheme)
    requires AllStored(db, keep, s)
    ensures AllStored(db, Safe(keep, written, s), s)
  {
  }

  /** Without shared references all nodes are safe. */
  lemma AllSafe(nodes: set<Node>, keep: set<Node>, written: set<Node>, s: Scheme)
    requires CollisionFree(nodes, s) && written <= nodes <= keep + written
    ensures nodes <= Safe(keep + written, written, s)
  {
  }

  /** Together with what was stored before, the listed nodes and those of t make up the tree. */
  ghost predicate Covers(targets: seq<Node>, keep: set<Node>, whole: Tree, t: Tree, s: Scheme) {
    && Nodes(whole, s) <= keep + SetOf(targets) + Nodes(t, s)
    && SetOf(targets) + Nodes(t, s) <= Nodes(whole, s)
  }

  /** The stack lacks one entry that will become t, in a slot of its last node. */
  ghost predicate Pending(stack: seq<Entry>, targets: seq<Node>, slot: Slot, t: Tree, whole: Tree, keep: set<Node>,
                          s: Scheme, width: nat)
    reads set e | e in stack :: e.node
  {
    && |stack| == |targets| > 0
    && Linked(stack, width) && Intended(stack, targets, |stack| - 1, s)
    && SlotFits(stack[|stack| - 1].node.kind, width, slot)
    && Patch(stack[|stack| - 1].node.Content(), slot, RefOf(t, s)) == targets[|stack| - 1]
    && targets[0] == NodeOf(whole, s) && Covers(targets, keep, whole, t, s)
    && NoSuffixes(targets)
  }

  /** The stack is complete but for what is below its last node, which will become t. */
  ghost predicate Standing(stack: seq<Entry>, targets: seq<Node>, t: Tree, whole: Tree, keep: set<Node>, s: Scheme, width: nat)
    reads set e | e in stack :: e.node
  {
    && |stack| == |targets| > 0
    && Linked(stack, width) && Intended(stack, targets, |stack| - 1, s)
    && targets[0] == NodeOf(whole, s) && targets[|stack| - 1] == NodeOf(t, s)
    && Covers(targets[..|stack| - 1], keep, whole, t, s)
    && NoSuffixes(targets)
  }

  /** Nothing is missing. */
  ghost predicate Complete(stack: seq<Entry>, targets: seq<Node>, whole: Tree, keep: set<Node>, s: Scheme, width: nat)
    reads set e | e in stack :: e.node
  {
    && |stack| == |targets| > 0
    && Linked(stack, width) && Intended(stack, targets, |stack|, s)
    && targets[0] == NodeOf(whole, s)
    && Nodes(whole, s) <= keep + SetOf(targets) && SetOf(targets) <= Nodes(whole, s)
    && NoSuffixes(targets[..|stack| - 1])
  }

  lemma PushLinked(stack: seq<Entry>, e: Entry, j: nat, width: nat)
    requires Linked(stack, width) && j < |stack| && e.parent == stack[j].node
    requires SlotFits(stack[j].node.kind, width, e.slot) && |e.node.children| == width
    requires forall i :: 0 <= i < |stack| ==> stack[i].node != e.node
    ensures Linked(stack + [e], width)
  {
    var more, kinds := stack + [e], Kinds(stack);
    assert more[..|stack|] == stack;
    forall i | 0 < i < |more|
      ensures HasParent(more, Kinds(more), i, width)
    {
      if i < |stack| {
        assert HasParent(stack, kinds, i, width);
        var k :| 0 <= k < i && stack[i].parent == stack[k].node && SlotFits(kinds[k], width, stack[i].slot);
        assert more[i].parent == more[k].node;
      } else {
        assert more[i].parent == more[j].node;
      }
    }
  }

  /** An entry that belongs to none of the first k nodes does not concern them. */
  lemma PushIntended(stack: seq<Entry>, targets: seq<Node>, k: nat, e: Entry, t: Node, s: Scheme)
    requires |stack| == |targets| && k <= |stack| && Intended(stack, targets, k, s)
    requires forall i :: 0 <= i < k ==> e.parent != stack[i].node
    ensures Intended(stack + [e], targets + [t], k, s)
  {
    hide PatchAll, Patch;
    var more, goals := stack + [e], targets + [t];
    forall i | 0 <= i < k
      ensures IntendedAt(more, goals, i, s)
    {
      assert IntendedAt(stack, targets, i, s);
      assert more[i + 1..] == stack[i + 1..] + [e] && goals[i + 1..] == targets[i + 1..] + [t];
      PatchAllLast(more[i].node.Content(), more[i].node, more[i + 1..], goals[i + 1..], s);
      assert more[i + 1..][..|stack| - i - 1] == stack[i + 1..] && goals[i + 1..][..|stack| - i - 1] == targets[i + 1..];
    }
  }

  /** A new last entry is all that its parent, the last before it, was waiting for. */
  lemma PushParent(stack: seq<Entry>, targets: seq<Node>, e: Entry, t: Node, s: Scheme, width: nat)
    requires |stack| == |targets| > 0 && Linked(stack, width) && Intended(stack, targets, |stack| - 1, s)
    requires e.parent == stack[|stack| - 1].node
    requires Patch(stack[|stack| - 1].node.Content(), e.slot, Ref(t, s)) == targets[|stack| - 1]
    ensures Intended(stack + [e], targets + [t], |stack|, s)
  {
    var last, more, goals := |stack| - 1, stack + [e], targets + [t];
    PushIntended(stack, targets, last, e, t, s);
    assert more[last + 1..] == [e] && goals[last + 1..] == [t];
    PatchAllLast(more[last].node.Content(), more[last].node, [e], [t], s);
    assert IntendedAt(more, goals, last, s);
  }

  lemma CoversPushed(targets: seq<Node>, keep: set<Node>, whole: Tree, t: Tree, s: Scheme)
    requires Covers(targets, keep, whole, t, s)
    ensures (targets + [NodeOf(t, s)])[..|targets|] == targets
  {
  }

  lemma PushPending(stack: seq<Entry>, targets: seq<Node>, slot: Slot, t: Tree, whole: Tree, keep: set<Node>,
                    node: TreeNode, s: Scheme, width: nat)
    requires Pending(stack, targets, slot, t, whole, keep, s, width) && |node.children| == width
    requires forall i :: 0 <= i < |stack| ==> stack[i].node != node
    ensures Standing(stack + [Entry(stack[|stack| - 1].node, slot, node)], targets + [NodeOf(t, s)], t, whole, keep, s, width)
  {
    hide Patch, SlotFits, Covers;
    var e := Entry(stack[|stack| - 1].node, slot, node);
    PushLinked(stack, e, |stack| - 1, width);
    PushParent(stack, targets, e, NodeOf(t, s), s, width);
    CoversPushed(targets, keep, whole, t, s);
  }

  /** The nodes of a tree whose only new part is one subtree. */
  lemma CoverStep(targets: seq<Node>, keep: set<Node>, whole: Tree, t: Tree, t': Tree, s: Scheme)
    requires Covers(targets, keep, whole, t, s)
    requires Inner(t, s) <= keep + Nodes(t', s) && Nodes(t', s) <= Inner(t, s)
    ensures Covers(targets + [NodeOf(t, s)], keep, whole, t', s)
  {
    var more := targets + [NodeOf(t, s)];
    assert more[..|more| - 1] == targets;
    SetOfFront(more);
  }

  lemma StandingPending(stack: seq<Entry>, targets: seq<Node>, slot: Slot, t: Tree, t': Tree, whole: Tree, keep: set<Node>,
                        s: Scheme, width: nat)
    requires Standing(stack, targets, t, whole, keep, s, width)
    requires SlotFits(stack[|stack| - 1].node.kind, width, slot)
    requires Patch(stack[|stack| - 1].node.Content(), slot, RefOf(t', s)) == NodeOf(t, s)
    requires Inner(t, s) <= keep + Nodes(t', s) && Nodes(t', s) <= Inner(t, s)
    ensures Pending(stack, targets, slot, t', whole, keep, s, width)
  {
    hide Covers, Linked, Intended, Patch, NodeOf, Inner, Nodes;
    CoverStep(targets[..|stack| - 1], keep, whole, t, t', s);
    assert targets == targets[..|stack| - 1] + [NodeOf(t, s)];
  }

  // ----- references along a path

  /** A branch with one child replaced. */
  lemma BranchPatched(t: Tree, c: nat, t': Tree, s: Scheme)
    requires t.Branch? && c < |t.children|
    ensures var after := Branch(t.children[c := Some(t')]);
      && Patch(NodeOf(t, s), At(c), RefOf(t', s)) == NodeOf(after, s)
      && Inner(after, s) <= Inner(t, s) + Nodes(t', s) && Nodes(t', s) <= Inner(after, s)
  {
    var after := Branch(t.children[c := Some(t')]);
    var patched := Patch(NodeOf(t, s), At(c), RefOf(t', s));
    assert patched.children == NodeOf(after, s).children;
    assert after.children[c] == Some(t');
    ChildNodes(after, s, c);
    forall n | n in Inner(after, s)
      ensures n in Inner(t, s) + Nodes(t', s)
    {
      var i := InnerOfBranch(after, s, n);
      if i != c {
        ChildNodes(t, s, i);
      }
    }
  }

  /** The nodes of a subtree that is in the store. */
  lemma ChildStored(t: Tree, c: nat, db: map<Bytes, Bytes>, s: Scheme)
    requires t.Branch? && c < |t.children| && t.children[c].Some? && AllStored(db, Inner(t, s), s)
    ensures IsStored(db, NodeOf(t.children[c].value, s), s) && AllStored(db, Inner(t.children[c].value, s), s)
    ensures Inner(t.children[c].value, s) <= Inner(t, s)
  {
    ChildNodes(t, s, c);
  }
}
