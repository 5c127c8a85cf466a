/** What a Verkle tree stands for, independent of its storage: the shape that insert in
    tree/verkle_tree.py builds and the values that get finds in it. */
module VerkleShape {
  import opened Wrappers
  import opened ByteStrings
  import opened NodeSerialization

  ghost function NoChildren(width: nat): (r: Children)
    ensures |r| == width && forall i :: 0 <= i < width ==> r[i] == None
  {
    seq(width, _ => None)
  }

  /** A branch at a chunk, or the rest of a stem with the values below it. */
  datatype Tree =
    | Branch(children: seq<Option<Tree>>)
    | Stemmed(stem: Bytes, leaves: Children)

  ghost function NoTrees(width: nat): (r: seq<Option<Tree>>)
    ensures |r| == width && forall i :: 0 <= i < width ==> r[i] == None
  {
    seq(width, _ => None)
  }

  ghost predicate InRange(chunks: seq<nat>, width: nat) {
    forall i :: 0 <= i < |chunks| ==> chunks[i] < width
  }

  /** m chunks of the stem are still to be used. */
  ghost predicate Shaped(t: Tree, width: nat, m: nat) {
    match t
    case Branch(children) =>
      && m > 0 && |children| == width
      && forall i :: 0 <= i < width && children[i].Some? ==> Shaped(children[i].value, width, m - 1)
    case Stemmed(stem, leaves) =>
      |stem| == m && InRange(stem, width) && |leaves| == width && References(leaves)
  }

  // ----- values

  ghost function Lookup(t: Tree, stem: seq<nat>, suffix: nat): Option<Bytes> {
    match t
    case Branch(children) =>
      if stem == [] || stem[0] >= |children| || children[stem[0]].None? then None
      else Lookup(children[stem[0]].value, stem[1..], suffix)
    case Stemmed(stem', leaves) =>
      if stem == stem' && suffix < |leaves| then leaves[suffix] else None
  }

  ghost function OneLeaf(width: nat, suffix: nat, value: Bytes): (r: Children)
    requires suffix < width
    ensures |r| == width && (|value| == 32 ==> References(r))
    ensures forall i :: 0 <= i < width ==> r[i] == if i == suffix then Some(value) else None
  {
    NoChildren(width)[suffix := Some(value)]
  }

  /** Two different stems under as many branches as they have chunks in common. */
  ghost function Split(stem: Bytes, leaves: Children, stem': Bytes, leaves': Children, width: nat): Tree
    requires |stem| == |stem'| && stem != stem' && InRange(stem, width) && InRange(stem', width)
    decreases |stem|
  {
    if stem[0] == stem'[0] then
      Branch(NoTrees(width)[stem[0] := Some(Split(stem[1..], leaves, stem'[1..], leaves', width))])
    else
      Branch(NoTrees(width)[stem[0] := Some(Stemmed(stem[1..], leaves))][stem'[0] := Some(Stemmed(stem'[1..], leaves'))])
  }

  ghost function InsertInto(t: Tree, stem: Bytes, suffix: nat, value: Bytes, width: nat): Tree
    requires Shaped(t, width, |stem|) && InRange(stem, width) && suffix < width
    decreases t
  {
    match t
    case Branch(children) =>
      var c := stem[0];
      if children[c].None? then Branch(children[c := Some(Stemmed(stem[1..], OneLeaf(width, suffix, value)))])
      else Branch(children[c := Some(InsertInto(children[c].value, stem[1..], suffix, value, width))])
    case Stemmed(stem', leaves) =>
      if stem' == stem then Stemmed(stem', leaves[suffix := Some(value)])
      else Split(stem', leaves, stem, OneLeaf(width, suffix, value), width)
  }

  lemma {:induction false} SplitShaped(stem: Bytes, leaves: Children, stem': Bytes, leaves': Children, width: nat)
    requires |stem| == |stem'| && stem != stem' && InRange(stem, width) && InRange(stem', width)
    requires |leaves| == |leaves'| == width && References(leaves) && References(leaves')
    ensures Shaped(Split(stem, leaves, stem', leaves', width), width, |stem|)
    decreases |stem|
  {
    if stem[0] == stem'[0] {
      SplitShaped(stem[1..], leaves, stem'[1..], leaves', width);
    }
  }

  lemma {:induction false} InsertShaped(t: Tree, stem: Bytes, suffix: nat, value: Bytes, width: nat)
    requires Shaped(t, width, |stem|) && InRange(stem, width) && suffix < width && |value| == 32
    ensures Shaped(InsertInto(t, stem, suffix, value, width), width, |stem|)
    decreases t
  {
    match t
    case Branch(children) =>
      if children[stem[0]].Some? {
        InsertShaped(children[stem[0]].value, stem[1..], suffix, value, width);
      }
    case Stemmed(stem', leaves) =>
      if stem' != stem {
        SplitShaped(stem', leaves, stem, OneLeaf(width, suffix, value), width);
      }
  }

  lemma TailsEqual(a: seq<nat>, b: seq<nat>)
    requires a != [] && b != [] && a[0] == b[0]
    ensures a == b <==> a[1..] == b[1..]
  {
    assert a == [a[0]] + a[1..] && b == [b[0]] + b[1..];
  }

  lemma {:induction false} SplitLookup(stem: Bytes, leaves: Children, stem': Bytes, leaves': Children, width: nat,
                                       s: seq<nat>, suffix: nat)
    requires |stem| == |stem'| == |s| && stem != stem' && InRange(stem, width) && InRange(stem', width)
    ensures Lookup(Split(stem, leaves, stem', leaves', width), s, suffix)
      == if s == stem then Lookup(Stemmed(stem, leaves), s, suffix) else Lookup(Stemmed(stem', leaves'), s, suffix)
    decreases |stem|
  {
    if s[0] == stem[0] {
      TailsEqual(s, stem);
    }
    if s[0] == stem'[0] {
      TailsEqual(s, stem');
    }
    if stem[0] == stem'[0] && s[0] == stem[0] {
      SplitLookup(stem[1..], leaves, stem'[1..], leaves', width, s[1..], suffix);
    }
  }

  /** Inserting sets one value and keeps all others. */
  lemma {:induction false} InsertLookup(t: Tree, stem: Bytes, suffix: nat, value: Bytes, width: nat, s: seq<nat>, x: nat)
    requires Shaped(t, width, |stem|) && InRange(stem, width) && suffix < width && |s| == |stem| && x < width
    ensures Lookup(InsertInto(t, stem, suffix, value, width), s, x)
      == if s == stem && x == suffix then Some(value) else Lookup(t, s, x)
    decreases t
  {
    match t
    case Branch(children) =>
      if s[0] == stem[0] {
        TailsEqual(s, stem);
        if children[stem[0]].Some? {
          InsertLookup(children[stem[0]].value, stem[1..], suffix, value, width, s[1..], x);
        }
      }
    case Stemmed(stem', leaves) =>
      if stem' != stem {
        SplitLookup(stem', leaves, stem, OneLeaf(width, suffix, value), width, s, x);
      }
  }

  lemma EmptyLookup(width: nat, s: seq<nat>, x: nat)
    ensures Lookup(Branch(NoTrees(width)), s, x) == None
  {
  }

  // ----- nodes and their references

  /** How nodes are committed to, and how commitments are turned into references. */
  datatype Scheme = Scheme(commit: Node -> Point, hash: Point -> Bytes)

  ghost predicate GoodScheme(s: Scheme) {
    forall n: Node :: SizedPoint(s.commit(n)) && |s.hash(s.commit(n))| == 32
  }

  function Ref(n: Node, s: Scheme): Bytes {
    s.hash(s.commit(n))
  }

  ghost function NodeOf(t: Tree, s: Scheme): Node {
    match t
    case Branch(children) =>
      Internal(seq(|children|, i requires 0 <= i < |children| =>
        if children[i].None? then None else Some(Ref(NodeOf(children[i].value, s), s))))
    case Stemmed(stem, leaves) => Extension(stem, Some(Ref(Suffix(leaves), s)))
  }

  ghost function RefOf(t: Tree, s: Scheme): Bytes {
    Ref(NodeOf(t, s), s)
  }

  /** All nodes of a tree but its top. */
  ghost function Inner(t: Tree, s: Scheme): set<Node> {
    match t
    case Branch(children) =>
      set i, n | 0 <= i < |children| && children[i].Some? && n in {NodeOf(children[i].value, s)} + Inner(children[i].value, s) :: n
    case Stemmed(stem, leaves) => {Suffix(leaves)}
  }

  ghost function Nodes(t: Tree, s: Scheme): set<Node> {
    {NodeOf(t, s)} + Inner(t, s)
  }

  lemma ChildNodes(t: Tree, s: Scheme, i: nat)
    requires t.Branch? && i < |t.children| && t.children[i].Some?
    ensures Nodes(t.children[i].value, s) <= Inner(t, s)
  {
    forall n | n in Nodes(t.children[i].value, s)
      ensures n in Inner(t, s)
    {
    }
  }

  lemma InnerOfBranch(t: Tree, s: Scheme, n: Node) returns (i: nat)
    requires t.Branch? && n in Inner(t, s)
    ensures i < |t.children| && t.children[i].Some? && n in Nodes(t.children[i].value, s)
  {
    i :| 0 <= i < |t.children| && t.children[i].Some?
      && n in {NodeOf(t.children[i].value, s)} + Inner(t.children[i].value, s);
  }

  /** Every node of a shaped tree can be serialised. */
  lemma {:induction false} NodesSized(t: Tree, s: Scheme, width: nat, m: nat, n: Node)
    requires GoodScheme(s) && Shaped(t, width, m) && width <= 256 && m < 256 && n in Nodes(t, s)
    ensures SizedNode(n)
    decreases t
  {
    match t
    case Branch(children) =>
      if n in Inner(t, s) {
        var i := InnerOfBranch(t, s, n);
        NodesSized(children[i].value, s, width, m - 1, n);
      }
    case Stemmed(stem, leaves) =>
  }

  /** No two of the nodes have the same reference. */
  ghost predicate CollisionFree(nodes: set<Node>, s: Scheme) {
    forall a, b :: a in nodes && b in nodes && Ref(a, s) == Ref(b, s) ==> a == b
  }
}
