/** Nodes of the Verkle tree that share an entry of the store.  The commitments of
    tree/verkle_tree.py are to numbers: an absent child counts as zero, a value counts modulo
    the order of the curve, a stem is read as one number, and the type of a node counts only
    for extensions. */
module SharedEntries {
  import opened Wrappers
  import opened Field
  import opened ByteStrings
  import opened NodeSerialization
  import opened KeyChunks
  import opened VerkleShape
  import opened VerkleCanonical
  import opened VerkleTree

  // ----- what a commitment is to

  function NumberOf(child: Option<Bytes>): nat {
    if child.None? then 0 else FromBytes(child.value)
  }

  /** The values of a node, up to the width. */
  function Numbers(n: Node, width: nat): (r: seq<nat>)
    requires width >= 4
    ensures |r| == width
  {
    match n
    case Internal(children) => seq(width, i requires 0 <= i < width => if i < |children| then NumberOf(children[i]) else 0)
    case Suffix(values) => seq(width, i requires 0 <= i < width => if i < |values| then NumberOf(values[i]) else 0)
    case Extension(stem, child) => [1, FromBytes(stem), NumberOf(child), 0] + seq(width - 4, _ => 0)
  }

  /** The values that are committed to: those of all slots, with zero for an empty one, and for an extension one, the
      stem, the reference of its leaves, and zeros. */
  lemma CommittedNumbers(n: Node, width: nat)
    requires width >= 4
    ensures n.Internal? && |n.children| == width ==> forall i :: 0 <= i < width ==>
      Numbers(n, width)[i] == if n.children[i].None? then 0 else FromBytes(n.children[i].value)
    ensures n.Suffix? && |n.values| == width ==> forall i :: 0 <= i < width ==>
      Numbers(n, width)[i] == if n.values[i].None? then 0 else FromBytes(n.values[i].value)
    ensures n.Extension? && n.child.Some? ==> forall i :: 0 <= i < width ==>
      Numbers(n, width)[i] == if i == 0 then 1 else if i == 1 then FromBytes(n.stem) else if i == 2 then FromBytes(n.child.value) else 0
  {
  }

  ghost predicate SameNumbers(a: Node, b: Node, width: nat, p: Prime)
    requires width >= 4
  {
    forall i :: 0 <= i < width ==> Numbers(a, width)[i] % p == Numbers(b, width)[i] % p
  }

  /** The commitment depends on the numbers only. */
  ghost predicate CommitsToNumbers(s: Scheme, width: nat, p: Prime) {
    width >= 4 && forall a: Node, b: Node :: SameNumbers(a, b, width, p) ==> s.commit(a) == s.commit(b)
  }

  /** Among these nodes different numbers have different references, which are neither zero
      nor one and below the order of the curve. */
  ghost predicate Binding(nodes: set<Node>, s: Scheme, width: nat, p: Prime)
    requires width >= 4
  {
    && (forall a, b :: a in nodes && b in nodes && Ref(a, s) == Ref(b, s) ==> SameNumbers(a, b, width, p))
    && (forall n :: n in nodes ==> 1 < FromBytes(Ref(n, s)) < p)
  }

  // ----- when nodes share an entry

  /** Leaves that differ, differ as numbers. */
  ghost predicate LeavesApart(nodes: set<Node>, width: nat, p: Prime)
    requires width >= 4
  {
    forall a, b :: a in nodes && b in nodes && a.Suffix? && b.Suffix? && SameNumbers(a, b, width, p) ==> a == b
  }

  /** Stems above the same leaves, if they differ, differ as numbers. */
  ghost predicate StemsApart(nodes: set<Node>, p: Prime) {
    forall a, b :: a in nodes && b in nodes && SameStemNumber(a, b, p) ==> a == b
  }

  /** Stems above the same leaves that are the same number. */
  ghost predicate SameStemNumber(a: Node, b: Node, p: Prime) {
    && a.Extension? && b.Extension? && a.child == b.child
    && FromBytes(a.stem) % p == FromBytes(b.stem) % p
  }

  /** No value is the reference of a node. */
  ghost predicate ValuesNoReferences(nodes: set<Node>, s: Scheme, p: Prime) {
    forall a, n, i :: a in nodes && n in nodes && a.Suffix? && 0 <= i < |a.values| ==>
      NumberOf(a.values[i]) % p != FromBytes(Ref(n, s)) % p
  }

  /** Branches hold references of other nodes, and at least one. */
  ghost predicate Referring(nodes: set<Node>, s: Scheme, width: nat) {
    && (forall a, i :: a in nodes && a.Internal? && 0 <= i < |a.children| && a.children[i].Some? ==>
      IsReference(a.children[i].value, nodes, s))
    && (forall a :: a in nodes && a.Internal? ==> |a.children| == width && HasChild(a))
    && (forall a :: a in nodes && a.Suffix? ==> |a.values| == width)
    && (forall a :: a in nodes && a.Extension? ==> a.child.Some? && IsReference(a.child.value, nodes, s))
  }

  ghost predicate HasChild(a: Node)
    requires a.Internal?
  {
    exists i :: 0 <= i < |a.children| && a.children[i].Some?
  }

  ghost predicate IsReference(ref: Bytes, nodes: set<Node>, s: Scheme) {
    exists n :: n in nodes && ref == Ref(n, s)
  }

  lemma ReferenceRange(ref: Bytes, nodes: set<Node>, s: Scheme, width: nat, p: Prime)
    requires GoodScheme(s) && width >= 4 && Binding(nodes, s, width, p) && IsReference(ref, nodes, s)
    ensures |ref| == 32 && 1 < FromBytes(ref) < p && FromBytes(ref) % p == FromBytes(ref)
  {
    var n :| n in nodes && ref == Ref(n, s);
    SmallRemainder(FromBytes(ref), p);
  }

  lemma SmallRemainder(n: nat, p: Prime)
    ensures n < p ==> n % p == n
  {
  }

  lemma SameReference(a: Bytes, b: Bytes, nodes: set<Node>, s: Scheme, width: nat, p: Prime)
    requires GoodScheme(s) && width >= 4 && Binding(nodes, s, width, p) && IsReference(a, nodes, s) && IsReference(b, nodes, s)
    requires FromBytes(a) % p == FromBytes(b) % p
    ensures a == b
  {
    ReferenceRange(a, nodes, s, width, p);
    ReferenceRange(b, nodes, s, width, p);
    FromBytesInjective(a, b);
  }

  lemma SameBranches(a: Node, b: Node, nodes: set<Node>, s: Scheme, width: nat, p: Prime)
    requires GoodScheme(s) && width >= 4 && Binding(nodes, s, width, p) && Referring(nodes, s, width)
    requires a in nodes && b in nodes && a.Internal? && b.Internal? && SameNumbers(a, b, width, p)
    ensures a == b
  {
    hide FromBytes;
    forall i | 0 <= i < width
      ensures a.children[i] == b.children[i]
    {
      assert Numbers(a, width)[i] % p == Numbers(b, width)[i] % p;
      if a.children[i].Some? {
        ReferenceRange(a.children[i].value, nodes, s, width, p);
      }
      if b.children[i].Some? {
        ReferenceRange(b.children[i].value, nodes, s, width, p);
      }
      SmallRemainder(0, p);
      if a.children[i].Some? && b.children[i].Some? {
        SameReference(a.children[i].value, b.children[i].value, nodes, s, width, p);
      }
    }
  }

  lemma SameExtensions(a: Node, b: Node, nodes: set<Node>, s: Scheme, width: nat, p: Prime)
    requires GoodScheme(s) && width >= 4 && Binding(nodes, s, width, p) && Referring(nodes, s, width)
    requires a in nodes && b in nodes && a.Extension? && b.Extension? && SameNumbers(a, b, width, p)
    ensures a.child == b.child && FromBytes(a.stem) % p == FromBytes(b.stem) % p
  {
    assert Numbers(a, width)[1] % p == Numbers(b, width)[1] % p;
    assert Numbers(a, width)[2] % p == Numbers(b, width)[2] % p;
    SameReference(a.child.value, b.child.value, nodes, s, width, p);
  }

  /** Nodes of different types have different numbers. */
  lemma TypesApart(a: Node, b: Node, nodes: set<Node>, s: Scheme, width: nat, p: Prime)
    requires GoodScheme(s) && width >= 4 && Binding(nodes, s, width, p) && Referring(nodes, s, width) && ValuesNoReferences(nodes, s, p)
    requires a in nodes && b in nodes
    requires (a.Internal? && !b.Internal?) || (a.Suffix? && b.Extension?)
    ensures !SameNumbers(a, b, width, p)
  {
    hide FromBytes;
    if a.Suffix? {
      ReferenceRange(b.child.value, nodes, s, width, p);
      var n :| n in nodes && b.child.value == Ref(n, s);
      assert NumberOf(a.values[2]) % p != FromBytes(Ref(n, s)) % p;
      assert Numbers(a, width)[2] == NumberOf(a.values[2]) && Numbers(b, width)[2] == FromBytes(Ref(n, s));
    } else if b.Extension? {
      assert Numbers(a, width)[0] == NumberOf(a.children[0]) && Numbers(b, width)[0] == 1;
      if a.children[0].Some? {
        ReferenceRange(a.children[0].value, nodes, s, width, p);
      }
      SmallRemainder(0, p);
      SmallRemainder(1, p);
    } else {
      assert HasChild(a);
      var i :| 0 <= i < |a.children| && a.children[i].Some?;
      assert IsReference(a.children[i].value, nodes, s);
      var n :| n in nodes && a.children[i].value == Ref(n, s);
      assert NumberOf(b.values[i]) % p != FromBytes(Ref(n, s)) % p;
      assert Numbers(a, width)[i] == FromBytes(Ref(n, s)) && Numbers(b, width)[i] == NumberOf(b.values[i]);
    }
  }

  lemma SymmetricNumbers(a: Node, b: Node, width: nat, p: Prime)
    requires width >= 4 && SameNumbers(a, b, width, p)
    ensures SameNumbers(b, a, width, p)
  {
  }

  /** Two nodes share a reference only if they are leaves with the same numbers, or stems above
      the same leaves that are the same number. */
  lemma SharedOnlyIf(a: Node, b: Node, nodes: set<Node>, s: Scheme, width: nat, p: Prime)
    requires GoodScheme(s) && width >= 4 && Binding(nodes, s, width, p) && Referring(nodes, s, width) && ValuesNoReferences(nodes, s, p)
    requires LeavesApart(nodes, width, p) && StemsApart(nodes, p)
    requires a in nodes && b in nodes && Ref(a, s) == Ref(b, s)
    ensures a == b
  {
    hide FromBytes, Referring, ValuesNoReferences;
    assert SameNumbers(a, b, width, p);
    SymmetricNumbers(a, b, width, p);
    if a.Suffix? && b.Suffix? {
    } else if a.Extension? && b.Extension? {
      SameExtensions(a, b, nodes, s, width, p);
    } else if a.Internal? && b.Internal? {
      SameBranches(a, b, nodes, s, width, p);
    } else if (a.Internal? && !b.Internal?) || (a.Suffix? && b.Extension?) {
      TypesApart(a, b, nodes, s, width, p);
    } else {
      TypesApart(b, a, nodes, s, width, p);
    }
  }

  lemma EqualNumbersShare(a: Node, b: Node, s: Scheme, width: nat, p: Prime)
    requires CommitsToNumbers(s, width, p) && SameNumbers(a, b, width, p)
    ensures Ref(a, s) == Ref(b, s)
  {
  }

  lemma SameStemNumbers(a: Node, b: Node, width: nat, p: Prime)
    requires width >= 4 && SameStemNumber(a, b, p)
    ensures SameNumbers(a, b, width, p)
  {
    forall i | 0 <= i < width
      ensures Numbers(a, width)[i] % p == Numbers(b, width)[i] % p
    {
      if i == 1 {
      } else {
        assert Numbers(a, width)[i] == Numbers(b, width)[i];
      }
    }
  }

  // ----- the nodes of a tree

  /** What a stem leads to. */
  ghost function EndOf(t: Tree, stem: seq<nat>): Option<Tree> {
    match t
    case Branch(children) =>
      if stem == [] || stem[0] >= |children| || children[stem[0]].None? then None
      else EndOf(children[stem[0]].value, stem[1..])
    case Stemmed(stem', leaves) => if stem == stem' then Some(t) else None
  }

  lemma {:induction false} EndLookup(t: Tree, stem: seq<nat>, x: nat)
    ensures EndOf(t, stem).Some? ==> EndOf(t, stem).value.Stemmed?
    ensures Lookup(t, stem, x) == match EndOf(t, stem)
      case None => None
      case Some(e) => if x < |e.leaves| then e.leaves[x] else None
  {
    if t.Branch? && stem != [] && stem[0] < |t.children| && t.children[stem[0]].Some? {
      EndLookup(t.children[stem[0]].value, stem[1..], x);
    }
  }

  /** Leaves and stems of a tree belong to the end of some path. */
  lemma {:induction false} EndOfNode(t: Tree, s: Scheme, width: nat, m: nat, n: Node) returns (stem: Bytes)
    requires Shaped(t, width, m) && Tight(t, width, m) && n in Nodes(t, s) && !n.Internal? && width <= 256
    ensures |stem| == m && InRange(stem, width)
    ensures EndOf(t, stem).Some? && EndOf(t, stem).value.Stemmed?
    ensures n == NodeOf(EndOf(t, stem).value, s) || n == Suffix(EndOf(t, stem).value.leaves)
    ensures |EndOf(t, stem).value.leaves| == width && References(EndOf(t, stem).value.leaves)
    ensures Suffix(EndOf(t, stem).value.leaves) in Nodes(t, s)
    decreases t
  {
    hide HasStem, TwoStems;
    match t
    case Branch(children) =>
      var i := InnerOfBranch(t, s, n);
      var rest := EndOfNode(children[i].value, s, width, m - 1, n);
      stem := [i] + rest;
      assert stem[1..] == rest;
      ChildNodes(t, s, i);
    case Stemmed(stem', leaves) =>
      stem := stem';
  }

  /** A branch that is not empty. */
  ghost predicate HasSubtree(t: Tree) {
    t.Branch? ==> exists i :: 0 <= i < |t.children| && t.children[i].Some?
  }

  lemma TwoStemsSubtree(t: Tree, width: nat, m: nat)
    requires t.Branch? ==> TwoStems(t, width, m)
    ensures HasSubtree(t)
  {
    if t.Branch? {
      var a: seq<nat>, b: seq<nat> :| |a| == |b| == m && a != b && HasStem(t, a, width) && HasStem(t, b, width);
      var x: nat :| x < width && HasValue(t, a, x);
      assert t.children[a[0]].Some?;
    }
  }

  /** What the nodes of a tree refer to, for any set of nodes that has them. */
  lemma {:induction false} TreeRefers(t: Tree, all: set<Node>, s: Scheme, width: nat, m: nat, a: Node)
    requires Shaped(t, width, m) && Tight(t, width, m) && HasSubtree(t) && Nodes(t, s) <= all && a in Nodes(t, s)
    ensures a.Internal? ==> |a.children| == width && HasChild(a)
    ensures a.Internal? ==> forall i :: 0 <= i < |a.children| && a.children[i].Some? ==> IsReference(a.children[i].value, all, s)
    ensures a.Suffix? ==> |a.values| == width
    ensures a.Extension? ==> a.child.Some? && IsReference(a.child.value, all, s)
    decreases t
  {
    hide TwoStems, HasStem;
    match t
    case Branch(children) =>
      if a in Inner(t, s) {
        var i := InnerOfBranch(t, s, a);
        ChildNodes(t, s, i);
        TwoStemsSubtree(children[i].value, width, m - 1);
        TreeRefers(children[i].value, all, s, width, m - 1, a);
      } else {
        RootRefers(t, all, s, width, m);
      }
    case Stemmed(stem, leaves) =>
      assert Suffix(leaves) in all;
  }

  lemma RootRefers(t: Tree, all: set<Node>, s: Scheme, width: nat, m: nat)
    requires Shaped(t, width, m) && HasSubtree(t) && Nodes(t, s) <= all && t.Branch?
    ensures |NodeOf(t, s).children| == width && HasChild(NodeOf(t, s))
    ensures forall i :: 0 <= i < width && NodeOf(t, s).children[i].Some? ==> IsReference(NodeOf(t, s).children[i].value, all, s)
  {
    var a := NodeOf(t, s);
    var k :| 0 <= k < |t.children| && t.children[k].Some?;
    assert a.children[k].Some?;
    forall i | 0 <= i < |a.children| && a.children[i].Some?
      ensures IsReference(a.children[i].value, all, s)
    {
      ChildNodes(t, s, i);
      var n := NodeOf(t.children[i].value, s);
      assert n in Nodes(t.children[i].value, s);
      assert n in all && a.children[i].value == Ref(n, s);
    }
  }

  lemma NodesRefer(t: Tree, s: Scheme, width: nat, m: nat)
    requires Shaped(t, width, m) && Tight(t, width, m) && HasSubtree(t)
    ensures Referring(Nodes(t, s), s, width)
  {
    hide Shaped, Tight, IsReference, HasChild, HasSubtree;
    forall a | a in Nodes(t, s)
      ensures a.Internal? ==> |a.children| == width && HasChild(a)
      ensures a.Internal? ==> forall i :: 0 <= i < |a.children| && a.children[i].Some? ==> IsReference(a.children[i].value, Nodes(t, s), s)
      ensures a.Suffix? ==> |a.values| == width
      ensures a.Extension? ==> a.child.Some? && IsReference(a.child.value, Nodes(t, s), s)
    {
      TreeRefers(t, Nodes(t, s), s, width, m, a);
    }
  }

  /** No two nodes of a tree share a reference exactly if its leaves differ as numbers and the
      stems above equal leaves do. */
  lemma SharedExactly(t: Tree, s: Scheme, width: nat, m: nat, p: Prime)
    requires GoodScheme(s) && Shaped(t, width, m) && Tight(t, width, m) && HasSubtree(t)
    requires CommitsToNumbers(s, width, p) && Binding(Nodes(t, s), s, width, p) && ValuesNoReferences(Nodes(t, s), s, p)
    ensures CollisionFree(Nodes(t, s), s) <==> LeavesApart(Nodes(t, s), width, p) && StemsApart(Nodes(t, s), p)
  {
    assert width >= 4;
    hide Shaped, Tight, Referring, ValuesNoReferences, Binding, Nodes, FromBytes, SameNumbers, GoodScheme, HasSubtree, CommitsToNumbers;
    var nodes := Nodes(t, s);
    NodesRefer(t, s, width, m);
    if LeavesApart(nodes, width, p) && StemsApart(nodes, p) {
      forall a, b | a in nodes && b in nodes && Ref(a, s) == Ref(b, s)
        ensures a == b
      {
        SharedOnlyIf(a, b, nodes, s, width, p);
      }
    }
    if CollisionFree(nodes, s) {
      forall a, b | a in nodes && b in nodes && a.Suffix? && b.Suffix? && SameNumbers(a, b, width, p)
        ensures a == b
      {
        EqualNumbersShare(a, b, s, width, p);
      }
      forall a, b | a in nodes && b in nodes && SameStemNumber(a, b, p)
        ensures a == b
      {
        SameStemNumbers(a, b, width, p);
        EqualNumbersShare(a, b, s, width, p);
      }
    }
  }

  // ----- contents for which no two nodes share a reference

  /** All values are between one and the order of the curve. */
  ghost predicate CanonicalValues(m: map<Bytes, Bytes>, p: Prime) {
    forall key :: key in m ==> 0 < FromBytes(m[key]) < p
  }

  /** No value stands at the same position below two stems. */
  ghost predicate Scattered(m: map<Bytes, Bytes>, width: nat)
    requires GoodWidth(width)
  {
    forall a, b :: a in m && b in m && SuffixOf(a, width) == SuffixOf(b, width) && m[a] == m[b] ==> a == b
  }

  ghost predicate FreshValues(m: map<Bytes, Bytes>, nodes: set<Node>, s: Scheme) {
    forall key, n :: key in m && n in nodes ==> FromBytes(m[key]) != FromBytes(Ref(n, s))
  }

  /** A value of a leaf is a value of the map. */
  lemma LeafValue(t: Tree, m: map<Bytes, Bytes>, width: nat, stem: Bytes, x: nat) returns (key: Bytes)
    requires GoodWidth(width) && RepresentsMap(t, m, width) && |stem| == StemLength(width) && InRange(stem, width)
    requires EndOf(t, stem).Some? && EndOf(t, stem).value.Stemmed? && x < width == |EndOf(t, stem).value.leaves|
    ensures |key| == KEY_BYTES && StemOf(key, width) == stem && SuffixOf(key, width) == x
    ensures EndOf(t, stem).value.leaves[x] == if key in m then Some(m[key]) else None
  {
    hide GoodWidth, EndOf, Lookup, StemOf, SuffixOf;
    key := KeyFor(stem, x, width);
    EndLookup(t, stem, x);
    assert Lookup(t, StemOf(key, width), SuffixOf(key, width)) == if key in m then Some(m[key]) else None;
  }

  lemma LeavesOf(t: Tree, s: Scheme, width: nat, m: nat, a: Node) returns (stem: Bytes)
    requires Shaped(t, width, m) && Tight(t, width, m) && a in Nodes(t, s) && a.Suffix? && width <= 256
    ensures |stem| == m && InRange(stem, width)
    ensures EndOf(t, stem).Some? && EndOf(t, stem).value.Stemmed? && EndOf(t, stem).value.leaves == a.values
    ensures |a.values| == width && References(a.values)
  {
    hide EndOf, Shaped, Tight, Nodes;
    stem := EndOfNode(t, s, width, m, a);
  }

  lemma CanonicalLeaves(t: Tree, m: map<Bytes, Bytes>, s: Scheme, width: nat, p: Prime)
    requires GoodWidth(width) && width >= 4 && Shaped(t, width, StemLength(width)) && Tight(t, width, StemLength(width))
    requires RepresentsMap(t, m, width) && CanonicalValues(m, p)
    ensures LeavesApart(Nodes(t, s), width, p)
  {
    hide GoodWidth, Nodes, EndOf, Shaped, Tight, RepresentsMap, FromBytes;
    forall a, b | a in Nodes(t, s) && b in Nodes(t, s) && a.Suffix? && b.Suffix? && SameNumbers(a, b, width, p)
      ensures a == b
    {
      WidthBound(width);
      var u := LeavesOf(t, s, width, StemLength(width), a);
      var v := LeavesOf(t, s, width, StemLength(width), b);
      forall i | 0 <= i < width
        ensures a.values[i] == b.values[i]
      {
        var k := LeafValue(t, m, width, u, i);
        var l := LeafValue(t, m, width, v, i);
        assert Numbers(a, width)[i] % p == Numbers(b, width)[i] % p;
        SmallRemainder(NumberOf(a.values[i]), p);
        SmallRemainder(NumberOf(b.values[i]), p);
        if a.values[i].Some? && b.values[i].Some? {
          FromBytesInjective(a.values[i].value, b.values[i].value);
        }
      }
    }
  }

  lemma WidthBound(width: nat)
    requires GoodWidth(width)
    ensures width <= 256
  {
  }

  /** Stems above equal leaves are the same stem if values are scattered. */
  lemma ScatteredStems(t: Tree, m: map<Bytes, Bytes>, s: Scheme, width: nat, p: Prime, a: Node, b: Node)
    requires GoodWidth(width) && GoodScheme(s) && width >= 4
    requires Shaped(t, width, StemLength(width)) && Tight(t, width, StemLength(width))
    requires RepresentsMap(t, m, width) && Scattered(m, width)
    requires Binding(Nodes(t, s), s, width, p) && LeavesApart(Nodes(t, s), width, p)
    requires a in Nodes(t, s) && b in Nodes(t, s) && a.Extension? && b.Extension? && a.child == b.child
    ensures a == b
  {
    hide GoodWidth, Nodes, EndOf, Shaped, Tight, RepresentsMap, FromBytes, SameNumbers;
    WidthBound(width);
    var u := EndOfNode(t, s, width, StemLength(width), a);
    var v := EndOfNode(t, s, width, StemLength(width), b);
    var c, d := EndOf(t, u).value, EndOf(t, v).value;
    assert Ref(Suffix(c.leaves), s) == Ref(Suffix(d.leaves), s);
    assert c.leaves == d.leaves;
    var x := ValueIn(t, width, StemLength(width), u);
    var k := LeafValue(t, m, width, u, x);
    var l := LeafValue(t, m, width, v, x);
    assert k == l;
  }

  /** A stem has a value. */
  lemma {:induction false} ValueIn(t: Tree, width: nat, m: nat, stem: Bytes) returns (x: nat)
    requires Shaped(t, width, m) && Tight(t, width, m) && |stem| == m
    requires EndOf(t, stem).Some? && EndOf(t, stem).value.Stemmed?
    ensures x < width && x < |EndOf(t, stem).value.leaves| && EndOf(t, stem).value.leaves[x].Some?
    decreases t
  {
    match t
    case Branch(children) => x := ValueIn(children[stem[0]].value, width, m - 1, stem[1..]);
    case Stemmed(stem', leaves) => x :| x < width && HasValue(t, stem', x);
  }

  lemma ContentsSubtree(t: Tree, m: map<Bytes, Bytes>, width: nat)
    requires GoodWidth(width) && RepresentsMap(t, m, width) && m != map[]
    ensures HasSubtree(t)
  {
    hide GoodWidth, Lookup, StemOf, SuffixOf, HasSubtree;
    var key :| key in m;
    assert Lookup(t, StemOf(key, width), SuffixOf(key, width)) == Some(m[key]);
    FoundSubtree(t, StemOf(key, width), SuffixOf(key, width));
  }

  lemma FoundSubtree(t: Tree, stem: seq<nat>, x: nat)
    requires Lookup(t, stem, x).Some?
    ensures HasSubtree(t)
  {
  }

  /** A condition on the contents under which no two nodes share a reference. */
  lemma SafeContents(t: Tree, m: map<Bytes, Bytes>, s: Scheme, width: nat, p: Prime)
    requires GoodWidth(width) && GoodScheme(s) && m != map[]
    requires Shaped(t, width, StemLength(width)) && Tight(t, width, StemLength(width)) && RepresentsMap(t, m, width)
    requires CommitsToNumbers(s, width, p) && Binding(Nodes(t, s), s, width, p)
    requires CanonicalValues(m, p) && Scattered(m, width) && FreshValues(m, Nodes(t, s), s)
    ensures CollisionFree(Nodes(t, s), s)
  {
    assert width >= 4;
    hide GoodWidth, EndOf, Shaped, Tight, RepresentsMap, FromBytes, SameNumbers, Nodes, CommitsToNumbers, HasSubtree,
      GoodScheme, CanonicalValues, FreshValues, Scattered, ValuesNoReferences;
    ContentsSubtree(t, m, width);
    CanonicalLeaves(t, m, s, width, p);
    forall a, b | a in Nodes(t, s) && b in Nodes(t, s) && SameStemNumber(a, b, p)
      ensures a == b
    {
      ScatteredStems(t, m, s, width, p, a, b);
    }
    FreshLeaves(t, m, s, width, p);
    SharedExactly(t, s, width, StemLength(width), p);
  }

  lemma FreshLeaves(t: Tree, m: map<Bytes, Bytes>, s: Scheme, width: nat, p: Prime)
    requires GoodWidth(width) && width >= 4 && Shaped(t, width, StemLength(width)) && Tight(t, width, StemLength(width))
    requires RepresentsMap(t, m, width) && Binding(Nodes(t, s), s, width, p)
    requires CanonicalValues(m, p) && FreshValues(m, Nodes(t, s), s)
    ensures ValuesNoReferences(Nodes(t, s), s, p)
  {
    hide GoodWidth, EndOf, Shaped, Tight, RepresentsMap, FromBytes, Nodes, Ref;
    forall a, n, i | a in Nodes(t, s) && n in Nodes(t, s) && a.Suffix? && 0 <= i < |a.values|
      ensures NumberOf(a.values[i]) % p != FromBytes(Ref(n, s)) % p
    {
      WidthBound(width);
      var u := LeavesOf(t, s, width, StemLength(width), a);
      var k := LeafValue(t, m, width, u, i);
      SmallRemainder(NumberOf(a.values[i]), p);
      SmallRemainder(FromBytes(Ref(n, s)), p);
    }
  }

  // ----- what happens otherwise

  /** Thirty-two zero bytes. */
  function Zeros(): (r: Bytes)
    ensures |r| == 32
  {
    seq(32, _ => 0)
  }

  /** An absent value and zero are the same number, and so are values that are congruent. */
  lemma SameLeaves(leaves: Children, x: nat, value: Bytes, s: Scheme, width: nat, p: Prime)
    requires x < |leaves| && CommitsToNumbers(s, width, p)
    requires FromBytes(value) % p == NumberOf(leaves[x]) % p
    ensures Ref(Suffix(leaves[x := Some(value)]), s) == Ref(Suffix(leaves), s)
  {
    var a, b := Suffix(leaves[x := Some(value)]), Suffix(leaves);
    forall i | 0 <= i < width
      ensures Numbers(a, width)[i] % p == Numbers(b, width)[i] % p
    {
    }
    EqualNumbersShare(a, b, s, width, p);
  }

  lemma {:induction false} ZerosNumber(k: nat)
    ensures FromBytes(seq(k, _ => 0)) == 0
  {
    if k > 0 {
      assert seq(k, _ => 0)[..k - 1] == seq(k - 1, _ => 0);
      ZerosNumber(k - 1);
    }
  }

  /** Leading zeros of a stem do not count. */
  lemma LeadingZero(stem: Bytes, child: Option<Bytes>, s: Scheme, width: nat, p: Prime)
    requires CommitsToNumbers(s, width, p)
    ensures Ref(Extension([0] + stem, child), s) == Ref(Extension(stem, child), s)
  {
    ZeroInFront(stem);
    SameStemNumbers(Extension([0] + stem, child), Extension(stem, child), width, p);
    EqualNumbersShare(Extension([0] + stem, child), Extension(stem, child), s, width, p);
  }

  lemma {:induction false} ZeroInFront(bs: Bytes)
    ensures FromBytes([0] + bs) == FromBytes(bs)
  {
    if bs == [] {
      assert ([0] + bs)[..0] == [];
    } else {
      assert ([0] + bs)[..|bs|] == [0] + bs[..|bs| - 1];
      ZeroInFront(bs[..|bs| - 1]);
    }
  }

  /** Hence such stems above equal leaves cannot both be read back. */
  lemma StemsNotApart(nodes: set<Node>, stem: Bytes, child: Option<Bytes>, s: Scheme, width: nat, p: Prime)
    requires CommitsToNumbers(s, width, p)
    requires Extension([0] + stem, child) in nodes && Extension(stem, child) in nodes
    ensures !CollisionFree(nodes, s)
  {
    LeadingZero(stem, child, s, width, p);
    assert |[0] + stem| != |stem|;
  }

  /** All leaves of one kind replaced. */
  ghost function Replaced(t: Tree, leaves: Children, leaves': Children): Tree {
    match t
    case Branch(children) =>
      Branch(seq(|children|, i requires 0 <= i < |children| =>
        if children[i].None? then None else Some(Replaced(children[i].value, leaves, leaves'))))
    case Stemmed(stem, here) => if here == leaves then Stemmed(stem, leaves') else t
  }

  lemma {:induction false} ReplacedNode(t: Tree, leaves: Children, leaves': Children, s: Scheme)
    requires Ref(Suffix(leaves), s) == Ref(Suffix(leaves'), s)
    ensures NodeOf(Replaced(t, leaves, leaves'), s) == NodeOf(t, s)
  {
    if t.Branch? {
      var t' := Replaced(t, leaves, leaves');
      forall i | 0 <= i < |t.children|
        ensures NodeOf(t', s).children[i] == NodeOf(t, s).children[i]
      {
        if t.children[i].Some? {
          ReplacedNode(t.children[i].value, leaves, leaves', s);
        }
      }
      assert NodeOf(t', s).children == NodeOf(t, s).children;
    }
  }

  lemma {:induction false} ReplacedNodes(t: Tree, leaves: Children, leaves': Children, s: Scheme, n: Node)
    requires Ref(Suffix(leaves), s) == Ref(Suffix(leaves'), s) && leaves != leaves'
    requires n in Inner(Replaced(t, leaves, leaves'), s)
    ensures n == Suffix(leaves') || (n in Inner(t, s) && n != Suffix(leaves))
  {
    if t.Branch? {
      var t' := Replaced(t, leaves, leaves');
      var i := InnerOfBranch(t', s, n);
      ReplacedNode(t.children[i].value, leaves, leaves', s);
      ChildNodes(t, s, i);
      if n in Inner(t'.children[i].value, s) {
        ReplacedNodes(t.children[i].value, leaves, leaves', s, n);
      }
    }
  }

  lemma {:induction false} ReplacedShaped(t: Tree, leaves: Children, leaves': Children, width: nat, m: nat)
    requires Shaped(t, width, m) && |leaves'| == width && References(leaves')
    ensures Shaped(Replaced(t, leaves, leaves'), width, m)
    decreases t
  {
    if t.Branch? {
      forall i | 0 <= i < width && t.children[i].Some?
        ensures Shaped(Replaced(t.children[i].value, leaves, leaves'), width, m - 1)
      {
        ReplacedShaped(t.children[i].value, leaves, leaves', width, m - 1);
      }
    }
  }

  lemma {:induction false} ReplacedEnd(t: Tree, leaves: Children, leaves': Children, stem: seq<nat>)
    requires EndOf(t, stem).Some? && EndOf(t, stem).value.Stemmed? && EndOf(t, stem).value.leaves == leaves
    ensures EndOf(Replaced(t, leaves, leaves'), stem).Some? && EndOf(Replaced(t, leaves, leaves'), stem).value.Stemmed?
    ensures EndOf(Replaced(t, leaves, leaves'), stem).value.leaves == leaves'
  {
    if t.Branch? {
      ReplacedEnd(t.children[stem[0]].value, leaves, leaves', stem[1..]);
    }
  }

  /** Writing a value that does not change the reference of the leaves. */
  lemma {:induction false} InsertShared(t: Tree, stem: Bytes, x: nat, value: Bytes, width: nat, s: Scheme)
    requires Shaped(t, width, |stem|) && InRange(stem, width) && x < width
    requires EndOf(t, stem).Some? && EndOf(t, stem).value.Stemmed? && |EndOf(t, stem).value.leaves| == width
    requires Ref(Suffix(EndOf(t, stem).value.leaves[x := Some(value)]), s) == Ref(Suffix(EndOf(t, stem).value.leaves), s)
    ensures NodeOf(InsertInto(t, stem, x, value, width), s) == NodeOf(t, s)
    ensures Suffix(EndOf(t, stem).value.leaves[x := Some(value)]) in Inner(InsertInto(t, stem, x, value, width), s)
    ensures Inner(InsertInto(t, stem, x, value, width), s) <= Inner(t, s) + {Suffix(EndOf(t, stem).value.leaves[x := Some(value)])}
    decreases t
  {
    if t.Branch? {
      var c := stem[0];
      var child := t.children[c].value;
      InsertShared(child, stem[1..], x, value, width, s);
      var t' := InsertInto(child, stem[1..], x, value, width);
      BranchPatched(t, c, t', s);
      assert NodeOf(Branch(t.children[c := Some(t')]), s).children == NodeOf(t, s).children;
      ChildNodes(t, s, c);
      assert NodeOf(t', s) == NodeOf(child, s);
    }
  }

  /** What the insertion leaves in the store is the tree in which all equal leaves have changed. */
  lemma AllReplaced(before: Tree, after: Tree, leaves: Children, leaves': Children, written: set<Node>, s: Scheme)
    requires CollisionFree(Nodes(before, s), s) && Suffix(leaves) in Inner(before, s)
    requires Ref(Suffix(leaves), s) == Ref(Suffix(leaves'), s) && leaves != leaves'
    requires NodeOf(after, s) == NodeOf(before, s)
    requires Suffix(leaves') in Inner(after, s) && Inner(after, s) <= Inner(before, s) + {Suffix(leaves')}
    requires written <= Nodes(after, s) <= Inner(before, s) + written && OneSuffix(written)
    ensures Nodes(Replaced(before, leaves, leaves'), s) <= Safe(Inner(before, s) + written, written, s)
  {
    hide Ref, Safe, Inner, CollisionFree, OneSuffix;
    var r, inner, t := NodeOf(before, s), Inner(before, s), Replaced(before, leaves, leaves');
    ReplacedNode(before, leaves, leaves', s);
    OldNotWritten(Suffix(leaves), Suffix(leaves'), inner, r, Inner(after, s), written, s);
    forall n | n in Nodes(t, s)
      ensures n in Safe(inner + written, written, s)
    {
      if n in Inner(t, s) {
        ReplacedNodes(before, leaves, leaves', s, n);
      }
      StaysSafe(n, Suffix(leaves), Suffix(leaves'), inner, r, written, s);
    }
  }

  lemma OldNotWritten(old': Node, new': Node, inner: set<Node>, r: Node, inner': set<Node>, written: set<Node>, s: Scheme)
    requires CollisionFree({r} + inner, s) && old' in inner && Ref(old', s) == Ref(new', s) && old' != new'
    requires !r.Suffix? && old'.Suffix? && new'.Suffix? && new' in inner' && inner' <= inner + {new'}
    requires {r} + inner' <= inner + written && written <= {r} + inner' && OneSuffix(written)
    ensures new' in written && old' !in written && written <= {r} + inner + {new'} && r in inner + written
  {
    assert new' !in inner;
  }

  lemma StaysSafe(n: Node, old': Node, new': Node, inner: set<Node>, r: Node, written: set<Node>, s: Scheme)
    requires CollisionFree({r} + inner, s) && old' in inner && Ref(old', s) == Ref(new', s) && !r.Suffix? && old'.Suffix?
    requires new' in written && old' !in written && written <= {r} + inner + {new'} && r in inner + written
    requires n == new' || n == r || (n in inner && n != old')
    ensures n in Safe(inner + written, written, s)
  {
    assert n != new' && n != r ==> Ref(n, s) != Ref(new', s);
    assert n == r ==> Ref(n, s) != Ref(new', s);
    forall w | w in written && Ref(w, s) == Ref(n, s)
      ensures w == n
    {
      assert n == new' && w in {r} + inner ==> w == old';
    }
  }

  // ----- an insertion that loses data

  /** The leaves of the stem of a key. */
  ghost function LeavesAt(t: Tree, key: Bytes, width: nat): Option<Children>
    requires GoodWidth(width)
  {
    match EndOf(t, StemOf(key, width))
    case None => None
    case Some(e) => if e.Stemmed? then Some(e.leaves) else None
  }

  ghost function Found(m: map<Bytes, Bytes>, key: Bytes): Option<Bytes> {
    if key in m then Some(m[key]) else None
  }

  lemma {:induction false} EndShape(t: Tree, stem: seq<nat>, width: nat, m: nat, s: Scheme)
    requires Shaped(t, width, m) && EndOf(t, stem).Some?
    ensures EndOf(t, stem).value.Stemmed?
    ensures |EndOf(t, stem).value.leaves| == width && References(EndOf(t, stem).value.leaves)
    ensures Suffix(EndOf(t, stem).value.leaves) in Inner(t, s)
    decreases t
  {
    if t.Branch? {
      EndShape(t.children[stem[0]].value, stem[1..], width, m - 1, s);
      ChildNodes(t, s, stem[0]);
    }
  }

  /** Two keys with the same suffix below different stems with equal leaves. */
  ghost predicate Twins(t: Tree, key: Bytes, other: Bytes, width: nat) {
    && GoodWidth(width) && |key| == |other| == KEY_BYTES && key != other
    && SuffixOf(key, width) == SuffixOf(other, width)
    && LeavesAt(t, key, width).Some? && LeavesAt(t, other, width) == LeavesAt(t, key, width)
  }

  /** The leaves hold what the map says. */
  lemma LeavesFound(t: Tree, m: map<Bytes, Bytes>, key: Bytes, width: nat, s: Scheme)
    requires GoodWidth(width) && Shaped(t, width, StemLength(width)) && RepresentsMap(t, m, width) && |key| == KEY_BYTES
    requires LeavesAt(t, key, width).Some?
    ensures var leaves := LeavesAt(t, key, width).value;
      && |leaves| == width && References(leaves) && Suffix(leaves) in Inner(t, s)
      && leaves[SuffixOf(key, width)] == Found(m, key)
  {
    hide GoodWidth, EndOf, Shaped, Inner;
    EndShape(t, StemOf(key, width), width, StemLength(width), s);
    EndLookup(t, StemOf(key, width), SuffixOf(key, width));
  }

  /** The insertion of a value that does not change the reference of the leaves. */
  lemma SharedInsert(t: Tree, key: Bytes, value: Bytes, leaves: Children, width: nat, s: Scheme)
    requires GoodWidth(width) && Shaped(t, width, StemLength(width)) && LeavesAt(t, key, width) == Some(leaves) && |leaves| == width
    requires Ref(Suffix(leaves[SuffixOf(key, width) := Some(value)]), s) == Ref(Suffix(leaves), s)
    ensures var after, new' := InsertInto(t, StemOf(key, width), SuffixOf(key, width), value, width),
                               Suffix(leaves[SuffixOf(key, width) := Some(value)]);
      && NodeOf(after, s) == NodeOf(t, s) && new' in Inner(after, s) && Inner(after, s) <= Inner(t, s) + {new'}
  {
    hide GoodWidth, EndOf, Shaped, Inner, NodeOf, InsertInto;
    InsertShared(t, StemOf(key, width), SuffixOf(key, width), value, width, s);
  }

  /** What is found below the other stem once the leaves have changed. */
  lemma SharedLookup(t: Tree, other: Bytes, leaves: Children, leaves': Children, width: nat)
    requires GoodWidth(width) && Shaped(t, width, StemLength(width)) && LeavesAt(t, other, width) == Some(leaves)
    requires |leaves'| == width && References(leaves')
    ensures Shaped(Replaced(t, leaves, leaves'), width, StemLength(width))
    ensures Lookup(Replaced(t, leaves, leaves'), StemOf(other, width), SuffixOf(other, width)) == leaves'[SuffixOf(other, width)]
  {
    hide GoodWidth, EndOf, Shaped, References;
    ReplacedShaped(t, leaves, leaves', width, StemLength(width));
    ReplacedEnd(t, leaves, leaves', StemOf(other, width));
    EndLookup(Replaced(t, leaves, leaves'), StemOf(other, width), SuffixOf(other, width));
  }

  lemma EmptyEnd(width: nat, stem: seq<nat>)
    ensures EndOf(Branch(NoTrees(width)), stem) == None
  {
  }

  /** A value that is zero where there is none, or congruent to the present one, written below
      one of two stems with equal leaves, is afterwards found below the other as well. */
  method ShareEntry(tree: VerkleTree, key: Bytes, value: Bytes, other: Bytes, ghost p: Prime) returns (r: Option<nat>)
    requires tree.Valid() && CommitsToNumbers(tree.scheme, tree.width, p) && |value| == 32
    requires Twins(tree.tree, key, other, tree.width)
    requires Found(tree.contents, key) != Some(value) && FromBytes(value) % p == NumberOf(Found(tree.contents, key)) % p
    modifies tree, tree.root
    ensures tree.contents == old(tree.contents)[key := value] && Found(tree.contents, other) != Some(value)
    ensures r == Some(FromBytes(value))
  {
    hide CommitsToNumbers, GoodWidth, EndOf, Shaped, Tight, RepresentsMap, Inner, NodeOf, InsertInto, Safe, OneSuffix, Lookup, StemOf, SuffixOf,
      IsStored, CollisionFree, Replaced;
    ghost var before, s, width := tree.tree, tree.scheme, tree.width;
    ghost var leaves := LeavesAt(before, key, width).value;
    LeavesFound(before, tree.contents, key, width, s);
    ghost var leaves' := leaves[SuffixOf(key, width) := Some(value)];
    LeavesFound(before, tree.contents, other, width, s);
    EmptyEnd(width, StemOf(key, width));
    StoredApart(tree.db, Nodes(before, s), s);
    SameLeaves(leaves, SuffixOf(key, width), value, s, width, p);
    SharedInsert(before, key, value, leaves, width, s);
    ghost var written := tree.InsertSized(key, value);
    AllReplaced(before, tree.tree, leaves, leaves', written, s);
    SharedLookup(before, other, leaves, leaves', width);
    ReplacedNode(before, leaves, leaves', s);
    var ok;
    ok, r := tree.GetFrom(other, Replaced(before, leaves, leaves'));
  }

  // ----- an input at which it happens

  /** The stem of zeros, but for its first chunk. */
  ghost function StemFrom(first: nat, width: nat): (r: Bytes)
    requires GoodWidth(width) && width >= 4 && first < 2
    ensures |r| == StemLength(width) && InRange(r, width) && r[0] == first
  {
    [first] + seq(StemLength(width) - 1, _ => 0)
  }

  /** The same value at the same position below one stem or two. */
  ghost function OneStemTree(width: nat, value: Bytes): (r: Tree)
    requires GoodWidth(width) && width >= 4
    ensures r == InsertInto(Branch(NoTrees(width)), StemFrom(0, width), 0, value, width)
  {
    assert Shaped(Branch(NoTrees(width)), width, StemLength(width));
    Branch(NoTrees(width)[0 := Some(Stemmed(StemFrom(0, width)[1..], OneLeaf(width, 0, value)))])
  }

  ghost function TwoStemTree(width: nat, value: Bytes): Tree
    requires GoodWidth(width) && width >= 4
  {
    Branch(OneStemTree(width, value).children[1 := Some(Stemmed(StemFrom(1, width)[1..], OneLeaf(width, 0, value)))])
  }

  lemma SecondStem(width: nat, value: Bytes)
    requires GoodWidth(width) && width >= 4 && |value| == 32
    ensures Shaped(OneStemTree(width, value), width, StemLength(width))
    ensures InsertInto(OneStemTree(width, value), StemFrom(1, width), 0, value, width) == TwoStemTree(width, value)
  {
    InsertShaped(Branch(NoTrees(width)), StemFrom(0, width), 0, value, width);
  }

  lemma TwoStemEnds(width: nat, value: Bytes, first: nat)
    requires GoodWidth(width) && width >= 4 && first < 2
    ensures EndOf(TwoStemTree(width, value), StemFrom(first, width)) == Some(Stemmed(StemFrom(first, width)[1..], OneLeaf(width, 0, value)))
  {
  }

  /** One value below two stems; then zero is written below the first, at a position where
      neither has a value, and is found below the second. */
  method LosesData(width: nat, scheme: Scheme, value: Bytes, a: Bytes, b: Bytes, key: Bytes, other: Bytes, ghost p: Prime)
    returns (tree: VerkleTree, r: Option<nat>)
    requires GoodWidth(width) && width >= 4 && GoodScheme(scheme) && CommitsToNumbers(scheme, width, p) && |value| == 32
    requires CollisionFree(Nodes(OneStemTree(width, value), scheme), scheme) && CollisionFree(Nodes(TwoStemTree(width, value), scheme), scheme)
    requires |a| == |b| == |key| == |other| == KEY_BYTES
    requires StemOf(a, width) == StemOf(key, width) == StemFrom(0, width) && StemOf(b, width) == StemOf(other, width) == StemFrom(1, width)
    requires SuffixOf(a, width) == SuffixOf(b, width) == 0 && SuffixOf(key, width) == SuffixOf(other, width) == 1
    ensures tree.contents == map[a := value, b := value, key := Zeros()]
    ensures other !in tree.contents && r == Some(0)
  {
    hide CommitsToNumbers, GoodWidth, GoodScheme, CollisionFree, Nodes, StemOf, SuffixOf, InsertInto, StemFrom, OneStemTree, TwoStemTree,
      EndOf, RepresentsMap, Shaped, Tight;
    tree := new VerkleTree(width, scheme);
    SecondStem(width, value);
    var ok := tree.Insert(a, value);
    assert tree.tree == OneStemTree(width, value);
    ok := tree.Insert(b, value);
    assert tree.tree == TwoStemTree(width, value);
    TwoStemEnds(width, value, 0);
    TwoStemEnds(width, value, 1);
    ZerosNumber(32);
    r := ShareEntry(tree, key, Zeros(), other, p);
  }
}
