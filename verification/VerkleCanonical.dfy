/** The shape of a Verkle tree depends only on the values in it, not on the order in
    which insert of tree/verkle_tree.py has put them there. */
module VerkleCanonical {
  import opened Wrappers
  import opened ByteStrings
  import opened NodeSerialization
  import opened VerkleShape

  /** A value under that stem. */
  ghost predicate HasValue(t: Tree, stem: seq<nat>, suffix: nat) {
    Lookup(t, stem, suffix).Some?
  }

  ghost predicate HasStem(t: Tree, stem: seq<nat>, width: nat) {
    exists x: nat :: x < width && HasValue(t, stem, x)
  }

  /** Values under at least two stems. */
  ghost predicate TwoStems(t: Tree, width: nat, m: nat) {
    exists a: seq<nat>, b: seq<nat> :: |a| == |b| == m && a != b && HasStem(t, a, width) && HasStem(t, b, width)
  }

  /** Stems have values, and a branch below another one is there for two stems. */
  ghost predicate Tight(t: Tree, width: nat, m: nat)
    requires Shaped(t, width, m)
    decreases t
  {
    match t
    case Branch(children) =>
      forall i :: 0 <= i < width && children[i].Some? ==>
        && Tight(children[i].value, width, m - 1)
        && (children[i].value.Branch? ==> TwoStems(children[i].value, width, m - 1))
    case Stemmed(stem, leaves) => HasStem(t, stem, width)
  }

  lemma EmptyTight(width: nat, m: nat)
    requires m > 0
    ensures Shaped(Branch(NoTrees(width)), width, m) && Tight(Branch(NoTrees(width)), width, m)
  {
  }

  // ----- insertion keeps the tree tight

  /** Values stay, so stems stay. */
  lemma StemStays(t: Tree, stem: Bytes, suffix: nat, value: Bytes, width: nat, s: seq<nat>)
    requires Shaped(t, width, |stem|) && InRange(stem, width) && suffix < width && |s| == |stem|
    ensures HasStem(t, s, width) ==> HasStem(InsertInto(t, stem, suffix, value, width), s, width)
    ensures HasStem(InsertInto(t, stem, suffix, value, width), stem, width)
  {
    var after := InsertInto(t, stem, suffix, value, width);
    if HasStem(t, s, width) {
      var x: nat :| x < width && HasValue(t, s, x);
      InsertLookup(t, stem, suffix, value, width, s, x);
      assert HasValue(after, s, x);
    }
    InsertLookup(t, stem, suffix, value, width, stem, suffix);
    assert HasValue(after, stem, suffix);
  }

  lemma TwoStay(t: Tree, stem: Bytes, suffix: nat, value: Bytes, width: nat)
    requires Shaped(t, width, |stem|) && InRange(stem, width) && suffix < width && TwoStems(t, width, |stem|)
    ensures TwoStems(InsertInto(t, stem, suffix, value, width), width, |stem|)
  {
    var a: seq<nat>, b: seq<nat> :| |a| == |b| == |stem| && a != b && HasStem(t, a, width) && HasStem(t, b, width);
    StemStays(t, stem, suffix, value, width, a);
    StemStays(t, stem, suffix, value, width, b);
  }

  /** Where two stems part there are two stems. */
  lemma SplitTwo(stem: Bytes, leaves: Children, stem': Bytes, leaves': Children, width: nat)
    requires |stem| == |stem'| && stem != stem' && InRange(stem, width) && InRange(stem', width)
    requires HasStem(Stemmed(stem, leaves), stem, width) && HasStem(Stemmed(stem', leaves'), stem', width)
    ensures TwoStems(Split(stem, leaves, stem', leaves', width), width, |stem|)
  {
    var t := Split(stem, leaves, stem', leaves', width);
    var x: nat :| x < width && HasValue(Stemmed(stem, leaves), stem, x);
    SplitLookup(stem, leaves, stem', leaves', width, stem, x);
    assert HasValue(t, stem, x);
    var y: nat :| y < width && HasValue(Stemmed(stem', leaves'), stem', y);
    SplitLookup(stem, leaves, stem', leaves', width, stem', y);
    assert HasValue(t, stem', y);
    assert HasStem(t, stem, width) && HasStem(t, stem', width);
  }

  lemma TailHasStem(stem: Bytes, leaves: Children, width: nat)
    requires stem != [] && HasStem(Stemmed(stem, leaves), stem, width)
    ensures HasStem(Stemmed(stem[1..], leaves), stem[1..], width)
  {
    var x: nat :| x < width && HasValue(Stemmed(stem, leaves), stem, x);
    assert HasValue(Stemmed(stem[1..], leaves), stem[1..], x);
  }

  lemma {:induction false} SplitTight(stem: Bytes, leaves: Children, stem': Bytes, leaves': Children, width: nat)
    requires |stem| == |stem'| && stem != stem' && InRange(stem, width) && InRange(stem', width)
    requires |leaves| == |leaves'| == width && References(leaves) && References(leaves')
    requires HasStem(Stemmed(stem, leaves), stem, width) && HasStem(Stemmed(stem', leaves'), stem', width)
    ensures Shaped(Split(stem, leaves, stem', leaves', width), width, |stem|)
    ensures Tight(Split(stem, leaves, stem', leaves', width), width, |stem|)
    decreases |stem|
  {
    hide HasStem, TwoStems, References;
    SplitShaped(stem, leaves, stem', leaves', width);
    TailHasStem(stem, leaves, width);
    TailHasStem(stem', leaves', width);
    if stem[0] == stem'[0] {
      SplitTight(stem[1..], leaves, stem'[1..], leaves', width);
      SplitTwo(stem[1..], leaves, stem'[1..], leaves', width);
    }
  }

  lemma {:induction false} InsertTight(t: Tree, stem: Bytes, suffix: nat, value: Bytes, width: nat)
    requires Shaped(t, width, |stem|) && Tight(t, width, |stem|) && InRange(stem, width) && suffix < width && |value| == 32
    ensures Shaped(InsertInto(t, stem, suffix, value, width), width, |stem|)
    ensures Tight(InsertInto(t, stem, suffix, value, width), width, |stem|)
    decreases t
  {
    hide HasStem, TwoStems, References;
    InsertShaped(t, stem, suffix, value, width);
    match t
    case Branch(children) =>
      var c := stem[0];
      if children[c].None? {
        OneLeafHasStem(stem[1..], suffix, value, width);
      } else {
        InsertTight(children[c].value, stem[1..], suffix, value, width);
        BranchInserted(children[c].value, stem[1..], suffix, value, width);
      }
    case Stemmed(stem', leaves) =>
      if stem' == stem {
        StemStays(t, stem, suffix, value, width, stem);
      } else {
        OneLeafHasStem(stem, suffix, value, width);
        SplitTight(stem', leaves, stem, OneLeaf(width, suffix, value), width);
      }
  }

  lemma OneLeafHasStem(stem: Bytes, suffix: nat, value: Bytes, width: nat)
    requires suffix < width
    ensures HasStem(Stemmed(stem, OneLeaf(width, suffix, value)), stem, width)
  {
    assert HasValue(Stemmed(stem, OneLeaf(width, suffix, value)), stem, suffix);
  }

  /** A subtree that an insertion leaves or makes a branch has two stems. */
  lemma BranchInserted(t: Tree, stem: Bytes, suffix: nat, value: Bytes, width: nat)
    requires Shaped(t, width, |stem|) && Tight(t, width, |stem|) && InRange(stem, width) && suffix < width
    requires t.Branch? ==> TwoStems(t, width, |stem|)
    ensures InsertInto(t, stem, suffix, value, width).Branch? ==> TwoStems(InsertInto(t, stem, suffix, value, width), width, |stem|)
  {
    hide HasStem, TwoStems;
    if t.Branch? {
      TwoStay(t, stem, suffix, value, width);
    } else if t.stem != stem {
      OneLeafHasStem(stem, suffix, value, width);
      SplitTwo(t.stem, t.leaves, stem, OneLeaf(width, suffix, value), width);
    }
  }

  // ----- the values determine the tree

  ghost predicate SameValues(t: Tree, t': Tree, width: nat, m: nat) {
    forall s: seq<nat>, x: nat :: |s| == m && x < width ==> Lookup(t, s, x) == Lookup(t', s, x)
  }

  /** A tight subtree is not empty. */
  lemma SomeValue(t: Tree, width: nat, m: nat) returns (s: seq<nat>, x: nat)
    requires Shaped(t, width, m) && Tight(t, width, m) && (t.Branch? ==> TwoStems(t, width, m))
    ensures |s| == m && x < width && HasValue(t, s, x)
  {
    if t.Branch? {
      var a: seq<nat>, b: seq<nat> :| |a| == |b| == m && a != b && HasStem(t, a, width) && HasStem(t, b, width);
      s := a;
    } else {
      s := t.stem;
    }
    x :| x < width && HasValue(t, s, x);
  }

  lemma ChildValues(t: Tree, t': Tree, width: nat, m: nat, c: nat, s: seq<nat>, x: nat)
    requires t.Branch? && t'.Branch? && |t.children| == |t'.children| == width && c < width
    requires SameValues(t, t', width, m) && m > 0 && |s| == m - 1 && x < width
    ensures (if t.children[c].Some? then Lookup(t.children[c].value, s, x) else None)
      == (if t'.children[c].Some? then Lookup(t'.children[c].value, s, x) else None)
  {
    var whole := [c] + s;
    assert whole[0] == c && whole[1..] == s;
    assert Lookup(t, whole, x) == Lookup(t', whole, x);
  }

  lemma StemmedIsNoBranch(t: Tree, t': Tree, width: nat, m: nat)
    requires SameValues(t, t', width, m) && TwoStems(t', width, m)
    ensures t.Branch?
  {
    var a: seq<nat>, b: seq<nat> :| |a| == |b| == m && a != b && HasStem(t', a, width) && HasStem(t', b, width);
    var x: nat :| x < width && HasValue(t', a, x);
    var y: nat :| y < width && HasValue(t', b, y);
    assert Lookup(t, a, x) == Lookup(t', a, x) && Lookup(t, b, y) == Lookup(t', b, y);
  }

  lemma SameStems(t: Tree, t': Tree, width: nat, m: nat)
    requires Shaped(t, width, m) && Shaped(t', width, m) && Tight(t, width, m)
    requires SameValues(t, t', width, m) && t.Stemmed? && t'.Stemmed?
    ensures t == t'
  {
    var x: nat :| x < width && HasValue(t, t.stem, x);
    assert Lookup(t, t.stem, x) == Lookup(t', t.stem, x);
    forall i | 0 <= i < width
      ensures t.leaves[i] == t'.leaves[i]
    {
      assert Lookup(t, t.stem, i) == Lookup(t', t.stem, i);
    }
  }

  lemma SymmetricValues(t: Tree, t': Tree, width: nat, m: nat)
    requires SameValues(t, t', width, m)
    ensures SameValues(t', t, width, m)
  {
  }

  lemma {:induction false} SameTree(t: Tree, t': Tree, width: nat, m: nat)
    requires Shaped(t, width, m) && Shaped(t', width, m) && Tight(t, width, m) && Tight(t', width, m)
    requires SameValues(t, t', width, m)
    requires (t.Branch? && t'.Branch?) || ((t.Branch? ==> TwoStems(t, width, m)) && (t'.Branch? ==> TwoStems(t', width, m)))
    ensures t == t'
    decreases t
  {
    hide HasStem, TwoStems, References;
    if t.Stemmed? && t'.Stemmed? {
      SameStems(t, t', width, m);
    } else if t.Stemmed? {
      StemmedIsNoBranch(t, t', width, m);
    } else if t'.Stemmed? {
      SymmetricValues(t, t', width, m);
      StemmedIsNoBranch(t', t, width, m);
    } else {
      forall c | 0 <= c < width
        ensures t.children[c] == t'.children[c]
      {
        ChildPresence(t, t', width, m, c);
        if t.children[c].Some? {
          ChildrenSame(t, t', width, m, c);
          SameTree(t.children[c].value, t'.children[c].value, width, m - 1);
        }
      }
    }
  }

  lemma ChildPresence(t: Tree, t': Tree, width: nat, m: nat, c: nat)
    requires Shaped(t, width, m) && Shaped(t', width, m) && Tight(t, width, m) && Tight(t', width, m)
    requires SameValues(t, t', width, m) && t.Branch? && t'.Branch? && c < width
    ensures t.children[c].Some? <==> t'.children[c].Some?
  {
    hide HasStem, TwoStems, References, SameValues;
    if t.children[c].Some? {
      var s, x := SomeValue(t.children[c].value, width, m - 1);
      ChildValues(t, t', width, m, c, s, x);
    }
    if t'.children[c].Some? {
      var s, x := SomeValue(t'.children[c].value, width, m - 1);
      ChildValues(t, t', width, m, c, s, x);
    }
  }

  lemma ChildrenSame(t: Tree, t': Tree, width: nat, m: nat, c: nat)
    requires t.Branch? && t'.Branch? && |t.children| == |t'.children| == width && c < width && m > 0
    requires SameValues(t, t', width, m) && t.children[c].Some? && t'.children[c].Some?
    ensures SameValues(t.children[c].value, t'.children[c].value, width, m - 1)
  {
    forall s: seq<nat>, x: nat | |s| == m - 1 && x < width
      ensures Lookup(t.children[c].value, s, x) == Lookup(t'.children[c].value, s, x)
    {
      ChildValues(t, t', width, m, c, s, x);
    }
  }
}
