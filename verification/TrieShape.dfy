/** What a Merkle Patricia trie stands for: the shape that _update in tree/merkle_tree.py
    builds and the values that _get finds.  Keys may have different lengths. */
module TrieShape {
  import opened Wrappers
  import opened ByteStrings
  import opened Nibbles
  import opened TrieNodes

  datatype Trie =
    | Leaf(path: Digits, value: Bytes)
    | Ext(path: Digits, child: Trie)
    | Branch(children: seq<Option<Trie>>, value: Bytes)

  ghost function NoTries(): (r: seq<Option<Trie>>)
    ensures |r| == WIDTH && forall i :: 0 <= i < WIDTH ==> r[i] == None
  {
    seq(WIDTH, _ => None)
  }

  /** Extensions extend a branch, and no branch is without children. */
  ghost predicate Shaped(t: Trie) {
    match t
    case Leaf(path, value) => Below(path, WIDTH)
    case Ext(path, child) => path != [] && Below(path, WIDTH) && child.Branch? && Shaped(child)
    case Branch(children, value) =>
      && |children| == WIDTH && HasChild(children)
      && forall i :: 0 <= i < WIDTH && children[i].Some? ==> Shaped(children[i].value)
  }

  ghost predicate HasChild(children: seq<Option<Trie>>) {
    exists i :: 0 <= i < |children| && children[i].Some?
  }

  /** The value at the end of a path; a branch has one even where none was inserted. */
  ghost function Lookup(t: Trie, path: Digits): Option<Bytes> {
    match t
    case Leaf(path', value) => if path == path' then Some(value) else None
    case Ext(path', child) => if path' <= path then Lookup(child, path[|path'|..]) else None
    case Branch(children, value) =>
      if path == [] then Some(value)
      else if path[0] >= |children| || children[path[0]].None? then None
      else Lookup(children[path[0]].value, path[1..])
  }

  /** The node above which a path ends. */
  ghost function EndsAt(t: Trie, path: Digits): Option<Trie> {
    if path == [] then Some(t)
    else
      match t
      case Leaf(_, _) => None
      case Ext(path', child) => if path' <= path then EndsAt(child, path[|path'|..]) else None
      case Branch(children, _) =>
        if path[0] >= |children| || children[path[0]].None? then None else EndsAt(children[path[0]].value, path[1..])
  }

  ghost predicate AtBranch(t: Trie, path: Digits) {
    EndsAt(t, path).Some? && EndsAt(t, path).value.Branch?
  }

  /** The node that a lookup stops at: where the path ends, or at the leaf with the rest of it. */
  ghost function Reached(t: Trie, path: Digits): Option<Trie> {
    if path == [] then Some(t)
    else
      match t
      case Leaf(path', _) => if path' == path then Some(t) else None
      case Ext(path', child) => if path' <= path then Reached(child, path[|path'|..]) else None
      case Branch(children, _) =>
        if path[0] >= |children| || children[path[0]].None? then None else Reached(children[path[0]].value, path[1..])
  }

  /** What a lookup returns: the data of the node it stops at, if that has any. */
  ghost function Got(t: Trie, path: Digits): Option<Bytes> {
    match Reached(t, path)
    case Some(Leaf(_, value)) => Some(value)
    case Some(Branch(_, value)) => Some(value)
    case _ => None
  }

  /** A lookup finds what is stored; besides, it takes a leaf for its own if the path ends there. */
  lemma {:induction false} GotExactly(t: Trie, path: Digits)
    requires Shaped(t)
    ensures Got(t, path) == if Lookup(t, path).Some? then Lookup(t, path) else
      match EndsAt(t, path)
      case Some(Leaf(_, value)) => Some(value)
      case _ => None
    decreases t
  {
    if path != [] {
      match t
      case Leaf(_, _) =>
      case Ext(path', child) =>
        if path' <= path {
          GotExactly(child, path[|path'|..]);
        }
      case Branch(children, _) =>
        if path[0] < |children| && children[path[0]].Some? {
          GotExactly(children[path[0]].value, path[1..]);
        }
    }
  }

  lemma {:induction false} BranchFound(t: Trie, path: Digits)
    ensures AtBranch(t, path) ==> Lookup(t, path).Some?
  {
    if path != [] {
      match t
      case Leaf(_, _) =>
      case Ext(path', child) =>
        if path' <= path {
          BranchFound(child, path[|path'|..]);
        }
      case Branch(children, _) =>
        if path[0] < |children| && children[path[0]].Some? {
          BranchFound(children[path[0]].value, path[1..]);
        }
    }
  }

  // ----- insertion

  /** An extension, unless there is nothing to extend by. */
  ghost function Extended(prefix: Digits, t: Trie): Trie {
    if prefix == [] then t else Ext(prefix, t)
  }

  ghost function Tail(rest: Digits): (r: Digits)
    ensures Below(rest, WIDTH) ==> Below(r, WIDTH)
  {
    if rest == [] then [] else rest[1..]
  }

  /** A subtrie goes where its path begins; an empty path has no place below a branch. */
  ghost function Put(children: seq<Option<Trie>>, rest: Digits, t: Trie): (r: seq<Option<Trie>>)
    requires |children| == WIDTH && Below(rest, WIDTH)
    ensures |r| == WIDTH
  {
    if rest == [] then children else children[rest[0] := Some(t)]
  }

  /** A branch at which two paths part, each with a subtrie behind its first digit. */
  ghost function Fork(a: Digits, ta: Trie, b: Digits, tb: Trie, value: Bytes): Trie
    requires Below(a, WIDTH) && Below(b, WIDTH)
  {
    Branch(Put(Put(NoTries(), a, ta), b, tb), value)
  }

  /** Two paths that part at once, or one of which is empty. */
  ghost predicate Apart(a: Digits, b: Digits) {
    (a != [] || b != []) && (a != [] && b != [] ==> a[0] != b[0])
  }

  ghost function LeafFork(a: Digits, value: Bytes, b: Digits, value': Bytes): Trie
    requires Below(a, WIDTH) && Below(b, WIDTH)
  {
    Fork(a, Leaf(Tail(a), value), b, Leaf(Tail(b), value'), if a == [] then value else if b == [] then value' else [])
  }

  ghost function ExtFork(a: Digits, value: Bytes, b: Digits, child: Trie): Trie
    requires Below(a, WIDTH) && Below(b, WIDTH)
  {
    Fork(a, Leaf(Tail(a), value), b, Extended(Tail(b), child), if a == [] then value else [])
  }

  ghost function InsertInto(t: Trie, path: Digits, value: Bytes): Trie
    requires Shaped(t) && Below(path, WIDTH)
    decreases t
  {
    match t
    case Leaf(path', value') =>
      if path' == path then Leaf(path, value)
      else
        var c := CommonLength(path, path');
        Extended(path[..c], LeafFork(path[c..], value, path'[c..], value'))
    case Ext(path', child) =>
      if path' <= path then Ext(path', InsertInto(child, path[|path'|..], value))
      else
        var c := CommonLength(path, path');
        Extended(path[..c], ExtFork(path[c..], value, path'[c..], child))
    case Branch(children, value') =>
      if path == [] then Branch(children, value)
      else if children[path[0]].None? then Branch(children[path[0] := Some(Leaf(path[1..], value))], value')
      else Branch(children[path[0] := Some(InsertInto(children[path[0]].value, path[1..], value))], value')
  }

  /** What is left of two paths without their common part. */
  lemma PartsApart(a: Digits, b: Digits)
    requires a != b
    ensures var c := CommonLength(a, b); Apart(a[c..], b[c..])
    ensures !(b <= a) ==> b[CommonLength(a, b)..] != []
  {
    var c := CommonLength(a, b);
    assert a == a[..c] + a[c..] && b == b[..c] + b[c..];
  }

  lemma ForkShaped(prefix: Digits, a: Digits, ta: Trie, b: Digits, tb: Trie, value: Bytes)
    requires Below(prefix, WIDTH) && Below(a, WIDTH) && Below(b, WIDTH) && Apart(a, b) && Shaped(ta) && Shaped(tb)
    ensures Shaped(Extended(prefix, Fork(a, ta, b, tb, value)))
  {
    var fork := Fork(a, ta, b, tb, value);
    var i := if a != [] then a[0] else b[0];
    assert fork.children[i].Some?;
    assert Shaped(fork);
  }

  lemma {:induction false} InsertShaped(t: Trie, path: Digits, value: Bytes)
    requires Shaped(t) && Below(path, WIDTH)
    ensures Shaped(InsertInto(t, path, value))
    ensures t.Branch? ==> InsertInto(t, path, value).Branch?
    decreases t
  {
    hide Fork, CommonLength;
    match t
    case Leaf(path', value') =>
      if path' != path {
        PartsApart(path, path');
        var c := CommonLength(path, path');
        var a, b := path[c..], path'[c..];
        ForkShaped(path[..c], a, Leaf(Tail(a), value), b, Leaf(Tail(b), value'), if a == [] then value else if b == [] then value' else []);
      }
    case Ext(path', child) =>
      if path' <= path {
        InsertShaped(child, path[|path'|..], value);
      } else {
        PartsApart(path, path');
        var c := CommonLength(path, path');
        var a, b := path[c..], path'[c..];
        ForkShaped(path[..c], a, Leaf(Tail(a), value), b, Extended(Tail(b), child), if a == [] then value else []);
      }
    case Branch(children, value') =>
      if path != [] {
        if children[path[0]].Some? {
          InsertShaped(children[path[0]].value, path[1..], value);
        }
        assert InsertInto(t, path, value).children[path[0]].Some?;
      }
  }

  // ----- inserting sets one value and keeps the others

  lemma SplitAt(a: Digits, b: Digits, n: nat)
    requires n <= |a| && n <= |b|
    ensures a == b <==> a[..n] == b[..n] && a[n..] == b[n..]
  {
    assert a == a[..n] + a[n..] && b == b[..n] + b[n..];
  }

  lemma FirstAndRest(a: Digits, b: Digits)
    requires a != [] && b != []
    ensures a == b <==> a[0] == b[0] && a[1..] == b[1..]
  {
    assert a == [a[0]] + a[1..] && b == [b[0]] + b[1..];
  }

  lemma PrefixSplit(a: Digits, b: Digits, k: Digits)
    ensures a + b <= k <==> a <= k && b <= k[|a|..]
  {
    if a + b <= k {
      assert k[..|a|] == (a + b)[..|a|] == a;
      assert k[|a|..][..|b|] == k[..|a + b|][|a|..] == b;
    }
    if a <= k && b <= k[|a|..] {
      assert k[..|a + b|] == k[..|a|] + k[|a|..][..|b|];
    }
  }

  /** What a path finds, and whether it ends at a branch. */
  ghost function View(t: Trie, k: Digits): (Option<Bytes>, bool) {
    (Lookup(t, k), AtBranch(t, k))
  }

  const NOTHING: (Option<Bytes>, bool) := (None, false)

  lemma ExtendedView(prefix: Digits, t: Trie, k: Digits)
    ensures View(Extended(prefix, t), k) == if prefix <= k then View(t, k[|prefix|..]) else NOTHING
  {
    if prefix == [] {
      assert k[0..] == k;
    }
  }

  lemma ForkView(a: Digits, ta: Trie, b: Digits, tb: Trie, value: Bytes, k: Digits)
    requires Below(a, WIDTH) && Below(b, WIDTH) && Apart(a, b)
    ensures View(Fork(a, ta, b, tb, value), k) ==
      if k == [] then (Some(value), true)
      else if a != [] && k[0] == a[0] then View(ta, k[1..])
      else if b != [] && k[0] == b[0] then View(tb, k[1..])
      else NOTHING
  {
  }

  lemma LeafView(path: Digits, value: Bytes, k: Digits)
    ensures View(Leaf(path, value), k) == (if k == path then Some(value) else None, false)
  {
  }

  /** A branch for a leaf and something else: at the path of the leaf there is its value, and along
      the other path what is there. */
  lemma SplitView(a: Digits, value: Bytes, b: Digits, tb: Trie, v: Bytes, k: Digits)
    requires Below(a, WIDTH) && Below(b, WIDTH) && Apart(a, b) && (a == [] ==> v == value)
    ensures var fork := Fork(a, Leaf(Tail(a), value), b, tb, v);
      View(fork, k) ==
        if k == a then (Some(value), k == [])
        else if k == [] then (Some(v), true)
        else if b != [] && k[0] == b[0] then View(tb, k[1..])
        else NOTHING
  {
    ForkView(a, Leaf(Tail(a), value), b, tb, v, k);
    if k != [] && a != [] {
      FirstAndRest(k, a);
      LeafView(Tail(a), value, k[1..]);
    }
  }

  /** How a path finds things before and after another value has been inserted: values stay, a branch
      stays a branch, and a new branch has the empty value. */
  ghost predicate Kept(before: (Option<Bytes>, bool), after: (Option<Bytes>, bool)) {
    && (before.0.Some? ==> after.0 == before.0)
    && (before.0.None? ==> after.0 == if after.1 then Some([]) else None)
    && (before.1 ==> after.1)
  }

  lemma BranchParts(t: Trie, path: Digits)
    requires Shaped(t) && t.Branch? && Below(path, WIDTH) && path != []
    ensures path[0] < |t.children| && Below(path[1..], WIDTH)
    ensures t.children[path[0]].Some? ==> Shaped(t.children[path[0]].value)
  {
  }

  lemma {:induction false} InsertView(t: Trie, path: Digits, value: Bytes, k: Digits)
    requires Shaped(t) && Below(path, WIDTH)
    ensures k == path ==> Lookup(InsertInto(t, path, value), k) == Some(value)
    ensures k != path ==> Kept(View(t, k), View(InsertInto(t, path, value), k))
    decreases t
  {
    match t
    case Leaf(path', value') =>
      LeafView(path', value', k);
      if path' == path {
        LeafView(path, value, k);
      } else {
        LeafSplitView(path, value, path', value', k);
      }
    case Ext(path', child) =>
      if path' <= path {
        var after := InsertInto(child, path[|path'|..], value);
        ExtendedView(path', child, k);
        ExtendedView(path', after, k);
        if path' <= k {
          SplitAt(k, path, |path'|);
          InsertView(child, path[|path'|..], value, k[|path'|..]);
        }
      } else {
        ExtSplitView(path, value, path', child, k);
      }
    case Branch(children, value') =>
      BranchFound(t, k);
      if k != [] && path != [] {
        FirstAndRest(k, path);
        BranchParts(t, path);
        if k[0] == path[0] {
          if children[path[0]].Some? {
            InsertView(children[path[0]].value, path[1..], value, k[1..]);
          } else {
            LeafView(path[1..], value, k[1..]);
          }
        }
      }
  }

  /** Where a path lies that begins like two others. */
  lemma Parting(path: Digits, path': Digits, k: Digits)
    requires path != path'
    ensures var c := CommonLength(path, path');
      && path[..c] == path'[..c]
      && (k == path <==> path[..c] <= k && k[c..] == path[c..])
      && (k == path' <==> path[..c] <= k && k[c..] == path'[c..])
      && (path' <= k <==> path[..c] <= k && path'[c..] <= k[c..])
  {
    var c := CommonLength(path, path');
    if c <= |k| {
      SplitAt(k, path, c);
      SplitAt(k, path', c);
    }
    assert path' == path'[..c] + path'[c..];
    PrefixSplit(path'[..c], path'[c..], k);
  }

  lemma LeafSplitView(path: Digits, value: Bytes, path': Digits, value': Bytes, k: Digits)
    requires path != path' && Below(path, WIDTH) && Below(path', WIDTH)
    ensures k == path ==> Lookup(InsertInto(Leaf(path', value'), path, value), k) == Some(value)
    ensures k != path ==> Kept(View(Leaf(path', value'), k), View(InsertInto(Leaf(path', value'), path, value), k))
  {
    hide View, Fork, Extended, CommonLength;
    var c := CommonLength(path, path');
    var a, b := path[c..], path'[c..];
    PartsApart(path, path');
    Parting(path, path', k);
    var v := if a == [] then value else if b == [] then value' else [];
    ExtendedView(path[..c], LeafFork(a, value, b, value'), k);
    LeafView(path', value', k);
    ViewIs(InsertInto(Leaf(path', value'), path, value), k);
    if path[..c] <= k {
      SplitView(a, value, b, Leaf(Tail(b), value'), v, k[c..]);
      if k[c..] != [] && b != [] {
        LeafView(Tail(b), value', k[c..][1..]);
        FirstAndRest(k[c..], b);
      }
    }
  }

  lemma ViewIs(t: Trie, k: Digits)
    ensures View(t, k) == (Lookup(t, k), AtBranch(t, k))
  {
  }

  /** The branch for a new value and for what is left of an extension keeps what the extension had. */
  lemma ExtForkKept(a: Digits, value: Bytes, b: Digits, child: Trie, k: Digits)
    requires Below(a, WIDTH) && Below(b, WIDTH) && Apart(a, b) && b != []
    ensures k == a ==> View(ExtFork(a, value, b, child), k).0 == Some(value)
    ensures k != a ==> Kept(View(Extended(b, child), k), View(ExtFork(a, value, b, child), k))
  {
    hide View, Fork;
    var v := if a == [] then value else [];
    SplitView(a, value, b, Extended(Tail(b), child), v, k);
    ExtendedView(b, child, k);
    if k != [] {
      ExtendedView(Tail(b), child, k[1..]);
      TailPrefix(b, k);
    }
    if b <= k {
      BranchView(child, k[|b|..]);
    }
  }

  /** What an extension finds behind the first digits of its path. */
  lemma ExtRest(path: Digits, c: nat, child: Trie, k: Digits)
    requires path != [] && c <= |path|
    ensures View(Ext(path, child), k) == if path[..c] <= k then View(Extended(path[c..], child), k[c..]) else NOTHING
  {
    hide View;
    assert Ext(path, child) == Extended(path, child);
    ExtendedView(path, child, k);
    assert path == path[..c] + path[c..];
    PrefixSplit(path[..c], path[c..], k);
    if path[..c] <= k {
      ExtendedView(path[c..], child, k[c..]);
      if path <= k {
        assert k[c..][|path[c..]|..] == k[|path|..];
      }
    }
  }

  lemma ExtSplitView(path: Digits, value: Bytes, path': Digits, child: Trie, k: Digits)
    requires Shaped(Ext(path', child)) && Below(path, WIDTH) && !(path' <= path)
    ensures k == path ==> Lookup(InsertInto(Ext(path', child), path, value), k) == Some(value)
    ensures k != path ==> Kept(View(Ext(path', child), k), View(InsertInto(Ext(path', child), path, value), k))
  {
    hide View, Fork, CommonLength, ExtFork, Lookup, AtBranch, EndsAt;
    var c := CommonLength(path, path');
    var a, b := path[c..], path'[c..];
    PartsApart(path, path');
    Parting(path, path', k);
    ExtendedView(path[..c], ExtFork(a, value, b, child), k);
    ExtRest(path', c, child, k);
    ViewIs(InsertInto(Ext(path', child), path, value), k);
    if path[..c] <= k {
      ExtForkKept(a, value, b, child, k[c..]);
    }
  }

  lemma TailPrefix(b: Digits, k: Digits)
    requires b != [] && k != []
    ensures b <= k <==> b[0] == k[0] && Tail(b) <= k[1..]
    ensures b <= k ==> k[1..][|Tail(b)|..] == k[|b|..]
  {
    assert b == [b[0]] + b[1..];
    PrefixSplit([b[0]], b[1..], k);
  }

  lemma BranchView(t: Trie, k: Digits)
    ensures View(t, k).1 ==> View(t, k).0.Some?
  {
    BranchFound(t, k);
  }

  // ----- keys of one length

  /** Every trie has a leaf below it. */
  lemma {:induction false} LeafBelow(t: Trie) returns (path: Digits)
    requires Shaped(t)
    ensures Lookup(t, path).Some? && !AtBranch(t, path) && Below(path, WIDTH) && (!t.Leaf? ==> path != [])
    decreases t
  {
    match t
    case Leaf(path', _) =>
      path := path';
    case Ext(path', child) =>
      var rest := LeafBelow(child);
      path := path' + rest;
      assert path[|path'|..] == rest && path' <= path;
    case Branch(children, _) =>
      var i :| 0 <= i < |children| && children[i].Some?;
      var rest := LeafBelow(children[i].value);
      path := [i] + rest;
      assert path[1..] == rest;
  }

  /** A path that ends at a node of the trie can be continued to a leaf. */
  lemma {:induction false} Continued(t: Trie, path: Digits) returns (more: Digits)
    requires Shaped(t) && EndsAt(t, path).Some? && Below(path, WIDTH)
    ensures Below(more, WIDTH) && Lookup(t, path + more).Some? && !AtBranch(t, path + more)
    ensures more == [] ==> EndsAt(t, path).value.Leaf? && Lookup(t, path).Some?
    decreases t
  {
    if path == [] {
      more := LeafBelow(t);
      assert [] + more == more;
    } else {
      match t
      case Leaf(_, _) => assert false;
      case Ext(path', child) =>
        more := Continued(child, path[|path'|..]);
        assert (path + more)[|path'|..] == path[|path'|..] + more;
        assert path' <= path + more;
      case Branch(children, _) =>
        more := Continued(children[path[0]].value, path[1..]);
        assert (path + more)[1..] == path[1..] + more;
        assert path + more != [] && (path + more)[0] == path[0];
    }
    assert more == [] ==> path + more == path;
  }
}
