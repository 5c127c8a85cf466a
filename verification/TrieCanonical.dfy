/** The trie that insertions build depends on the keys and their values only: branches stand exactly
    where keys part, and extensions hold what keys have in common. */
module TrieCanonical {
  import opened Wrappers
  import opened ByteStrings
  import opened Nibbles
  import opened TrieNodes
  import opened TrieShape

  /** Two keys begin with q and part behind it, or one of them ends there. */
  ghost predicate PartThere(k: Digits, k': Digits, q: Digits) {
    q <= k && q <= k' && k != k' && (|k| == |q| || |k'| == |q| || k[|q|] != k'[|q|])
  }

  ghost predicate PartAt(keys: set<Digits>, q: Digits) {
    exists k, k' :: k in keys && k' in keys && PartThere(k, k', q)
  }

  ghost predicate AnyKey(keys: set<Digits>, q: Digits) {
    exists k :: k in keys && q <= k
  }

  /** The trie stands for the keys that begin with q. */
  ghost predicate Tight(t: Trie, keys: set<Digits>, q: Digits) {
    match t
    case Leaf(path, _) => q + path in keys && forall k :: k in keys && q <= k ==> k == q + path
    case Ext(path, child) =>
      && path != [] && child.Branch? && (forall k :: k in keys && q <= k ==> q + path <= k)
      && Tight(child, keys, q + path)
    case Branch(children, value) =>
      && PartAt(keys, q) && (q !in keys ==> value == []) && |children| == WIDTH
      && (forall k :: k in keys && q <= k && |k| > |q| ==> k[|q|] < WIDTH)
      && (forall i :: 0 <= i < WIDTH ==> (children[i].Some? <==> AnyKey(keys, q + [i])))
      && forall i :: 0 <= i < WIDTH && children[i].Some? ==> Tight(children[i].value, keys, q + [i])
  }

  // ----- prefixes

  lemma Longer(q: Digits, p: Digits, k: Digits)
    ensures q + p <= k <==> q <= k && p <= k[|q|..]
    ensures q + p <= k ==> k[|q|..][|p|..] == k[|q + p|..]
  {
    PrefixSplit(q, p, k);
  }

  lemma NextDigit(q: Digits, i: nat, k: Digits)
    ensures q + [i] <= k <==> q <= k && |k| > |q| && k[|q|] == i
  {
    if q <= k && |k| > |q| && k[|q|] == i {
      assert k[..|q| + 1] == q + [i];
    }
    if q + [i] <= k {
      assert k[..|q|] == (q + [i])[..|q|] == q;
      assert k[|q|] == (q + [i])[|q|];
    }
  }

  // ----- the same keys give the same trie

  /** Only the keys that begin with q matter. */
  lemma {:induction false} TightSame(t: Trie, keys: set<Digits>, more: set<Digits>, q: Digits)
    requires Tight(t, keys, q) && forall k :: q <= k ==> (k in keys <==> k in more)
    ensures Tight(t, more, q)
    decreases t
  {
    match t
    case Leaf(path, _) =>
    case Ext(path, child) =>
      forall k | q + path <= k
        ensures k in keys <==> k in more
      {
        Longer(q, path, k);
      }
      TightSame(child, keys, more, q + path);
    case Branch(children, value) =>
      forall i | 0 <= i < WIDTH
        ensures children[i].Some? <==> AnyKey(more, q + [i])
        ensures children[i].Some? ==> Tight(children[i].value, more, q + [i])
      {
        forall k | q + [i] <= k
          ensures k in keys <==> k in more
        {
          NextDigit(q, i, k);
        }
        if children[i].Some? {
          TightSame(children[i].value, keys, more, q + [i]);
        }
      }
  }

  /** A tight trie has a key. */
  lemma {:induction false} TightKey(t: Trie, keys: set<Digits>, q: Digits) returns (k: Digits)
    requires Tight(t, keys, q)
    ensures k in keys && q <= k
    decreases t
  {
    match t
    case Leaf(path, _) => k := q + path;
    case Ext(path, child) =>
      k := TightKey(child, keys, q + path);
      Longer(q, path, k);
    case Branch(children, value) =>
      var k' :| k' in keys && q <= k';
      k := k';
  }

  /** Both have the same values. */
  ghost predicate Agree(t: Trie, t': Trie, keys: set<Digits>, q: Digits) {
    forall k :: k in keys && q <= k ==> Lookup(t, k[|q|..]) == Lookup(t', k[|q|..])
  }

  /** Keys that go on alike do not part on the way. */
  lemma NoPart(keys: set<Digits>, q: Digits, p: Digits, n: nat)
    requires n < |p| && forall k :: k in keys && q <= k ==> q + p <= k
    ensures !PartAt(keys, q + p[..n])
  {
    forall k | k in keys && q + p[..n] <= k
      ensures |k| > |q + p[..n]| && k[|q + p[..n]|] == p[n]
    {
      Longer(q, p[..n], k);
      Longer(q, p, k);
      assert k[|q + p[..n]|] == k[|q|..][n];
    }
  }

  /** Where keys part there is neither a leaf nor an extension. */
  lemma PartsAreBranches(t: Trie, keys: set<Digits>, q: Digits)
    requires Tight(t, keys, q)
    ensures PartAt(keys, q) <==> t.Branch?
  {
    if t.Ext? {
      NoPart(keys, q, t.path, 0);
      assert q + t.path[..0] == q;
    }
  }

  /** Below an extension all keys go on alike, so it ends where they part. */
  lemma SameExtension(p: Digits, p': Digits, child: Trie, child': Trie, keys: set<Digits>, q: Digits)
    requires Tight(Ext(p, child), keys, q) && Tight(Ext(p', child'), keys, q)
    ensures p == p'
  {
    if |p| < |p'| {
      ShorterExtension(p, p', child, child', keys, q);
    } else if |p'| < |p| {
      ShorterExtension(p', p, child', child, keys, q);
    } else {
      var k := TightKey(Ext(p, child), keys, q);
      Longer(q, p, k);
      Longer(q, p', k);
    }
  }

  lemma ShorterExtension(p: Digits, p': Digits, child: Trie, child': Trie, keys: set<Digits>, q: Digits)
    requires Tight(Ext(p, child), keys, q) && Tight(Ext(p', child'), keys, q)
    ensures |p| >= |p'|
  {
    var k := TightKey(Ext(p, child), keys, q);
    Longer(q, p, k);
    Longer(q, p', k);
    assert |p| <= |p'| ==> p'[..|p|] == p;
    if |p| < |p'| {
      NoPart(keys, q, p', |p|);
    }
  }

  /** Tight tries with the same values for the same keys are the same. */
  lemma {:induction false} SameTrie(t: Trie, t': Trie, keys: set<Digits>, q: Digits)
    requires Tight(t, keys, q) && Tight(t', keys, q) && Agree(t, t', keys, q)
    ensures t == t'
    decreases t, 1
  {
    PartsAreBranches(t, keys, q);
    PartsAreBranches(t', keys, q);
    if t.Branch? {
      SameBranches(t, t', keys, q);
    } else if t.Ext? && t'.Ext? {
      SameExtension(t.path, t'.path, t.child, t'.child, keys, q);
      AgreeBelow(t, t', keys, q);
      SameTrie(t.child, t'.child, keys, q + t.path);
    } else if t.Ext? {
      OneKey(t.path, t.child, t'.path, keys, q);
    } else if t'.Ext? {
      OneKey(t'.path, t'.child, t.path, keys, q);
    } else {
      SameLeaves(t, t', keys, q);
    }
  }

  lemma SameLeaves(t: Trie, t': Trie, keys: set<Digits>, q: Digits)
    requires t.Leaf? && t'.Leaf? && Tight(t, keys, q) && Tight(t', keys, q) && Agree(t, t', keys, q)
    ensures t == t'
  {
    var k, k' := q + t.path, q + t'.path;
    assert k == k';
    assert k[|q|..] == t.path && k'[|q|..] == t'.path;
  }

  /** There are at least two keys below an extension, and only one at a leaf. */
  lemma OneKey(path: Digits, child: Trie, path': Digits, keys: set<Digits>, q: Digits)
    requires Tight(Ext(path, child), keys, q) && q + path' in keys
    ensures exists k :: k in keys && q <= k && k != q + path'
  {
    var k, k' :| k in keys && k' in keys && PartThere(k, k', q + path);
    Longer(q, path, k);
    Longer(q, path, k');
  }

  lemma AgreeBelow(t: Trie, t': Trie, keys: set<Digits>, q: Digits)
    requires t.Ext? && t'.Ext? && t.path == t'.path && Agree(t, t', keys, q)
    ensures Agree(t.child, t'.child, keys, q + t.path)
  {
    forall k | k in keys && q + t.path <= k
      ensures Lookup(t.child, k[|q + t.path|..]) == Lookup(t'.child, k[|q + t.path|..])
    {
      Longer(q, t.path, k);
      assert Lookup(t, k[|q|..]) == Lookup(t', k[|q|..]);
    }
  }

  lemma AgreeChild(t: Trie, t': Trie, keys: set<Digits>, q: Digits, i: nat)
    requires t.Branch? && t'.Branch? && i < |t.children| == |t'.children| && t.children[i].Some? && t'.children[i].Some?
    requires Agree(t, t', keys, q)
    ensures Agree(t.children[i].value, t'.children[i].value, keys, q + [i])
  {
    forall k | k in keys && q + [i] <= k
      ensures Lookup(t.children[i].value, k[|q + [i]|..]) == Lookup(t'.children[i].value, k[|q + [i]|..])
    {
      NextDigit(q, i, k);
      assert k[|q|..][0] == i && k[|q|..][1..] == k[|q + [i]|..];
      assert Lookup(t, k[|q|..]) == Lookup(t', k[|q|..]);
    }
  }

  lemma {:induction false} SameBranches(t: Trie, t': Trie, keys: set<Digits>, q: Digits)
    requires t.Branch? && t'.Branch? && Tight(t, keys, q) && Tight(t', keys, q) && Agree(t, t', keys, q)
    ensures t == t'
    decreases t, 0
  {
    forall i | 0 <= i < WIDTH
      ensures t.children[i] == t'.children[i]
    {
      if t.children[i].Some? {
        assert AnyKey(keys, q + [i]);
        AgreeChild(t, t', keys, q, i);
        SameTrie(t.children[i].value, t'.children[i].value, keys, q + [i]);
      }
    }
    assert t.children == t'.children;
    if q in keys {
      assert q[|q|..] == [];
      assert Lookup(t, q[|q|..]) == Lookup(t', q[|q|..]);
    }
  }

  // ----- insertion

  lemma ExtendedTight(prefix: Digits, t: Trie, keys: set<Digits>, q: Digits)
    requires Tight(t, keys, q + prefix) && (prefix != [] ==> t.Branch?)
    requires forall k :: k in keys && q <= k ==> q + prefix <= k
    ensures Tight(Extended(prefix, t), keys, q)
  {
    if prefix == [] {
      assert q + prefix == q;
    }
  }

  /** A branch for two paths that part: every key begins with one of their first digits, or ends there. */
  lemma ForkTight(a: Digits, ta: Trie, b: Digits, tb: Trie, value: Bytes, keys: set<Digits>, q: Digits, k1: Digits, k2: Digits)
    requires Below(a, WIDTH) && Below(b, WIDTH) && Apart(a, b)
    requires k1 in keys && k2 in keys && Begins(k1, q, a) && Begins(k2, q, b)
    requires forall k :: k in keys && q <= k ==> Begins(k, q, a) || Begins(k, q, b)
    requires a != [] ==> Tight(ta, keys, q + [a[0]])
    requires b != [] ==> Tight(tb, keys, q + [b[0]])
    requires q !in keys ==> value == []
    ensures Tight(Fork(a, ta, b, tb, value), keys, q)
  {
    var children := Put(Put(NoTries(), a, ta), b, tb);
    assert PartThere(k1, k2, q);
    forall k | k in keys && q <= k && |k| > |q|
      ensures k[|q|] < WIDTH
    {
      assert Begins(k, q, a) || Begins(k, q, b);
    }
    forall i | 0 <= i < WIDTH
      ensures children[i].Some? <==> AnyKey(keys, q + [i])
      ensures children[i].Some? ==> Tight(children[i].value, keys, q + [i])
    {
      ForkSlot(a, ta, b, tb, keys, q, k1, k2, i);
    }
  }

  /** The key goes on with the first digit of that path, or ends there if the path is empty. */
  ghost predicate Begins(k: Digits, q: Digits, a: Digits) {
    q <= k && if a == [] then k == q else |k| > |q| && k[|q|] == a[0]
  }

  lemma ForkSlot(a: Digits, ta: Trie, b: Digits, tb: Trie, keys: set<Digits>, q: Digits, k1: Digits, k2: Digits, i: nat)
    requires Below(a, WIDTH) && Below(b, WIDTH) && Apart(a, b) && i < WIDTH
    requires k1 in keys && k2 in keys && Begins(k1, q, a) && Begins(k2, q, b)
    requires forall k :: k in keys && q <= k ==> Begins(k, q, a) || Begins(k, q, b)
    requires a != [] ==> Tight(ta, keys, q + [a[0]])
    requires b != [] ==> Tight(tb, keys, q + [b[0]])
    ensures var children := Put(Put(NoTries(), a, ta), b, tb);
      && (children[i].Some? <==> AnyKey(keys, q + [i]))
      && (children[i].Some? ==> Tight(children[i].value, keys, q + [i]))
  {
    NextDigit(q, i, k1);
    NextDigit(q, i, k2);
    if AnyKey(keys, q + [i]) {
      var k :| k in keys && q + [i] <= k;
      NextDigit(q, i, k);
      assert Begins(k, q, a) || Begins(k, q, b);
    }
  }

  /** What is inserted and what was there. */
  ghost function With(keys: set<Digits>, q: Digits, path: Digits): set<Digits> {
    keys + {q + path}
  }

  /** Nothing is inserted below another prefix. */
  lemma OtherTight(t: Trie, keys: set<Digits>, r: Digits, k: Digits)
    requires Tight(t, keys, r) && !(r <= k)
    ensures Tight(t, keys + {k}, r)
  {
    TightSame(t, keys, keys + {k}, r);
  }

  lemma {:induction false} InsertTight(t: Trie, path: Digits, value: Bytes, keys: set<Digits>, q: Digits)
    requires Shaped(t) && Below(path, WIDTH) && Tight(t, keys, q)
    ensures Tight(InsertInto(t, path, value), With(keys, q, path), q)
    decreases t, 1
  {
    match t
    case Leaf(path', value') =>
      if path' == path {
        assert With(keys, q, path) == keys;
      } else {
        LeafForkTight(path', value', path, value, keys, q);
      }
    case Ext(path', child) =>
      if path' <= path {
        ExtInsertTight(path', child, path, value, keys, q);
      } else {
        ExtForkTight(path', child, path, value, keys, q);
      }
    case Branch(children, value') =>
      if path == [] {
        BranchValueTight(t, value, keys, q);
      } else if children[path[0]].None? {
        BranchLeafTight(t, path, value, keys, q);
      } else {
        BranchInsertTight(t, path, value, keys, q);
      }
  }

  lemma {:induction false} ExtInsertTight(path': Digits, child: Trie, path: Digits, value: Bytes, keys: set<Digits>, q: Digits)
    requires Shaped(Ext(path', child)) && Below(path, WIDTH) && Tight(Ext(path', child), keys, q) && path' <= path
    ensures Tight(InsertInto(Ext(path', child), path, value), With(keys, q, path), q)
    decreases Ext(path', child), 0
  {
    hide InsertInto, CommonLength;
    var n := |path'|;
    var rest := path[n..];
    Cut(q, path, n);
    Behind(q, path);
    assert path[..n] == path';
    assert Below(rest, WIDTH);
    InsertTight(child, rest, value, keys, q + path');
    InsertShaped(child, rest, value);
    InsertedExt(path', child, path, value);
    MoreExt(path', child, InsertInto(child, rest, value), keys, q, rest);
  }

  lemma InsertedExt(path': Digits, child: Trie, path: Digits, value: Bytes)
    requires Shaped(Ext(path', child)) && Below(path, WIDTH) && path' <= path
    ensures InsertInto(Ext(path', child), path, value) == Ext(path', InsertInto(child, path[|path'|..], value))
  {
  }

  /** One more key below an extension. */
  lemma MoreExt(path: Digits, child: Trie, child': Trie, keys: set<Digits>, q: Digits, rest: Digits)
    requires Tight(Ext(path, child), keys, q) && child'.Branch? && Tight(child', With(keys, q + path, rest), q + path)
    ensures Tight(Ext(path, child'), With(keys, q + path, rest), q)
  {
    Behind(q + path, rest);
  }

  lemma PartMore(keys: set<Digits>, more: set<Digits>, q: Digits)
    requires keys <= more && PartAt(keys, q)
    ensures PartAt(more, q)
  {
    var k, k' :| k in keys && k' in keys && PartThere(k, k', q);
    assert k in more && k' in more;
  }

  /** A new value at a branch. */
  lemma BranchValueTight(t: Trie, value: Bytes, keys: set<Digits>, q: Digits)
    requires t.Branch? && Tight(t, keys, q)
    ensures Tight(Branch(t.children, value), With(keys, q, []), q)
  {
    var more := With(keys, q, []);
    assert q + [] == q;
    PartMore(keys, more, q);
    forall i | 0 <= i < WIDTH
      ensures t.children[i].Some? <==> AnyKey(more, q + [i])
      ensures t.children[i].Some? ==> Tight(t.children[i].value, more, q + [i])
    {
      assert !(q + [i] <= q);
      AnyMore(keys, q, q + [i]);
      if t.children[i].Some? {
        OtherTight(t.children[i].value, keys, q + [i], q);
      }
    }
  }

  lemma AnyMore(keys: set<Digits>, k: Digits, r: Digits)
    ensures AnyKey(keys + {k}, r) <==> AnyKey(keys, r) || r <= k
  {
    if AnyKey(keys, r) {
      var k' :| k' in keys && r <= k';
      assert k' in keys + {k};
    }
    assert k in keys + {k};
  }

  /** A new subtrie in one slot of a branch. */
  lemma SlotTight(t: Trie, d: nat, sub: Trie, keys: set<Digits>, k: Digits, q: Digits)
    requires t.Branch? && Tight(t, keys, q) && d < WIDTH && q + [d] <= k && Tight(sub, keys + {k}, q + [d])
    ensures Tight(Branch(t.children[d := Some(sub)], t.value), keys + {k}, q)
  {
    var more, children := keys + {k}, t.children[d := Some(sub)];
    PartMore(keys, more, q);
    NextDigit(q, d, k);
    assert q != k;
    forall i | 0 <= i < WIDTH
      ensures children[i].Some? <==> AnyKey(more, q + [i])
      ensures children[i].Some? ==> Tight(children[i].value, more, q + [i])
    {
      AnyMore(keys, k, q + [i]);
      NextDigit(q, i, k);
      if i != d && t.children[i].Some? {
        OtherTight(t.children[i].value, keys, q + [i], k);
      }
    }
  }

  lemma BranchLeafTight(t: Trie, path: Digits, value: Bytes, keys: set<Digits>, q: Digits)
    requires t.Branch? && Shaped(t) && Below(path, WIDTH) && path != [] && Tight(t, keys, q) && t.children[path[0]].None?
    ensures Tight(InsertInto(t, path, value), With(keys, q, path), q)
  {
    var d, k := path[0], q + path;
    FirstOf(q, path);
    assert !AnyKey(keys, q + [d]);
    SlotTight(t, d, Leaf(path[1..], value), keys, k, q);
  }

  lemma FirstOf(q: Digits, path: Digits)
    requires path != []
    ensures q + [path[0]] + path[1..] == q + path && q + [path[0]] <= q + path
  {
    assert path == [path[0]] + path[1..];
    Longer(q, [path[0]], q + path);
    assert (q + path)[|q|..] == path;
  }

  lemma {:induction false} BranchInsertTight(t: Trie, path: Digits, value: Bytes, keys: set<Digits>, q: Digits)
    requires t.Branch? && Shaped(t) && Below(path, WIDTH) && path != [] && Tight(t, keys, q) && t.children[path[0]].Some?
    ensures Tight(InsertInto(t, path, value), With(keys, q, path), q)
    decreases t, 0
  {
    var d, k := path[0], q + path;
    FirstOf(q, path);
    InsertTight(t.children[d].value, path[1..], value, keys, q + [d]);
    assert With(keys, q + [d], path[1..]) == With(keys, q, path);
    SlotTight(t, d, InsertInto(t.children[d].value, path[1..], value), keys, k, q);
  }

  lemma BeginsOwn(r: Digits, a: Digits)
    ensures Begins(r + a, r, a)
  {
  }

  /** A leaf for the only key that begins so. */
  lemma LeafTight(r: Digits, a: Digits, value: Bytes, keys: set<Digits>)
    requires a != [] && r + a in keys && forall k :: k in keys && r + [a[0]] <= k ==> k == r + a
    ensures Tight(Leaf(Tail(a), value), keys, r + [a[0]])
  {
    FirstOf(r, a);
  }

  /** What two different paths have in common, and what is left of them. */
  lemma CommonPart(q: Digits, path: Digits, path': Digits)
    requires path != path'
    ensures var c := CommonLength(path, path');
      && Apart(path[c..], path'[c..])
      && q + path == q + path[..c] + path[c..] && q + path' == q + path[..c] + path'[c..]
      && q + path != q + path' && q <= q + path[..c]
  {
    hide *;
    var c := CommonLength(path, path');
    CommonPrefix(path, path');
    PartsApart(path, path');
    Cut(q, path, c);
    Cut(q, path', c);
    Behind(q, path);
    Behind(q, path');
  }

  lemma CommonPrefix(path: Digits, path': Digits)
    ensures var c := CommonLength(path, path'); c <= |path| && c <= |path'| && path[..c] == path'[..c]
  {
  }

  /** A path cut in two. */
  lemma Cut(q: Digits, path: Digits, c: nat)
    requires c <= |path|
    ensures q + path == q + path[..c] + path[c..] && q <= q + path[..c]
  {
  }

  lemma Behind(q: Digits, path: Digits)
    ensures q <= q + path && (q + path)[|q|..] == path
  {
  }

  lemma LeafForkTight(path': Digits, value': Bytes, path: Digits, value: Bytes, keys: set<Digits>, q: Digits)
    requires Below(path', WIDTH) && Below(path, WIDTH) && path != path' && Tight(Leaf(path', value'), keys, q)
    ensures Tight(InsertInto(Leaf(path', value'), path, value), With(keys, q, path), q)
  {
    var c := CommonLength(path, path');
    CommonPart(q, path, path');
    var prefix, a, b := path[..c], path[c..], path'[c..];
    var r, more := q + prefix, With(keys, q, path);
    TwoKeys(keys, q, r, a, b);
    var own := if a == [] then value else if b == [] then value' else [];
    BeginsOwn(r, a);
    BeginsOwn(r, b);
    if a != [] {
      LeafTight(r, a, value, more);
    }
    if b != [] {
      LeafTight(r, b, value', more);
    }
    assert a == [] ==> r + a == r;
    assert b == [] ==> r + b == r;
    ForkTight(a, Leaf(Tail(a), value), b, Leaf(Tail(b), value'), own, more, r, r + a, r + b);
    ExtendedTight(prefix, LeafFork(a, value, b, value'), more, q);
  }

  /** One key was there, and another one comes. */
  lemma TwoKeys(keys: set<Digits>, q: Digits, r: Digits, a: Digits, b: Digits)
    requires q <= r && Apart(a, b) && r + b in keys && forall k :: k in keys && q <= k ==> k == r + b
    ensures forall k :: k in keys + {r + a} && q <= k ==> k == r + a || k == r + b
    ensures forall k :: k in keys + {r + a} && q <= k ==> r <= k && (Begins(k, r, a) || Begins(k, r, b))
    ensures a != [] ==> forall k :: k in keys + {r + a} && r + [a[0]] <= k ==> k == r + a
    ensures b != [] ==> forall k :: k in keys + {r + a} && r + [b[0]] <= k ==> k == r + b
  {
    BeginsOwn(r, a);
    BeginsOwn(r, b);
    forall k, i: nat | k in keys + {r + a} && r + [i] <= k
      ensures k == r + a || k == r + b
      ensures (k == r + a ==> a != [] && a[0] == i) && (k == r + b ==> b != [] && b[0] == i)
    {
      NextDigit(r, i, k);
      assert q <= k;
    }
  }

  lemma ExtForkTight(path': Digits, child: Trie, path: Digits, value: Bytes, keys: set<Digits>, q: Digits)
    requires Shaped(Ext(path', child)) && Below(path, WIDTH) && !(path' <= path) && Tight(Ext(path', child), keys, q)
    ensures Tight(InsertInto(Ext(path', child), path, value), With(keys, q, path), q)
  {
    var c := CommonLength(path, path');
    var prefix, a, b := path[..c], path[c..], path'[c..];
    var r, more := q + prefix, With(keys, q, path);
    assert Below(prefix, WIDTH) && Below(a, WIDTH) && Below(b, WIDTH);
    InsertedFork(path', child, path, value);
    ExtParts(path', child, keys, q);
    hide Tight, Fork, InsertInto, Shaped, CommonLength, Extended, ExtFork, Apart, Below;
    CommonPart(q, path, path');
    PartsApart(path, path');
    var present := TightKey(Ext(path', child), keys, q);
    assert r + b <= present;
    NewKey(keys, q, r, a, b);
    BeginsOwn(r, a);
    BeginsMore(present, r, b);
    RestTight(b, child, keys, q, r);
    if a != [] {
      LeafTight(r, a, value, more);
    }
    NotBelow(r, a, b);
    OtherTight(Extended(Tail(b), child), keys, r + [b[0]], r + a);
    assert a == [] ==> r + a == r;
    ForkTight(a, Leaf(Tail(a), value), b, Extended(Tail(b), child), if a == [] then value else [], more, r, r + a, present);
    ExtendedTight(prefix, ExtFork(a, value, b, child), more, q);
  }

  lemma InsertedFork(path': Digits, child: Trie, path: Digits, value: Bytes)
    requires Shaped(Ext(path', child)) && Below(path, WIDTH) && !(path' <= path)
    ensures var c := CommonLength(path, path');
      && child.Branch? && Below(path[c..], WIDTH) && Below(path'[c..], WIDTH)
      && InsertInto(Ext(path', child), path, value) == Extended(path[..c], ExtFork(path[c..], value, path'[c..], child))
      && ExtFork(path[c..], value, path'[c..], child).Branch?
      && ExtFork(path[c..], value, path'[c..], child) == Fork(path[c..], Leaf(Tail(path[c..]), value), path'[c..],
           Extended(Tail(path'[c..]), child), if path[c..] == [] then value else [])
  {
    hide CommonLength, Extended;
  }

  lemma ExtParts(path: Digits, child: Trie, keys: set<Digits>, q: Digits)
    requires Tight(Ext(path, child), keys, q)
    ensures (forall k :: k in keys && q <= k ==> q + path <= k) && Tight(child, keys, q + path)
  {
  }

  lemma BeginsMore(k: Digits, r: Digits, b: Digits)
    requires b != [] && r + b <= k
    ensures Begins(k, r, b)
  {
    Longer(r, b, k);
    assert k[|r|] == k[|r|..][0];
  }

  lemma NotBelow(r: Digits, a: Digits, b: Digits)
    requires Apart(a, b) && b != []
    ensures !(r + [b[0]] <= r + a)
  {
    NextDigit(r, b[0], r + a);
  }

  /** What is left of the extension stands behind its next digit. */
  lemma RestTight(b: Digits, child: Trie, keys: set<Digits>, q: Digits, r: Digits)
    requires b != [] && child.Branch? && Tight(child, keys, r + b) && q <= r && forall k :: k in keys && q <= k ==> r + b <= k
    ensures Tight(Extended(Tail(b), child), keys, r + [b[0]])
  {
    FirstOf(r, b);
    forall k | k in keys && r + [b[0]] <= k
      ensures r + [b[0]] + b[1..] <= k
    {
      assert q <= k;
    }
    ExtendedTight(Tail(b), child, keys, r + [b[0]]);
  }

  /** All keys went on alike, and another one comes. */
  lemma NewKey(keys: set<Digits>, q: Digits, r: Digits, a: Digits, b: Digits)
    requires q <= r && Apart(a, b) && b != [] && forall k :: k in keys && q <= k ==> r + b <= k
    ensures forall k :: k in keys + {r + a} && q <= k ==> r <= k && (Begins(k, r, a) || Begins(k, r, b))
    ensures a != [] ==> forall k :: k in keys + {r + a} && r + [a[0]] <= k ==> k == r + a
    ensures r in keys + {r + a} ==> a == []
  {
    BeginsOwn(r, a);
    forall k | k in keys && q <= k
      ensures r <= k && Begins(k, r, b)
    {
      Longer(r, b, k);
      BeginsMore(k, r, b);
    }
    if a != [] {
      forall k | k in keys + {r + a} && r + [a[0]] <= k
        ensures k == r + a
      {
        NextDigit(r, a[0], k);
        assert q <= k;
      }
    }
  }

  // ----- where lookups end

  /** A path ends at a branch exactly where keys part. */
  lemma {:induction false} BranchExactly(t: Trie, keys: set<Digits>, q: Digits, k: Digits)
    requires Tight(t, keys, q) && Below(k, WIDTH)
    ensures AtBranch(t, k) <==> PartAt(keys, q + k)
    decreases t
  {
    if k == [] {
      assert q + k == q;
      PartsAreBranches(t, keys, q);
    } else {
      match t
      case Leaf(path, _) =>
        NoParting(keys, q, path, k);
      case Ext(path, child) =>
        if path <= k {
          Cut(q, k, |path|);
          assert k[..|path|] == path;
          BranchExactly(child, keys, q + path, k[|path|..]);
        } else {
          OffExtension(keys, q, path, k);
        }
      case Branch(children, value) =>
        FirstOf(q, k);
        if children[k[0]].Some? {
          BranchExactly(children[k[0]].value, keys, q + [k[0]], k[1..]);
        } else {
          NoKeys(keys, q + [k[0]], q + k);
        }
    }
  }

  lemma NoKeys(keys: set<Digits>, r: Digits, k: Digits)
    requires !AnyKey(keys, r) && r <= k
    ensures !PartAt(keys, k)
  {
  }

  lemma NoParting(keys: set<Digits>, q: Digits, path: Digits, k: Digits)
    requires forall k :: k in keys && q <= k ==> k == q + path
    ensures !PartAt(keys, q + k)
  {
  }

  lemma OffExtension(keys: set<Digits>, q: Digits, path: Digits, k: Digits)
    requires (forall k :: k in keys && q <= k ==> q + path <= k) && !(path <= k)
    ensures !PartAt(keys, q + k)
  {
    if k <= path {
      assert |k| < |path| && path[..|k|] == k;
      NoPart(keys, q, path, |k|);
    } else {
      forall k' | k' in keys && q + k <= k'
        ensures false
      {
        Longer(q, k, k');
        Longer(q, path, k');
      }
    }
  }
}
