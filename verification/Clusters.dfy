/** Grouping constraints that share signals: build_clusters in
    constraint_list/src/constraint_simplification.rs, a union-find with path
    compression whose links always lead to younger clusters. */
module Clusters {
  import opened Wrappers
  import opened Coefficients
  import opened Constraints

  datatype Cluster = Cluster(constraints: seq<Constraint>, numSignals: nat)

  const NOBODY := Cluster([], 0)

  function MergeClusters(c0: Cluster, c1: Cluster): Cluster
    requires c0.numSignals + c1.numSignals > 0
  {
    Cluster(c0.constraints + c1.constraints, c0.numSignals + c1.numSignals - 1)
  }

  type Path = seq<nat>

  ghost predicate Forest(path: Path) {
    forall i :: 0 <= i < |path| ==> i <= path[i] < |path|
  }

  /** The representative of a cluster. */
  ghost function Root(path: Path, i: nat): (r: nat)
    requires Forest(path) && i < |path|
    ensures i <= r < |path| && path[r] == r
    decreases |path| - i
  {
    if path[i] == i then i else Root(path, path[i])
  }

  ghost predicate SameRoots(path: Path, path': Path) {
    && |path| == |path'| && Forest(path) && Forest(path')
    && (forall i :: 0 <= i < |path| ==> Root(path', i) == Root(path, i))
    && (forall i :: 0 <= i < |path| ==> (path'[i] == i <==> path[i] == i))
  }

  lemma {:induction false} RootRedirected(path: Path, j: nat, i: nat)
    requires Forest(path) && j < |path| && i < |path|
    ensures Forest(path[j := Root(path, j)])
    ensures Root(path[j := Root(path, j)], i) == Root(path, i)
    decreases |path| - i
  {
    var path' := path[j := Root(path, j)];
    var r := Root(path, j);
    assert path'[r] == r;
    if path[i] != i {
      if i == j {
        assert Root(path', i) == Root(path', r) == r;
      } else {
        RootRedirected(path, j, path[i]);
      }
    }
  }

  lemma {:induction false} RootLinked(path: Path, r: nat, d: nat, i: nat)
    requires Forest(path) && r <= d < |path| && i < |path| && path[r] == r && path[d] == d
    ensures Forest(path[r := d])
    ensures Root(path[r := d], i) == if Root(path, i) == r then d else Root(path, i)
    decreases |path| - i
  {
    var path' := path[r := d];
    assert path'[d] == d;
    if path[i] != i {
      RootLinked(path, r, d, path[i]);
    } else if i == r {
      assert Root(path', i) == d;
    }
  }

  lemma {:induction false} RootAppended(path: Path, i: nat)
    requires Forest(path) && i < |path|
    ensures Forest(path + [|path|])
    ensures Root(path + [|path|], i) == Root(path, i)
    decreases |path| - i
  {
    if path[i] != i {
      RootAppended(path, path[i]);
    }
  }

  /** A root reached on the way is the root from there on. */
  lemma RootStep(path: Path, i: nat)
    requires Forest(path) && i < |path|
    ensures Root(path, path[i]) == Root(path, i)
  {
  }

  class ClusterArena {
    var arena: seq<Option<Cluster>>
    var clusterToCurrent: Path

    constructor ()
      ensures arena == [] && clusterToCurrent == []
    {
      arena, clusterToCurrent := [], [];
    }

    method Push(cluster: Cluster)
      modifies this
      ensures arena == old(arena) + [Some(cluster)]
      ensures clusterToCurrent == old(clusterToCurrent) + [|old(arena)|]
    {
      var dest := |arena|;
      arena := arena + [Some(cluster)];
      clusterToCurrent := clusterToCurrent + [dest];
    }

    /** Finds a representative and shortens the path to it. */
    method ShrinkJumpsAndFind(org: nat) returns (current: nat)
      requires Forest(clusterToCurrent) && org < |clusterToCurrent|
      modifies this`clusterToCurrent
      ensures SameRoots(old(clusterToCurrent), clusterToCurrent)
      ensures current == Root(old(clusterToCurrent), org)
    {
      current := org;
      var jumps: seq<nat> := [];
      while current != clusterToCurrent[current]
        invariant current < |clusterToCurrent| && clusterToCurrent == old(clusterToCurrent)
        invariant Root(clusterToCurrent, current) == Root(clusterToCurrent, org)
        invariant forall j :: j in jumps ==> j < current && Root(clusterToCurrent, j) == Root(clusterToCurrent, org)
        decreases |clusterToCurrent| - current
      {
        jumps := jumps + [current];
        RootStep(clusterToCurrent, current);
        current := clusterToCurrent[current];
      }
      while jumps != []
        invariant SameRoots(old(clusterToCurrent), clusterToCurrent)
        invariant clusterToCurrent[current] == current
        invariant forall j :: j in jumps ==> j < current && Root(clusterToCurrent, j) == current
      {
        var redirect := jumps[|jumps| - 1];
        ghost var before, all := clusterToCurrent, jumps;
        assert redirect in all;
        jumps := jumps[..|jumps| - 1];
        assert forall j :: j in jumps ==> j in all;
        clusterToCurrent := clusterToCurrent[redirect := current];
        Redirected(before, redirect);
      }
    }

    static lemma Redirected(path: Path, j: nat)
      requires Forest(path) && j < |path| && path[j] != j
      ensures SameRoots(path, path[j := Root(path, j)])
    {
      forall i | 0 <= i < |path|
        ensures Forest(path[j := Root(path, j)]) && Root(path[j := Root(path, j)], i) == Root(path, i)
      {
        RootRedirected(path, j, i);
      }
    }

    /** Joins two clusters under the representative of the destination. */
    method ArenaMerge(src: nat, dest: nat)
      requires Forest(clusterToCurrent) && src < |clusterToCurrent| && dest < |clusterToCurrent| == |arena|
      requires Root(clusterToCurrent, src) <= Root(clusterToCurrent, dest)
      requires var r, d := Root(clusterToCurrent, src), Root(clusterToCurrent, dest);
        && arena[r].Some? && arena[d].Some?
        && arena[d].value.numSignals + (if r == d then 0 else arena[r].value.numSignals) > 0
      modifies this
      ensures var r, d := Root(old(clusterToCurrent), src), Root(old(clusterToCurrent), dest);
        && Linked(old(clusterToCurrent), clusterToCurrent, r, d)
        && arena == if r == d
                    then old(arena)[d := Some(MergeClusters(old(arena)[d].value, NOBODY))]
                    else old(arena)[r := None][d := Some(MergeClusters(old(arena)[d].value, old(arena)[r].value))]
    {
      var currentDest := ShrinkJumpsAndFind(dest);
      var currentSrc := ShrinkJumpsAndFind(src);
      var c0 := if arena[currentDest].Some? then arena[currentDest].value else NOBODY;
      arena := arena[currentDest := None];
      var c1 := if arena[currentSrc].Some? then arena[currentSrc].value else NOBODY;
      arena := arena[currentSrc := None];
      var merged := MergeClusters(c0, c1);
      arena := arena[currentDest := Some(merged)];
      ghost var before := clusterToCurrent;
      clusterToCurrent := clusterToCurrent[currentSrc := currentDest];
      LinkedBy(before, currentSrc, currentDest);
    }
  }

  /** Every cluster under r is now under d; nothing else has moved. */
  ghost predicate Linked(path: Path, path': Path, r: nat, d: nat) {
    && |path| == |path'| && Forest(path) && Forest(path')
    && (forall i :: 0 <= i < |path| ==> Root(path', i) == if Root(path, i) == r then d else Root(path, i))
    && (forall i :: 0 <= i < |path| ==> (path'[i] == i <==> path[i] == i && (i != r || r == d)))
  }

  lemma LinkedBy(path: Path, r: nat, d: nat)
    requires Forest(path) && r <= d < |path| && path[r] == r && path[d] == d
    ensures Linked(path, path[r := d], r, d)
  {
    forall i | 0 <= i < |path|
      ensures Forest(path[r := d])
      ensures Root(path[r := d], i) == if Root(path, i) == r then d else Root(path, i)
    {
      RootLinked(path, r, d, i);
    }
  }

  // ----- connectivity

  ghost predicate Share(c: Constraint, d: Constraint) {
    exists s :: s in SignalsOf(c) && s in SignalsOf(d)
  }

  /** Constraints i and j lie on different sides of the cut and share a signal. */
  ghost predicate Crosses(cs: seq<Constraint>, side: set<nat>, i: nat, j: nat) {
    i < |cs| && j < |cs| && i in side && j !in side && Share(cs[i], cs[j])
  }

  /** Both sides of the cut contain one of the numbers below n. */
  ghost predicate Cuts(n: nat, side: set<nat>) {
    (exists i :: 0 <= i < n && i in side) && (exists j :: 0 <= j < n && j !in side)
  }

  ghost predicate Bridged(cs: seq<Constraint>, side: set<nat>) {
    exists i: nat, j: nat :: Crosses(cs, side, i, j)
  }

  /** The list cannot be cut into two non-empty parts without a shared signal. */
  ghost predicate Connected(cs: seq<Constraint>) {
    forall side :: Cuts(|cs|, side) ==> Bridged(cs, side)
  }

  lemma ConnectedSingle(c: Constraint)
    ensures Connected([c])
  {
  }

  ghost function Shifted(side: set<nat>, n: nat): set<nat> {
    set i | i in side && i >= n :: i - n
  }

  lemma ShiftedIn(side: set<nat>, n: nat, i: nat)
    ensures i in Shifted(side, n) <==> n + i in side
  {
    assert n + i in side ==> (n + i) - n in Shifted(side, n);
  }

  /** Two connected lists with a common signal are connected when joined. */
  lemma ConnectedJoin(cs: seq<Constraint>, ds: seq<Constraint>, k: nat, l: nat)
    requires Connected(cs) && Connected(ds)
    requires k < |cs| && l < |ds| && Share(cs[k], ds[l])
    ensures Connected(cs + ds)
  {
    forall side | Cuts(|cs + ds|, side)
      ensures Bridged(cs + ds, side)
    {
      JoinBridged(cs, ds, side, k, l);
    }
  }

  lemma JoinBridged(cs: seq<Constraint>, ds: seq<Constraint>, side: set<nat>, k: nat, l: nat)
    requires Connected(cs) && Connected(ds) && Cuts(|cs + ds|, side)
    requires k < |cs| && l < |ds| && Share(cs[k], ds[l])
    ensures Bridged(cs + ds, side)
  {
    hide Share;
    var n := |cs|;
    var es, side' := cs + ds, Shifted(side, n);
    if Cuts(n, side) {
      assert Bridged(cs, side);
      var i: nat, j: nat :| Crosses(cs, side, i, j);
      assert Crosses(es, side, i, j);
    } else if Cuts(|ds|, side') {
      assert Bridged(ds, side');
      var i: nat, j: nat :| Crosses(ds, side', i, j);
      ShiftedIn(side, n, i);
      ShiftedIn(side, n, j);
      assert Crosses(es, side, n + i, n + j);
    } else {
      WholeSides(n, |ds|, side, k, l);
      ShareSymmetric(cs[k], ds[l]);
      if k in side {
        assert Crosses(es, side, k, n + l);
      } else {
        assert Crosses(es, side, n + l, k);
      }
    }
  }

  lemma ShareSymmetric(c: Constraint, d: Constraint)
    requires Share(c, d)
    ensures Share(d, c)
  {
  }

  /** If neither part is cut, the cut runs between the parts. */
  lemma WholeSides(n: nat, m: nat, side: set<nat>, k: nat, l: nat)
    requires k < n && l < m && Cuts(n + m, side)
    requires !Cuts(n, side) && !Cuts(m, Shifted(side, n))
    ensures k in side <==> n + l !in side
  {
    var i :| 0 <= i < n + m && i in side;
    var j :| 0 <= j < n + m && j !in side;
    ShiftedIn(side, n, l);
    if i >= n {
      ShiftedIn(side, n, i - n);
    }
    if j >= n {
      ShiftedIn(side, n, j - n);
    }
  }

  // ----- the invariant of the grouping

  /** Cluster r consists of the constraints listed in groups[r], once each. */
  ghost predicate Holding(cluster: Cluster, group: seq<nat>, done: seq<Constraint>) {
    && |cluster.constraints| == |group|
    && (forall k :: 0 <= k < |group| ==> group[k] < |done| && cluster.constraints[k] == done[group[k]])
    && (forall k, l :: 0 <= k < l < |group| ==> group[k] != group[l])
    && Connected(cluster.constraints)
  }

  /** Every constraint met so far is in the cluster of its representative. */
  ghost predicate Grouped(arena: seq<Option<Cluster>>, path: Path, done: seq<Constraint>, groups: seq<seq<nat>>) {
    && |arena| == |path| == |done| == |groups| && Forest(path)
    && (forall r :: 0 <= r < |path| && path[r] == r ==> arena[r].Some? && Holding(arena[r].value, groups[r], done))
    && (forall r :: 0 <= r < |path| && path[r] != r ==> arena[r].None?)
    && (forall r, i :: 0 <= r < |path| && path[r] == r && 0 <= i < |path| ==> (i in groups[r] <==> Root(path, i) == r))
  }

  /** A signal leads to the cluster of every constraint that mentions it.  The signals in
      `pending` belong to the last constraint and have not been visited yet. */
  ghost predicate Owned(path: Path, owner: seq<nat>, done: seq<Constraint>, pending: set<Signal>, nobody: nat) {
    && |path| == |done| <= nobody && Forest(path)
    && (forall s :: 0 <= s < |owner| ==> owner[s] == nobody || (owner[s] < |done| && s in SignalsOf(done[owner[s]])))
    && (forall i, s :: 0 <= i < |done| && s in SignalsOf(done[i]) ==> s < |owner|)
    && (forall i, s :: 0 <= i < |done| && s in SignalsOf(done[i]) && !(i == |done| - 1 && s in pending) ==>
        owner[s] < |done| && Root(path, owner[s]) == Root(path, i))
  }

  /** The signals that lead to cluster r. */
  ghost function Seen(path: Path, owner: seq<nat>, r: nat): set<Signal>
    requires Forest(path)
  {
    set s | 0 <= s < |owner| && owner[s] < |path| && Root(path, owner[s]) == r
  }

  /** The signal counts; those of the last constraint are still counted as new. */
  ghost predicate Numbered(arena: seq<Option<Cluster>>, path: Path, owner: seq<nat>, pending: set<Signal>)
    requires Forest(path) && |arena| == |path|
  {
    forall r :: 0 <= r < |path| && path[r] == r && arena[r].Some? ==>
      arena[r].value.numSignals == |Seen(path, owner, r)| + if r == |path| - 1 then |pending| else 0
  }

  // ----- a new constraint

  lemma PushGrouped(arena: seq<Option<Cluster>>, path: Path, done: seq<Constraint>, groups: seq<seq<nat>>, c: Constraint, n: nat)
    requires Grouped(arena, path, done, groups)
    ensures Grouped(arena + [Some(Cluster([c], n))], path + [|path|], done + [c], groups + [[|path|]])
  {
    ConnectedSingle(c);
    AllRootsAppended(path);
    var path', groups' := path + [|path|], groups + [[|path|]];
    forall r, i | 0 <= r < |path'| && path'[r] == r && 0 <= i < |path'|
      ensures i in groups'[r] <==> Root(path', i) == r
    {
      if r == |path| {
        assert i < |path| ==> Root(path', i) == Root(path, i);
      } else if i == |path| {
        assert i !in groups[r];
      }
    }
  }

  lemma AllRootsAppended(path: Path)
    requires Forest(path)
    ensures Forest(path + [|path|])
    ensures forall i :: 0 <= i < |path| ==> Root(path + [|path|], i) == Root(path, i)
  {
    forall i | 0 <= i < |path|
      ensures Root(path + [|path|], i) == Root(path, i)
    {
      RootAppended(path, i);
    }
  }

  lemma PushOwned(path: Path, owner: seq<nat>, done: seq<Constraint>, nobody: nat, c: Constraint)
    requires Owned(path, owner, done, {}, nobody) && |done| < nobody
    requires forall s :: s in SignalsOf(c) ==> s < |owner|
    ensures Owned(path + [|path|], owner, done + [c], SignalsOf(c), nobody)
  {
    hide SignalsOf;
    AllRootsAppended(path);
  }

  lemma PushNumbered(arena: seq<Option<Cluster>>, path: Path, owner: seq<nat>, done: seq<Constraint>, nobody: nat, c: Constraint)
    requires Owned(path, owner, done, {}, nobody) && |done| < nobody && |arena| == |path|
    requires Numbered(arena, path, owner, {})
    ensures Forest(path + [|path|])
    ensures Numbered(arena + [Some(Cluster([c], |SignalsOf(c)|))], path + [|path|], owner, SignalsOf(c))
  {
    hide SignalsOf;
    AllRootsAppended(path);
    var path' := path + [|path|];
    forall r | 0 <= r < |path'|
      ensures Seen(path', owner, r) == if r < |path| then Seen(path, owner, r) else {}
    {
    }
  }

  // ----- a signal of the new constraint

  lemma UnseenOwned(path: Path, owner: seq<nat>, done: seq<Constraint>, pending: set<Signal>, nobody: nat, s: Signal)
    requires Owned(path, owner, done, pending, nobody) && done != []
    requires s in pending && s in SignalsOf(done[|done| - 1])
    requires s < |owner| && owner[s] == nobody
    ensures Owned(path, owner[s := |done| - 1], done, pending - {s}, nobody)
  {
    hide SignalsOf;
    var owner' := owner[s := |done| - 1];
    forall i, t | 0 <= i < |done| && t in SignalsOf(done[i]) && !(i == |done| - 1 && t in pending - {s})
      ensures owner'[t] < |done| && Root(path, owner'[t]) == Root(path, i)
    {
    }
  }

  lemma UnseenNumbered(arena: seq<Option<Cluster>>, path: Path, owner: seq<nat>, pending: set<Signal>, s: Signal)
    requires Forest(path) && |arena| == |path| > 0 && Numbered(arena, path, owner, pending)
    requires s in pending && s < |owner| && owner[s] >= |path|
    ensures Numbered(arena, path, owner[s := |path| - 1], pending - {s})
  {
    var last := |path| - 1;
    var owner' := owner[s := last];
    assert path[last] == last;
    forall r | 0 <= r < |path| && path[r] == r
      ensures Seen(path, owner', r) == if r == last then Seen(path, owner, r) + {s} else Seen(path, owner, r)
    {
    }
    assert s !in Seen(path, owner, last);
  }

  ghost function JoinedGroups(groups: seq<seq<nat>>, r: nat, d: nat): seq<seq<nat>>
    requires r < |groups| && d < |groups|
  {
    if r == d then groups else groups[r := []][d := groups[d] + groups[r]]
  }

  ghost function JoinedArena(arena: seq<Option<Cluster>>, r: nat, d: nat): seq<Option<Cluster>>
    requires r < |arena| && d < |arena| && arena[r].Some? && arena[d].Some?
    requires arena[d].value.numSignals + (if r == d then 0 else arena[r].value.numSignals) > 0
  {
    if r == d
    then arena[d := Some(MergeClusters(arena[d].value, NOBODY))]
    else arena[r := None][d := Some(MergeClusters(arena[d].value, arena[r].value))]
  }

  lemma HoldingJoined(c: Cluster, group: seq<nat>, c': Cluster, group': seq<nat>, done: seq<Constraint>, i: nat, j: nat)
    requires Holding(c, group, done) && Holding(c', group', done)
    requires i in group && j in group' && i < |done| && j < |done| && Share(done[i], done[j])
    requires forall k :: k in group ==> k !in group'
    requires c.numSignals + c'.numSignals > 0
    ensures Holding(MergeClusters(c, c'), group + group', done)
  {
    var k :| 0 <= k < |group| && group[k] == i;
    var l :| 0 <= l < |group'| && group'[l] == j;
    ConnectedJoin(c.constraints, c'.constraints, k, l);
    var both := group + group';
    forall a, b | 0 <= a < b < |both|
      ensures both[a] != both[b]
    {
      if a < |group| <= b {
        assert both[a] in group && both[b] in group';
      }
    }
  }

  lemma SeenGrouped(arena: seq<Option<Cluster>>, path: Path, path': Path, done: seq<Constraint>, groups: seq<seq<nat>>,
                    r: nat, d: nat, i: nat, j: nat)
    requires Grouped(arena, path, done, groups) && Linked(path, path', r, d)
    requires i < |path| && j < |path| && Root(path, i) == d && Root(path, j) == r && Share(done[i], done[j])
    requires arena[r].Some? && arena[d].Some?
    requires arena[d].value.numSignals + (if r == d then 0 else arena[r].value.numSignals) > 0
    ensures Grouped(JoinedArena(arena, r, d), path', done, JoinedGroups(groups, r, d))
  {
    hide Share, Connected, Linked, Holding, MergeClusters;
    GroupsHolding(arena, path, done, groups);
    if r == d {
      SelfGrouped(arena, path, path', done, groups, d);
    } else {
      forall k | k in groups[d]
        ensures k !in groups[r]
      {
        InGroup(arena, path, done, groups, d, k);
      }
      HoldingJoined(arena[d].value, groups[d], arena[r].value, groups[r], done, i, j);
      ApartGrouped(arena, path, path', done, groups, r, d);
    }
  }

  lemma InGroup(arena: seq<Option<Cluster>>, path: Path, done: seq<Constraint>, groups: seq<seq<nat>>, r: nat, k: nat)
    requires Grouped(arena, path, done, groups) && r < |path| && path[r] == r && k in groups[r]
    ensures k < |path| && Root(path, k) == r
    ensures forall q :: 0 <= q < |path| && path[q] == q && q != r ==> k !in groups[q]
  {
    assert Holding(arena[r].value, groups[r], done);
  }

  /** Merging a cluster with itself only lowers its count. */
  lemma SelfGrouped(arena: seq<Option<Cluster>>, path: Path, path': Path, done: seq<Constraint>, groups: seq<seq<nat>>, d: nat)
    requires Grouped(arena, path, done, groups) && Linked(path, path', d, d)
    requires d < |path| && path[d] == d && arena[d].Some? && arena[d].value.numSignals > 0
    ensures Grouped(JoinedArena(arena, d, d), path', done, groups)
  {
    hide Connected, Linked;
    LinkedRoots(path, path', d, d);
    var c := arena[d].value;
    assert c.constraints + [] == c.constraints;
    assert Holding(MergeClusters(c, NOBODY), groups[d], done);
  }

  lemma ApartGrouped(arena: seq<Option<Cluster>>, path: Path, path': Path, done: seq<Constraint>, groups: seq<seq<nat>>,
                     r: nat, d: nat)
    requires Grouped(arena, path, done, groups) && Linked(path, path', r, d)
    requires r < |path| && d < |path| && path[r] == r && path[d] == d && r != d
    requires arena[r].Some? && arena[d].Some? && arena[d].value.numSignals + arena[r].value.numSignals > 0
    requires Holding(MergeClusters(arena[d].value, arena[r].value), groups[d] + groups[r], done)
    ensures Grouped(JoinedArena(arena, r, d), path', done, JoinedGroups(groups, r, d))
  {
    hide Holding, Linked, MergeClusters;
    LinkedRoots(path, path', r, d);
    var groups' := JoinedGroups(groups, r, d);
    forall q, k | 0 <= q < |path'| && path'[q] == q && 0 <= k < |path'|
      ensures k in groups'[q] <==> Root(path', k) == q
    {
      assert k in groups[q] <==> Root(path, k) == q;
      assert k in groups[r] <==> Root(path, k) == r;
    }
  }

  lemma LinkedRoots(path: Path, path': Path, r: nat, d: nat)
    requires Linked(path, path', r, d)
    ensures |path| == |path'| && Forest(path) && Forest(path')
    ensures forall i :: 0 <= i < |path| ==> Root(path', i) == if Root(path, i) == r then d else Root(path, i)
    ensures forall i :: 0 <= i < |path| ==> (path'[i] == i <==> path[i] == i && (i != r || r == d))
  {
  }

  lemma SeenOwned(path: Path, path': Path, owner: seq<nat>, done: seq<Constraint>, pending: set<Signal>, nobody: nat,
                  s: Signal, r: nat, d: nat)
    requires Owned(path, owner, done, pending, nobody) && done != []
    requires s in pending && s in SignalsOf(done[|done| - 1]) && s < |owner| && owner[s] < |path|
    requires Root(path, owner[s]) == r && Root(path, |path| - 1) == d && Linked(path, path', r, d)
    ensures Owned(path', owner[s := |done| - 1], done, pending - {s}, nobody)
  {
    hide SignalsOf, Linked;
    LinkedRoots(path, path', r, d);
    var last := |done| - 1;
    var owner' := owner[s := last];
    forall i, t | 0 <= i < |done| && t in SignalsOf(done[i]) && !(i == last && t in pending - {s})
      ensures owner'[t] < |done| && Root(path', owner'[t]) == Root(path', i)
    {
      if t == s {
        if i != last {
          assert Root(path, owner[s]) == Root(path, i) == r;
        }
      } else {
        assert Root(path, owner[t]) == Root(path, i);
      }
    }
  }

  lemma SeenNumbered(arena: seq<Option<Cluster>>, path: Path, path': Path, owner: seq<nat>, pending: set<Signal>,
                     s: Signal, r: nat, d: nat)
    requires Forest(path) && |arena| == |path| > 0 && Numbered(arena, path, owner, pending)
    requires s in pending && s < |owner| && owner[s] < |path|
    requires Root(path, owner[s]) == r && d == |path| - 1 && Linked(path, path', r, d)
    requires arena[r].Some? && arena[d].Some?
    ensures arena[d].value.numSignals > 0
    ensures Numbered(JoinedArena(arena, r, d), path', owner[s := d], pending - {s})
  {
    hide Linked, Seen, Root;
    LinkedRoots(path, path', r, d);
    var owner' := owner[s := d];
    assert path[d] == d;
    assert |pending| > 0 by {
      assert |pending - {s}| == |pending| - 1;
    }
    forall q | 0 <= q < |path| && path'[q] == q
      ensures Seen(path', owner', q) == if q == d then Seen(path, owner, d) + Seen(path, owner, r) else Seen(path, owner, q)
    {
      SeenLinked(path, path', owner, s, r, d, q);
    }
    SeenApart(path, owner, r, d);
  }

  lemma SeenApart(path: Path, owner: seq<nat>, r: nat, d: nat)
    requires Forest(path)
    ensures |Seen(path, owner, d) + Seen(path, owner, r)|
      == |Seen(path, owner, d)| + if r == d then 0 else |Seen(path, owner, r)|
  {
    if r == d {
      assert Seen(path, owner, d) + Seen(path, owner, d) == Seen(path, owner, d);
    } else {
      assert Seen(path, owner, d) !! Seen(path, owner, r);
    }
  }

  lemma SeenLinked(path: Path, path': Path, owner: seq<nat>, s: Signal, r: nat, d: nat, q: nat)
    requires Forest(path) && d < |path| && path[d] == d
    requires s < |owner| && owner[s] < |path| && Root(path, owner[s]) == r && Linked(path, path', r, d)
    requires q < |path| && path'[q] == q
    ensures Seen(path', owner[s := d], q) ==
      if q == d then Seen(path, owner, d) + Seen(path, owner, r) else Seen(path, owner, q)
  {
  }

  // ----- the whole grouping

  function NonEmpty(linear: seq<Constraint>): seq<Constraint> {
    if linear == [] then []
    else
      var last := |linear| - 1;
      if IsEmpty(linear[last]) then NonEmpty(linear[..last]) else NonEmpty(linear[..last]) + [linear[last]]
  }

  ghost function SignalsOfAll(cs: seq<Constraint>): set<Signal> {
    set i, s | 0 <= i < |cs| && s in SignalsOf(cs[i]) :: s
  }

  ghost predicate Placed(groups: seq<seq<nat>>, i: nat) {
    exists c :: 0 <= c < |groups| && i in groups[c]
  }

  /** The groups are a partition of the constraints into connected clusters without
      a common signal, each with its number of signals. */
  ghost predicate Partition(clusters: seq<Cluster>, groups: seq<seq<nat>>, cs: seq<Constraint>) {
    && |clusters| == |groups|
    && (forall c :: 0 <= c < |clusters| ==> Holding(clusters[c], groups[c], cs) && groups[c] != [])
    && (forall i :: 0 <= i < |cs| ==> Placed(groups, i))
    && (forall c, d, i, j :: 0 <= c < d < |groups| && i in groups[c] && j in groups[d] ==>
        i != j && i < |cs| && j < |cs| && !Share(cs[i], cs[j]))
    && (forall c :: 0 <= c < |clusters| ==> clusters[c].numSignals == |SignalsOfAll(clusters[c].constraints)|)
  }

  ghost predicate Clustering(arena: seq<Option<Cluster>>, path: Path, owner: seq<nat>, done: seq<Constraint>,
                             groups: seq<seq<nat>>, pending: set<Signal>, nobody: nat)
  {
    Grouped(arena, path, done, groups) && Owned(path, owner, done, pending, nobody) && Numbered(arena, path, owner, pending)
  }

  lemma PushClustering(arena: seq<Option<Cluster>>, path: Path, owner: seq<nat>, done: seq<Constraint>,
                       groups: seq<seq<nat>>, nobody: nat, c: Constraint)
    requires Clustering(arena, path, owner, done, groups, {}, nobody) && |done| < nobody
    requires forall s :: s in SignalsOf(c) ==> s < |owner|
    ensures Clustering(arena + [Some(Cluster([c], |SignalsOf(c)|))], path + [|path|], owner, done + [c],
                       groups + [[|path|]], SignalsOf(c), nobody)
  {
    hide Grouped, Owned, Numbered;
    assert Forest(path) && |arena| == |path| by {
      ClusteringForest(arena, path, owner, done, groups, {}, nobody);
    }
    PushGrouped(arena, path, done, groups, c, |SignalsOf(c)|);
    PushOwned(path, owner, done, nobody, c);
    PushNumbered(arena, path, owner, done, nobody, c);
  }

  lemma ClusteringForest(arena: seq<Option<Cluster>>, path: Path, owner: seq<nat>, done: seq<Constraint>,
                         groups: seq<seq<nat>>, pending: set<Signal>, nobody: nat)
    requires Clustering(arena, path, owner, done, groups, pending, nobody)
    ensures Forest(path) && |arena| == |path| == |done| == |groups| <= nobody
  {
  }

  lemma UnseenClustering(arena: seq<Option<Cluster>>, path: Path, owner: seq<nat>, done: seq<Constraint>,
                         groups: seq<seq<nat>>, pending: set<Signal>, nobody: nat, s: Signal)
    requires Clustering(arena, path, owner, done, groups, pending, nobody) && done != []
    requires s in pending && s in SignalsOf(done[|done| - 1]) && s < |owner| && owner[s] == nobody
    ensures Clustering(arena, path, owner[s := |done| - 1], done, groups, pending - {s}, nobody)
  {
    hide Grouped, Owned, Numbered;
    ClusteringForest(arena, path, owner, done, groups, pending, nobody);
    UnseenOwned(path, owner, done, pending, nobody, s);
    UnseenNumbered(arena, path, owner, pending, s);
  }

  /** Before a visited signal is merged: its old cluster and the new one exist. */
  lemma MergeReady(arena: seq<Option<Cluster>>, path: Path, owner: seq<nat>, done: seq<Constraint>,
                   groups: seq<seq<nat>>, pending: set<Signal>, nobody: nat, s: Signal)
    requires Clustering(arena, path, owner, done, groups, pending, nobody) && done != []
    requires s in pending && s in SignalsOf(done[|done| - 1]) && s < |owner| && owner[s] != nobody
    ensures owner[s] < |path| == |arena| == |done| == |groups| && Forest(path)
    ensures var r, d := Root(path, owner[s]), Root(path, |path| - 1);
      d == |path| - 1 && arena[r].Some? && arena[d].Some? && arena[d].value.numSignals > 0
    ensures Share(done[|done| - 1], done[owner[s]])
  {
    hide Holding;
    assert |pending - {s}| == |pending| - 1;
  }

  lemma SeenClustering(arena: seq<Option<Cluster>>, path: Path, path': Path, owner: seq<nat>, done: seq<Constraint>,
                       groups: seq<seq<nat>>, pending: set<Signal>, nobody: nat, s: Signal, r: nat, d: nat)
    requires Clustering(arena, path, owner, done, groups, pending, nobody) && done != []
    requires s in pending && s in SignalsOf(done[|done| - 1]) && s < |owner| && owner[s] < |path| == |arena| == |groups|
    requires Forest(path) && Root(path, owner[s]) == r && d == |path| - 1 && Linked(path, path', r, d)
    requires arena[r].Some? && arena[d].Some? && arena[d].value.numSignals > 0
    requires Share(done[|done| - 1], done[owner[s]])
    ensures Clustering(JoinedArena(arena, r, d), path', owner[s := d], done, JoinedGroups(groups, r, d), pending - {s}, nobody)
  {
    hide Grouped, Owned, Numbered, Linked, Share;
    ClusteringForest(arena, path, owner, done, groups, pending, nobody);
    SeenGrouped(arena, path, path', done, groups, r, d, d, owner[s]);
    SeenOwned(path, path', owner, done, pending, nobody, s, r, d);
    SeenNumbered(arena, path, path', owner, pending, s, r, d);
  }

  /** The inner loop: the signals of the newest constraint are visited in any order. */
  method VisitSignals(store: ClusterArena, signalToCluster: array<nat>, signals: set<Signal>, dest: nat, noLinear: nat,
                      ghost done: seq<Constraint>, ghost groups: seq<seq<nat>>)
    returns (ghost groups': seq<seq<nat>>)
    requires |done| == dest + 1 && signals == SignalsOf(done[dest])
    requires forall s :: s in signals ==> s < signalToCluster.Length
    requires Clustering(store.arena, store.clusterToCurrent, signalToCluster[..], done, groups, signals, noLinear)
    modifies store, signalToCluster
    ensures Clustering(store.arena, store.clusterToCurrent, signalToCluster[..], done, groups', {}, noLinear)
  {
    hide Clustering, Linked;
    groups' := groups;
    var rest := signals;
    while rest != {}
      invariant rest <= signals
      invariant Clustering(store.arena, store.clusterToCurrent, signalToCluster[..], done, groups', rest, noLinear)
    {
      var signal :| signal in rest;
      ghost var arena, path, owner := store.arena, store.clusterToCurrent, signalToCluster[..];
      var prev := signalToCluster[signal];
      signalToCluster[signal] := dest;
      assert signalToCluster[..] == owner[signal := dest];
      if prev < noLinear {
        MergeReady(arena, path, owner, done, groups', rest, noLinear, signal);
        ghost var r := Root(path, prev);
        store.ArenaMerge(prev, dest);
        SeenClustering(arena, path, store.clusterToCurrent, owner, done, groups', rest, noLinear, signal, r, dest);
        groups' := JoinedGroups(groups', r, dest);
      } else {
        OwnerKnown(arena, path, owner, done, groups', rest, noLinear, signal);
        UnseenClustering(arena, path, owner, done, groups', rest, noLinear, signal);
      }
      rest := rest - {signal};
    }
  }

  lemma OwnerKnown(arena: seq<Option<Cluster>>, path: Path, owner: seq<nat>, done: seq<Constraint>,
                   groups: seq<seq<nat>>, pending: set<Signal>, nobody: nat, s: Signal)
    requires Clustering(arena, path, owner, done, groups, pending, nobody) && s < |owner| && owner[s] >= nobody
    ensures owner[s] == nobody
  {
  }

  /** Some division of the constraints has these clusters. */
  ghost predicate Partitioned(clusters: seq<Cluster>, cs: seq<Constraint>) {
    exists groups: seq<seq<nat>> :: Partition(clusters, groups, cs)
  }

  method BuildClusters(linear: seq<Constraint>, noVars: nat) returns (clusters: seq<Cluster>, ghost groups: seq<seq<nat>>)
    requires forall i, s :: 0 <= i < |linear| && s in SignalsOf(linear[i]) ==> s < noVars
    ensures Partitioned(clusters, NonEmpty(linear)) && Partition(clusters, groups, NonEmpty(linear))
  {
    hide Clustering, Partition;
    var noLinear := |linear|;
    var store := new ClusterArena();
    var signalToCluster := new nat[noVars](_ => noLinear);
    ghost var done: seq<Constraint>;
    done, groups := [], [];
    ClusteringStart(signalToCluster[..], noLinear);
    for i := 0 to |linear|
      invariant fresh(store) && fresh(signalToCluster) && signalToCluster.Length == noVars
      invariant done == NonEmpty(linear[..i]) && |done| <= i
      invariant |store.arena| == |done|
      invariant Clustering(store.arena, store.clusterToCurrent, signalToCluster[..], done, groups, {}, noLinear)
    {
      var constraint := linear[i];
      assert linear[..i + 1][..i] == linear[..i];
      if !IsEmpty(constraint) {
        var signals := SignalsOf(constraint);
        var dest := |store.arena|;
        ClusteringForest(store.arena, store.clusterToCurrent, signalToCluster[..], done, groups, {}, noLinear);
        PushClustering(store.arena, store.clusterToCurrent, signalToCluster[..], done, groups, noLinear, constraint);
        store.Push(Cluster([constraint], |signals|));
        groups := groups + [[dest]];
        done := done + [constraint];
        groups := VisitSignals(store, signalToCluster, signals, dest, noLinear, done, groups);
        ClusteringForest(store.arena, store.clusterToCurrent, signalToCluster[..], done, groups, {}, noLinear);
      }
    }
    assert linear[..|linear|] == linear;
    clusters, groups := Collect(store.arena, store.clusterToCurrent, done, signalToCluster[..], groups, noLinear);
  }

  lemma ClusteringStart(owner: seq<nat>, nobody: nat)
    requires forall s :: 0 <= s < |owner| ==> owner[s] == nobody
    ensures Clustering([], [], owner, [], [], {}, nobody)
  {
  }

  /** The clusters that are left, in order. */
  method Collect(arena: seq<Option<Cluster>>, ghost path: Path, ghost done: seq<Constraint>, ghost owner: seq<nat>,
                 ghost all: seq<seq<nat>>, ghost nobody: nat)
    returns (clusters: seq<Cluster>, ghost groups: seq<seq<nat>>)
    requires Clustering(arena, path, owner, done, all, {}, nobody)
    ensures Partition(clusters, groups, done)
  {
    hide Clustering, Partition;
    ClusteringForest(arena, path, owner, done, all, {}, nobody);
    ghost var roots: seq<nat>;
    clusters, groups, roots := [], [], [];
    for i := 0 to |arena|
      invariant |clusters| == |groups| == |roots|
      invariant forall c :: 0 <= c < |roots| ==>
        roots[c] < i && path[roots[c]] == roots[c] && arena[roots[c]] == Some(clusters[c]) && groups[c] == all[roots[c]]
      invariant forall c :: 0 <= c < |clusters| ==> clusters[c].constraints != []
      invariant forall c, d :: 0 <= c < d < |roots| ==> roots[c] < roots[d]
      invariant forall r :: 0 <= r < i && path[r] == r ==> r in roots
    {
      RootCluster(arena, path, done, owner, all, nobody, i);
      if arena[i].Some? {
        var cluster := arena[i].value;
        if |cluster.constraints| != 0 {
          clusters, groups, roots := clusters + [cluster], groups + [all[i]], roots + [i];
        }
      }
    }
    CollectedPartition(arena, path, done, owner, all, nobody, clusters, groups, roots);
  }

  lemma RootCluster(arena: seq<Option<Cluster>>, path: Path, done: seq<Constraint>, owner: seq<nat>,
                    all: seq<seq<nat>>, nobody: nat, i: nat)
    requires Clustering(arena, path, owner, done, all, {}, nobody) && i < |arena|
    ensures i < |path| && (arena[i].Some? <==> path[i] == i)
    ensures arena[i].Some? ==> arena[i].value.constraints != []
  {
    if arena[i].Some? {
      assert Root(path, i) == i;
      assert i in all[i] && Holding(arena[i].value, all[i], done);
    }
  }

  lemma CollectedPartition(arena: seq<Option<Cluster>>, path: Path, done: seq<Constraint>, owner: seq<nat>,
                           all: seq<seq<nat>>, nobody: nat, clusters: seq<Cluster>, groups: seq<seq<nat>>, roots: seq<nat>)
    requires Clustering(arena, path, owner, done, all, {}, nobody)
    requires |clusters| == |groups| == |roots|
    requires forall c :: 0 <= c < |roots| ==>
      roots[c] < |path| && path[roots[c]] == roots[c] && arena[roots[c]] == Some(clusters[c]) && groups[c] == all[roots[c]]
    requires forall c :: 0 <= c < |clusters| ==> clusters[c].constraints != []
    requires forall c, d :: 0 <= c < d < |roots| ==> roots[c] < roots[d]
    requires forall r :: 0 <= r < |path| && path[r] == r ==> r in roots
    ensures Partition(clusters, groups, done)
  {
    hide SignalsOf, Connected, Owned, Numbered, SignalsOfAll;
    forall i | 0 <= i < |done|
      ensures Placed(groups, i)
    {
      var r := Root(path, i);
      var c :| 0 <= c < |roots| && roots[c] == r;
      assert i in groups[c];
    }
    hide Grouped, Holding, Placed;
    forall c, d, i, j | 0 <= c < d < |groups| && i in groups[c] && j in groups[d]
      ensures i != j && i < |done| && j < |done| && !Share(done[i], done[j])
    {
      GroupApart(arena, path, owner, done, all, nobody, roots[c], roots[d], i, j);
    }
    assert forall c :: 0 <= c < |clusters| ==> Holding(clusters[c], groups[c], done) && groups[c] != [] by {
      GroupsHolding(arena, path, done, all);
    }
    forall c | 0 <= c < |clusters|
      ensures clusters[c].numSignals == |SignalsOfAll(clusters[c].constraints)|
    {
      GroupSignals(arena, path, owner, done, all, nobody, roots[c]);
    }
  }

  lemma GroupsHolding(arena: seq<Option<Cluster>>, path: Path, done: seq<Constraint>, all: seq<seq<nat>>)
    requires Grouped(arena, path, done, all)
    ensures |arena| == |path| == |all|
    ensures forall r :: 0 <= r < |path| && path[r] == r ==>
      arena[r].Some? && Holding(arena[r].value, all[r], done) && |arena[r].value.constraints| == |all[r]|
  {
  }

  lemma GroupApart(arena: seq<Option<Cluster>>, path: Path, owner: seq<nat>, done: seq<Constraint>,
                   all: seq<seq<nat>>, nobody: nat, r: nat, d: nat, i: nat, j: nat)
    requires Clustering(arena, path, owner, done, all, {}, nobody)
    requires r < |path| && d < |path| && path[r] == r && path[d] == d && r != d && i in all[r] && j in all[d]
    ensures i != j && i < |done| && j < |done| && !Share(done[i], done[j])
  {
    hide SignalsOf, Connected;
    assert Holding(arena[r].value, all[r], done) && Holding(arena[d].value, all[d], done);
    assert Root(path, i) == r && Root(path, j) == d;
    if Share(done[i], done[j]) {
      var s :| s in SignalsOf(done[i]) && s in SignalsOf(done[j]);
      OwnedRoot(path, owner, done, nobody, i, s);
      OwnedRoot(path, owner, done, nobody, j, s);
    }
  }

  lemma OwnedRoot(path: Path, owner: seq<nat>, done: seq<Constraint>, nobody: nat, i: nat, s: Signal)
    requires Owned(path, owner, done, {}, nobody) && i < |done| && s in SignalsOf(done[i])
    ensures s < |owner| && owner[s] < |path| && Root(path, owner[s]) == Root(path, i)
  {
  }

  lemma GroupSignals(arena: seq<Option<Cluster>>, path: Path, owner: seq<nat>, done: seq<Constraint>,
                     all: seq<seq<nat>>, nobody: nat, r: nat)
    requires Clustering(arena, path, owner, done, all, {}, nobody)
    requires r < |path| && path[r] == r
    ensures arena[r].Some? && arena[r].value.numSignals == |SignalsOfAll(arena[r].value.constraints)|
  {
    hide SignalsOf, Connected;
    var cs, group := arena[r].value.constraints, all[r];
    assert Holding(arena[r].value, group, done);
    forall s
      ensures s in Seen(path, owner, r) <==> s in SignalsOfAll(cs)
    {
      if s in Seen(path, owner, r) {
        assert owner[s] in group;
        var k :| 0 <= k < |group| && group[k] == owner[s];
        assert s in SignalsOf(cs[k]);
      }
      if s in SignalsOfAll(cs) {
        var k :| 0 <= k < |cs| && s in SignalsOf(cs[k]);
        assert group[k] in group;
        assert Root(path, group[k]) == r;
      }
    }
    assert Seen(path, owner, r) == SignalsOfAll(cs);
  }
}
