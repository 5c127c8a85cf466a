/** The stages that work cluster by cluster or constraint by constraint:
    constraint_list/src/constraint_simplification.rs.  Clusters share no signal, so
    the order in which the source's threads finish does not matter. */
module Stages {
  import opened Field
  import opened Coefficients
  import opened Algebra
  import opened Constraints
  import opened Elimination
  import opened BackSubstitution
  import opened Clusters
  import opened Equalities
  import EliminationFewest

  /** Substitutions and residual constraints have the solutions of the system. */
  ghost predicate Equivalent(all: seq<Constraint>, subs: seq<Substitution>, cons: seq<Constraint>, p: Prime) {
    forall w: Assignment :: AllHold(all, w, p) <==> ObeysAll(w, subs, p) && AllHold(cons, w, p)
  }

  ghost predicate ClustersHold(clusters: seq<Cluster>, w: Assignment, p: Prime) {
    forall c :: 0 <= c < |clusters| ==> AllHold(clusters[c].constraints, w, p)
  }

  /** Signals and targets of a substitution list. */
  ghost predicate Inside(subs: seq<Substitution>, signals: set<Signal>, forbidden: set<Signal>, p: Prime) {
    forall i :: 0 <= i < |subs| ==>
      && subs[i].from in signals - forbidden
      && subs[i].to.Keys <= signals + {CONSTANT}
      && Reduced(subs[i].to, p)
  }

  /** Residual constraints mention forbidden signals only and are linear once fixed. */
  ghost predicate Kept(cons: seq<Constraint>, signals: set<Signal>, forbidden: set<Signal>, p: Prime) {
    forall i :: 0 <= i < |cons| ==> KeptConstraint(cons[i], signals, forbidden, p)
  }

  ghost predicate KeptConstraint(cn: Constraint, signals: set<Signal>, forbidden: set<Signal>, p: Prime) {
    && ReducedConstraint(cn, p)
    && LinearShape(cn)
    && SignalsOf(cn) <= forbidden && SignalsOf(cn) <= signals
  }

  /** No product, though an explicit zero may be stored. */
  ghost predicate LinearShape(cn: Constraint) {
    (cn.a == map[] || cn.a == NOTHING) && (cn.b == map[] || cn.b == NOTHING)
  }

  // ----- putting clusters together

  lemma AllHoldConcat(cs: seq<Constraint>, ds: seq<Constraint>, w: Assignment, p: Prime)
    ensures AllHold(cs + ds, w, p) <==> AllHold(cs, w, p) && AllHold(ds, w, p)
  {
    hide Holds;
    var es := cs + ds;
    if AllHold(es, w, p) {
      forall i | 0 <= i < |cs|
        ensures Holds(cs[i], w, p)
      {
        assert es[i] == cs[i];
      }
      forall i | 0 <= i < |ds|
        ensures Holds(ds[i], w, p)
      {
        assert es[|cs| + i] == ds[i];
      }
    }
  }

  lemma ObeysAllConcat(subs: seq<Substitution>, more: seq<Substitution>, w: Assignment, p: Prime)
    ensures ObeysAll(w, subs + more, p) <==> ObeysAll(w, subs, p) && ObeysAll(w, more, p)
  {
    hide Obeys;
    var both := subs + more;
    if ObeysAll(w, both, p) {
      forall i | 0 <= i < |subs|
        ensures Obeys(w, subs[i], p)
      {
        assert both[i] == subs[i];
      }
      forall i | 0 <= i < |more|
        ensures Obeys(w, more[i], p)
      {
        assert both[|subs| + i] == more[i];
      }
    }
  }

  lemma {:induction false} NonEmptyHolds(linear: seq<Constraint>, w: Assignment, p: Prime)
    ensures AllHold(NonEmpty(linear), w, p) <==> AllHold(linear, w, p)
  {
    if linear != [] {
      var last := |linear| - 1;
      NonEmptyHolds(linear[..last], w, p);
      assert linear == linear[..last] + [linear[last]];
      AllHoldAppend(linear[..last], linear[last], w, p);
      if IsEmpty(linear[last]) {
        EmptyHolds(w, p);
      } else {
        AllHoldAppend(NonEmpty(linear[..last]), linear[last], w, p);
      }
    }
  }

  lemma {:induction false} NonEmptyFrom(linear: seq<Constraint>, i: nat)
    requires i < |NonEmpty(linear)|
    ensures NonEmpty(linear)[i] in linear && !IsEmpty(NonEmpty(linear)[i])
  {
    var last := |linear| - 1;
    if i < |NonEmpty(linear[..last])| {
      NonEmptyFrom(linear[..last], i);
      assert NonEmpty(linear)[i] == NonEmpty(linear[..last])[i];
    }
  }

  lemma ClusterFrom(clusters: seq<Cluster>, groups: seq<seq<nat>>, linear: seq<Constraint>, c: nat)
    requires Partition(clusters, groups, NonEmpty(linear)) && c < |clusters|
    ensures forall i :: 0 <= i < |clusters[c].constraints| ==> clusters[c].constraints[i] in linear
    ensures Connected(clusters[c].constraints)
  {
    forall i | 0 <= i < |clusters[c].constraints|
      ensures clusters[c].constraints[i] in linear
    {
      assert Holding(clusters[c], groups[c], NonEmpty(linear));
      NonEmptyFrom(linear, groups[c][i]);
    }
  }

  lemma PartitionHolds(clusters: seq<Cluster>, groups: seq<seq<nat>>, linear: seq<Constraint>, w: Assignment, p: Prime)
    requires Partition(clusters, groups, NonEmpty(linear))
    ensures ClustersHold(clusters, w, p) <==> AllHold(linear, w, p)
  {
    hide Holds, Connected;
    var cs := NonEmpty(linear);
    NonEmptyHolds(linear, w, p);
    if ClustersHold(clusters, w, p) {
      forall i | 0 <= i < |cs|
        ensures Holds(cs[i], w, p)
      {
        assert Placed(groups, i);
        var c :| 0 <= c < |groups| && i in groups[c];
        var k :| 0 <= k < |groups[c]| && groups[c][k] == i;
        assert Holding(clusters[c], groups[c], cs);
        assert AllHold(clusters[c].constraints, w, p);
      }
    }
    if AllHold(cs, w, p) {
      forall c, k | 0 <= c < |clusters| && 0 <= k < |clusters[c].constraints|
        ensures Holds(clusters[c].constraints[k], w, p)
      {
        assert Holding(clusters[c], groups[c], cs);
      }
    }
  }

  /** The signals of the first n clusters. */
  ghost function SignalsBefore(clusters: seq<Cluster>, n: nat): set<Signal>
    requires n <= |clusters|
  {
    set c, s | 0 <= c < n && s in SignalsOfAll(clusters[c].constraints) :: s
  }

  /** A constraint of cluster c that mentions s. */
  lemma MemberOf(clusters: seq<Cluster>, groups: seq<seq<nat>>, cs: seq<Constraint>, c: nat, s: Signal) returns (i: nat)
    requires Partition(clusters, groups, cs) && c < |clusters| && s in SignalsOfAll(clusters[c].constraints)
    ensures c < |groups| && i in groups[c] && i < |cs| && s in SignalsOf(cs[i])
  {
    hide SignalsOf, Connected;
    var k :| 0 <= k < |clusters[c].constraints| && s in SignalsOf(clusters[c].constraints[k]);
    assert Holding(clusters[c], groups[c], cs);
    i := groups[c][k];
  }

  lemma GroupsApart(clusters: seq<Cluster>, groups: seq<seq<nat>>, cs: seq<Constraint>, c: nat, d: nat, i: nat, j: nat)
    requires Partition(clusters, groups, cs) && c < d < |groups| && i in groups[c] && j in groups[d]
    ensures i < |cs| && j < |cs| && !Share(cs[i], cs[j])
  {
  }

  lemma ClustersApart(clusters: seq<Cluster>, groups: seq<seq<nat>>, cs: seq<Constraint>, n: nat)
    requires Partition(clusters, groups, cs) && n < |clusters|
    ensures SignalsBefore(clusters, n) !! SignalsOfAll(clusters[n].constraints)
  {
    hide SignalsOf, SignalsOfAll, Partition;
    forall s | s in SignalsBefore(clusters, n)
      ensures s !in SignalsOfAll(clusters[n].constraints)
    {
      var c :| 0 <= c < n && s in SignalsOfAll(clusters[c].constraints);
      if s in SignalsOfAll(clusters[n].constraints) {
        var i := MemberOf(clusters, groups, cs, c, s);
        var j := MemberOf(clusters, groups, cs, n, s);
        GroupsApart(clusters, groups, cs, c, n, i, j);
      }
    }
  }

  lemma SignalsBeforeAll(clusters: seq<Cluster>, groups: seq<seq<nat>>, linear: seq<Constraint>, n: nat)
    requires Partition(clusters, groups, NonEmpty(linear)) && n <= |clusters|
    ensures SignalsBefore(clusters, n) <= SignalsOfAll(linear)
  {
    hide SignalsOf, Partition;
    forall s | s in SignalsBefore(clusters, n)
      ensures s in SignalsOfAll(linear)
    {
      var c :| 0 <= c < n && s in SignalsOfAll(clusters[c].constraints);
      ClusterFrom(clusters, groups, linear, c);
      var k :| 0 <= k < |clusters[c].constraints| && s in SignalsOf(clusters[c].constraints[k]);
      assert clusters[c].constraints[k] in linear;
      var i :| 0 <= i < |linear| && linear[i] == clusters[c].constraints[k];
      assert s in SignalsOf(linear[i]);
    }
  }

  lemma NonOverlapConcat(subs: seq<Substitution>, more: seq<Substitution>, signals: set<Signal>, fresh': set<Signal>,
                         forbidden: set<Signal>, p: Prime)
    requires CONSTANT in forbidden
    requires NonOverlapping(subs) && NonOverlapping(more)
    requires Inside(subs, signals, forbidden, p) && Inside(more, fresh', forbidden, p) && signals !! fresh'
    ensures NonOverlapping(subs + more)
    ensures Inside(subs + more, signals + fresh', forbidden, p)
  {
    hide Reduced;
    var both := subs + more;
    forall i, j | 0 <= i < |both| && 0 <= j < |both|
      ensures both[i].from !in both[j].to
    {
      assert i < |subs| ==> both[i] == subs[i];
      assert j < |subs| ==> both[j] == subs[j];
      assert i >= |subs| ==> both[i] == more[i - |subs|];
      assert j >= |subs| ==> both[j] == more[j - |subs|];
    }
  }

  /** The invariant of both loops over clusters. */
  ghost predicate Gathered(clusters: seq<Cluster>, n: nat, subs: seq<Substitution>, cons: seq<Constraint>,
                           forbidden: set<Signal>, p: Prime)
    requires n <= |clusters|
  {
    && NonOverlapping(subs)
    && Inside(subs, SignalsBefore(clusters, n), forbidden, p)
    && Kept(cons, SignalsBefore(clusters, n), forbidden, p)
    && forall w: Assignment :: ClustersHold(clusters[..n], w, p) <==> ObeysAll(w, subs, p) && AllHold(cons, w, p)
  }

  lemma GatheredMeaning(clusters: seq<Cluster>, n: nat, subs: seq<Substitution>, cons: seq<Constraint>,
                        more: seq<Substitution>, others: seq<Constraint>, w: Assignment, p: Prime)
    requires n < |clusters|
    requires ClustersHold(clusters[..n], w, p) <==> ObeysAll(w, subs, p) && AllHold(cons, w, p)
    requires AllHold(clusters[n].constraints, w, p) <==> ObeysAll(w, more, p) && AllHold(others, w, p)
    ensures ClustersHold(clusters[..n + 1], w, p) <==> ObeysAll(w, subs + more, p) && AllHold(cons + others, w, p)
  {
    hide AllHold, ObeysAll;
    AllHoldConcat(cons, others, w, p);
    ObeysAllConcat(subs, more, w, p);
    var before, after := clusters[..n], clusters[..n + 1];
    assert forall c :: 0 <= c < n ==> after[c] == before[c];
    assert after[n] == clusters[n];
  }

  lemma GatherStep(clusters: seq<Cluster>, groups: seq<seq<nat>>, cs: seq<Constraint>, n: nat, subs: seq<Substitution>,
                   cons: seq<Constraint>, more: seq<Substitution>, others: seq<Constraint>, forbidden: set<Signal>, p: Prime)
    requires CONSTANT in forbidden && Partition(clusters, groups, cs) && n < |clusters|
    requires Gathered(clusters, n, subs, cons, forbidden, p)
    requires NonOverlapping(more) && Inside(more, SignalsOfAll(clusters[n].constraints), forbidden, p)
    requires Kept(others, SignalsOfAll(clusters[n].constraints), forbidden, p)
    requires Equivalent(clusters[n].constraints, more, others, p)
    ensures Gathered(clusters, n + 1, subs + more, cons + others, forbidden, p)
  {
    hide Partition, SignalsOfAll, SignalsBefore, ClustersHold, ObeysAll, AllHold, Kept, Inside, NonOverlapping, Equivalent;
    ClustersApart(clusters, groups, cs, n);
    var signals, added := SignalsBefore(clusters, n), SignalsOfAll(clusters[n].constraints);
    SignalsBeforeNext(clusters, n);
    KeptConcat(cons, others, signals, added, forbidden, p);
    NonOverlapConcat(subs, more, signals, added, forbidden, p);
    GatheredMeaningAll(clusters, n, subs, cons, more, others, p);
  }

  lemma SignalsBeforeNext(clusters: seq<Cluster>, n: nat)
    requires n < |clusters|
    ensures SignalsBefore(clusters, n + 1) == SignalsBefore(clusters, n) + SignalsOfAll(clusters[n].constraints)
  {
    hide SignalsOfAll;
  }

  lemma GatheredMeaningAll(clusters: seq<Cluster>, n: nat, subs: seq<Substitution>, cons: seq<Constraint>,
                           more: seq<Substitution>, others: seq<Constraint>, p: Prime)
    requires n < |clusters|
    requires forall w: Assignment :: ClustersHold(clusters[..n], w, p) <==> ObeysAll(w, subs, p) && AllHold(cons, w, p)
    requires Equivalent(clusters[n].constraints, more, others, p)
    ensures forall w: Assignment ::
      ClustersHold(clusters[..n + 1], w, p) <==> ObeysAll(w, subs + more, p) && AllHold(cons + others, w, p)
  {
    hide ClustersHold, ObeysAll, AllHold;
    forall w: Assignment
      ensures ClustersHold(clusters[..n + 1], w, p) <==> ObeysAll(w, subs + more, p) && AllHold(cons + others, w, p)
    {
      GatheredMeaning(clusters, n, subs, cons, more, others, w, p);
    }
  }

  lemma KeptConcat(cons: seq<Constraint>, others: seq<Constraint>, signals: set<Signal>, added: set<Signal>,
                   forbidden: set<Signal>, p: Prime)
    requires Kept(cons, signals, forbidden, p) && Kept(others, added, forbidden, p)
    ensures Kept(cons + others, signals + added, forbidden, p)
  {
    hide ReducedConstraint, LinearShape, SignalsOf;
    var both := cons + others;
    forall i | 0 <= i < |both|
      ensures KeptConstraint(both[i], signals + added, forbidden, p)
    {
      if i < |cons| {
        assert both[i] == cons[i] && KeptConstraint(cons[i], signals, forbidden, p);
      } else {
        assert both[i] == others[i - |cons|] && KeptConstraint(others[i - |cons|], added, forbidden, p);
      }
    }
  }

  lemma KeptMonotone(cons: seq<Constraint>, signals: set<Signal>, larger: set<Signal>, forbidden: set<Signal>, p: Prime)
    requires Kept(cons, signals, forbidden, p) && signals <= larger
    ensures Kept(cons, larger, forbidden, p)
  {
    hide ReducedConstraint, LinearShape, SignalsOf;
  }

  /** What a loop over all clusters of a system delivers. */
  ghost predicate StageResult(all: seq<Constraint>, subs: seq<Substitution>, cons: seq<Constraint>, forbidden: set<Signal>, p: Prime) {
    && Equivalent(all, subs, cons, p)
    && NonOverlapping(subs)
    && Inside(subs, SignalsOfAll(all), forbidden, p)
    && Kept(cons, SignalsOfAll(all), forbidden, p)
  }

  lemma GatheredAll(clusters: seq<Cluster>, groups: seq<seq<nat>>, linear: seq<Constraint>, subs: seq<Substitution>,
                    cons: seq<Constraint>, forbidden: set<Signal>, p: Prime)
    requires Partition(clusters, groups, NonEmpty(linear))
    requires Gathered(clusters, |clusters|, subs, cons, forbidden, p)
    ensures StageResult(linear, subs, cons, forbidden, p)
  {
    hide Partition, ObeysAll, AllHold, KeptConstraint, SignalsOfAll, SignalsBefore, Reduced;
    assert clusters[..|clusters|] == clusters;
    SignalsBeforeAll(clusters, groups, linear, |clusters|);
    KeptMonotone(cons, SignalsBefore(clusters, |clusters|), SignalsOfAll(linear), forbidden, p);
    forall w: Assignment
      ensures AllHold(linear, w, p) <==> ObeysAll(w, subs, p) && AllHold(cons, w, p)
    {
      PartitionHolds(clusters, groups, linear, w, p);
    }
  }

  lemma GatheredNone(clusters: seq<Cluster>, forbidden: set<Signal>, p: Prime)
    ensures Gathered(clusters, 0, [], [], forbidden, p)
  {
  }

  // ----- equalities between signals

  ghost predicate Renames(subs: seq<Substitution>) {
    forall i :: 0 <= i < |subs| ==> IsRenaming(subs[i])
  }

  ghost predicate IsRenaming(s: Substitution) {
    exists k: Signal :: k != CONSTANT && s.to == map[k := 1]
  }

  ghost predicate EqualitySystem(cs: seq<Constraint>, p: Prime) {
    forall i :: 0 <= i < |cs| ==> IsEquality(cs[i], p)
  }

  ghost predicate Below(cs: seq<Constraint>, n: nat) {
    forall i, s :: 0 <= i < |cs| && s in SignalsOf(cs[i]) ==> s < n
  }

  lemma CollapsedStage(subs: seq<Substitution>, cons: seq<Constraint>, signals: set<Signal>, forbidden: set<Signal>,
                       kept: Signal, p: Prime)
    requires Collapsed(subs, cons, signals, forbidden, kept, p) && CONSTANT !in signals
    ensures NonOverlapping(subs) && Inside(subs, signals, forbidden, p)
    ensures Kept(cons, signals, forbidden, p)
    ensures Renames(subs)
  {
    hide SignalsOf, ReducedConstraint;
    forall i | 0 <= i < |subs|
      ensures IsRenaming(subs[i]) && Reduced(subs[i].to, p)
    {
      assert kept != CONSTANT && subs[i].to == map[kept := 1];
    }
  }

  method EqSimplification(equalities: seq<Constraint>, forbidden: set<Signal>, noVars: nat, p: Prime)
    returns (substitutions: seq<Substitution>, constraints: seq<Constraint>)
    requires CONSTANT in forbidden && EqualitySystem(equalities, p) && Below(equalities, noVars)
    ensures StageResult(equalities, substitutions, constraints, forbidden, p)
    ensures Renames(substitutions)
  {
    hide Partition, Gathered, StageResult, IsEquality, IsRenaming, Collapsed, Connected, SignalsOfAll;
    var clusters;
    ghost var groups;
    clusters, groups := BuildClusters(equalities, noVars);
    substitutions, constraints := [], [];
    GatheredNone(clusters, forbidden, p);
    for c := 0 to |clusters|
      invariant Gathered(clusters, c, substitutions, constraints, forbidden, p)
      invariant Renames(substitutions)
    {
      EqualityClusters(clusters, groups, equalities, c, p);
      var subs, cons;
      ghost var kept;
      subs, cons, kept := EqClusterSimplification(clusters[c], forbidden, p);
      CollapsedStage(subs, cons, SignalsOfAll(clusters[c].constraints), forbidden, kept, p);
      GatherStep(clusters, groups, NonEmpty(equalities), c, substitutions, constraints, subs, cons, forbidden, p);
      substitutions, constraints := substitutions + subs, constraints + cons;
    }
    GatheredAll(clusters, groups, equalities, substitutions, constraints, forbidden, p);
  }

  lemma EqualityClusters(clusters: seq<Cluster>, groups: seq<seq<nat>>, equalities: seq<Constraint>, c: nat, p: Prime)
    requires Partition(clusters, groups, NonEmpty(equalities)) && c < |clusters| && EqualitySystem(equalities, p)
    ensures EqualityCluster(clusters[c].constraints, p)
    ensures CONSTANT !in SignalsOfAll(clusters[c].constraints)
  {
    hide IsEquality, Connected;
    var cs := clusters[c].constraints;
    ClusterFrom(clusters, groups, equalities, c);
    forall i | 0 <= i < |cs|
      ensures IsEquality(cs[i], p)
    {
      assert cs[i] in equalities;
      var j :| 0 <= j < |equalities| && equalities[j] == cs[i];
    }
    ClusterNonEmpty(clusters, groups, NonEmpty(equalities), c);
  }

  lemma ClusterNonEmpty(clusters: seq<Cluster>, groups: seq<seq<nat>>, cs: seq<Constraint>, c: nat)
    requires Partition(clusters, groups, cs) && c < |clusters|
    ensures clusters[c].constraints != []
  {
    assert Holding(clusters[c], groups[c], cs) && groups[c] != [];
  }

  // ----- linear constraints

  lemma UniverseSignals(cs: seq<Constraint>, p: Prime)
    requires LinearSystem(cs, p)
    ensures Universe(cs) == SignalsOfAll(cs) + {CONSTANT}
  {
    forall s
      ensures s in Universe(cs) <==> s in SignalsOfAll(cs) + {CONSTANT}
    {
      if s in Universe(cs) && s != CONSTANT {
        var i :| 0 <= i < |cs| && s in cs[i].c;
        assert s in SignalsOf(cs[i]);
      }
      if s in SignalsOfAll(cs) {
        var i :| 0 <= i < |cs| && s in SignalsOf(cs[i]);
        assert s in cs[i].c;
      }
    }
  }

  lemma SimplifiedStage(r: Simplified, cs: seq<Constraint>, forbidden: set<Signal>, p: Prime)
    requires CONSTANT in forbidden && LinearSystem(cs, p)
    requires WellSimplified(r, forbidden, Universe(cs), p) && SameSolutions(cs, r, p)
    ensures NonOverlapping(r.substitutions)
    ensures Inside(r.substitutions, SignalsOfAll(cs), forbidden, p)
    ensures Kept(r.constraints, SignalsOfAll(cs), forbidden, p)
    ensures Equivalent(cs, r.substitutions, r.constraints, p)
  {
    UniverseSignals(cs, p);
    hide SignalsOfAll, Universe, LinearSystem, AllHold, ObeysAll, NonOverlapping;
    forall i | 0 <= i < |r.constraints|
      ensures KeptConstraint(r.constraints[i], SignalsOfAll(cs), forbidden, p)
    {
      ResidualKept(r.constraints, i, SignalsOfAll(cs), forbidden, p);
    }
  }

  lemma ResidualKept(cs: seq<Constraint>, i: nat, signals: set<Signal>, forbidden: set<Signal>, p: Prime)
    requires Residual(cs, forbidden, signals + {CONSTANT}, p) && i < |cs|
    ensures KeptConstraint(cs[i], signals, forbidden, p)
  {
  }

  /** The substitutions of one cluster have been chosen by the heuristic for its size. */
  ghost predicate ClusterHeuristic(cs: seq<Constraint>, subs: seq<Substitution>, forbidden: set<Signal>, useOldHeuristics: bool) {
    if LessOccurrences(|cs|, useOldHeuristics)
    then forall i, s :: 0 <= i < |cs| && EliminationFewest.LeastOwn(cs, forbidden, i, s) ==> Removed(subs, s)
    else forall i :: 0 <= i < |subs| && subs[i].from in SignalsOfAll(cs) ==> SmallerOnly(subs[i], forbidden)
  }

  ghost predicate HeuristicUpTo(clusters: seq<Cluster>, n: nat, subs: seq<Substitution>, forbidden: set<Signal>, useOldHeuristics: bool)
    requires n <= |clusters|
  {
    forall c :: 0 <= c < n ==> ClusterHeuristic(clusters[c].constraints, subs, forbidden, useOldHeuristics)
  }

  /** Every cluster has been treated by the heuristic for its size. */
  ghost predicate ByHeuristic(linear: seq<Constraint>, subs: seq<Substitution>, forbidden: set<Signal>, useOldHeuristics: bool) {
    exists clusters, groups :: Partition(clusters, groups, NonEmpty(linear))
      && HeuristicUpTo(clusters, |clusters|, subs, forbidden, useOldHeuristics)
  }

  /** Substitutions for the signals of another cluster do not matter. */
  lemma HeuristicKept(cs: seq<Constraint>, subs: seq<Substitution>, more: seq<Substitution>, forbidden: set<Signal>, useOldHeuristics: bool)
    requires ClusterHeuristic(cs, subs, forbidden, useOldHeuristics)
    requires forall i :: 0 <= i < |more| ==> more[i].from !in SignalsOfAll(cs)
    ensures ClusterHeuristic(cs, subs + more, forbidden, useOldHeuristics)
  {
    hide EliminationFewest.LeastOwn, SmallerOnly, SignalsOfAll;
    RemovedConcat(subs, more);
  }

  lemma HeuristicNew(cs: seq<Constraint>, subs: seq<Substitution>, more: seq<Substitution>, forbidden: set<Signal>, useOldHeuristics: bool)
    requires Heuristic(cs, more, forbidden, useOldHeuristics)
    requires forall i :: 0 <= i < |subs| ==> subs[i].from !in SignalsOfAll(cs)
    ensures ClusterHeuristic(cs, subs + more, forbidden, useOldHeuristics)
  {
    hide EliminationFewest.LeastOwn, SmallerOnly, SignalsOfAll;
    RemovedConcat(subs, more);
  }

  lemma RemovedConcat(subs: seq<Substitution>, more: seq<Substitution>)
    ensures forall s :: Removed(subs + more, s) <==> Removed(subs, s) || Removed(more, s)
  {
    var both := subs + more;
    forall s
      ensures Removed(both, s) <==> Removed(subs, s) || Removed(more, s)
    {
      if Removed(subs, s) {
        var i :| 0 <= i < |subs| && subs[i].from == s;
        assert both[i].from == s;
      }
      if Removed(more, s) {
        var i :| 0 <= i < |more| && more[i].from == s;
        assert both[|subs| + i].from == s;
      }
    }
  }

  lemma HeuristicStep(clusters: seq<Cluster>, groups: seq<seq<nat>>, cs: seq<Constraint>, n: nat, subs: seq<Substitution>,
                      more: seq<Substitution>, forbidden: set<Signal>, useOldHeuristics: bool, p: Prime)
    requires Partition(clusters, groups, cs) && n < |clusters|
    requires Inside(subs, SignalsBefore(clusters, n), forbidden, p)
    requires Inside(more, SignalsOfAll(clusters[n].constraints), forbidden, p)
    requires HeuristicUpTo(clusters, n, subs, forbidden, useOldHeuristics)
    requires Heuristic(clusters[n].constraints, more, forbidden, useOldHeuristics)
    ensures HeuristicUpTo(clusters, n + 1, subs + more, forbidden, useOldHeuristics)
  {
    hide Partition, SignalsOfAll, ClusterHeuristic, Heuristic, SignalsBefore, Reduced;
    ClustersApart(clusters, groups, cs, n);
    HeuristicNew(clusters[n].constraints, subs, more, forbidden, useOldHeuristics);
    forall c | 0 <= c < n
      ensures ClusterHeuristic(clusters[c].constraints, subs + more, forbidden, useOldHeuristics)
    {
      EarlierCluster(clusters, n, c);
      HeuristicKept(clusters[c].constraints, subs, more, forbidden, useOldHeuristics);
    }
  }

  lemma EarlierCluster(clusters: seq<Cluster>, n: nat, c: nat)
    requires c < n <= |clusters|
    ensures SignalsOfAll(clusters[c].constraints) <= SignalsBefore(clusters, n)
  {
    hide SignalsOfAll;
  }

  method LinearSimplification(linear: seq<Constraint>, forbidden: set<Signal>, noLabels: nat, useOldHeuristics: bool, p: Prime)
    returns (substitutions: seq<Substitution>, cons: seq<Constraint>)
    requires CONSTANT in forbidden && LinearSystem(linear, p) && Below(linear, noLabels)
    ensures StageResult(linear, substitutions, cons, forbidden, p)
    ensures ByHeuristic(linear, substitutions, forbidden, useOldHeuristics)
  {
    hide Partition, Gathered, StageResult, LinearSystem, WellSimplified, SameSolutions, SignalsOfAll, HeuristicUpTo, Heuristic;
    var clusters;
    ghost var groups;
    clusters, groups := BuildClusters(linear, noLabels);
    substitutions, cons := [], [];
    GatheredNone(clusters, forbidden, p);
    NoHeuristic(clusters, forbidden, useOldHeuristics);
    for c := 0 to |clusters|
      invariant Gathered(clusters, c, substitutions, cons, forbidden, p)
      invariant HeuristicUpTo(clusters, c, substitutions, forbidden, useOldHeuristics)
    {
      var constraints := clusters[c].constraints;
      LinearClusters(clusters, groups, linear, c, p);
      var result := FullSimplification(constraints, forbidden, useOldHeuristics, p);
      SimplifiedStage(result, constraints, forbidden, p);
      GatheredInside(clusters, c, substitutions, cons, forbidden, p);
      HeuristicStep(clusters, groups, NonEmpty(linear), c, substitutions, result.substitutions, forbidden, useOldHeuristics, p);
      GatherStep(clusters, groups, NonEmpty(linear), c, substitutions, cons, result.substitutions, result.constraints, forbidden, p);
      substitutions, cons := substitutions + result.substitutions, cons + result.constraints;
    }
    GatheredAll(clusters, groups, linear, substitutions, cons, forbidden, p);
  }

  lemma NoHeuristic(clusters: seq<Cluster>, forbidden: set<Signal>, useOldHeuristics: bool)
    ensures HeuristicUpTo(clusters, 0, [], forbidden, useOldHeuristics)
  {
  }

  lemma GatheredInside(clusters: seq<Cluster>, n: nat, subs: seq<Substitution>, cons: seq<Constraint>, forbidden: set<Signal>, p: Prime)
    requires n <= |clusters| && Gathered(clusters, n, subs, cons, forbidden, p)
    ensures Inside(subs, SignalsBefore(clusters, n), forbidden, p)
  {
  }

  lemma LinearClusters(clusters: seq<Cluster>, groups: seq<seq<nat>>, linear: seq<Constraint>, c: nat, p: Prime)
    requires Partition(clusters, groups, NonEmpty(linear)) && c < |clusters| && LinearSystem(linear, p)
    ensures LinearSystem(clusters[c].constraints, p)
  {
    hide Connected, LinearConstraint;
    var cs := clusters[c].constraints;
    ClusterFrom(clusters, groups, linear, c);
    forall i | 0 <= i < |cs|
      ensures LinearConstraint(cs[i], p)
    {
      assert cs[i] in linear;
      var j :| 0 <= j < |linear| && linear[j] == cs[i];
    }
  }

  // ----- equalities between a signal and a constant

  /** A constraint `v * s + k = 0`, the constant being absent when it is zero. */
  ghost predicate ConstantEquality(cn: Constraint, s: Signal, p: Prime) {
    LinearConstraint(cn, p) && s != CONSTANT && s in cn.c && cn.c.Keys <= {s, CONSTANT}
  }

  ghost predicate IsConstantEquality(cn: Constraint, p: Prime) {
    exists s: Signal :: ConstantEquality(cn, s, p)
  }

  ghost predicate ConstantEqualities(cs: seq<Constraint>, p: Prime) {
    forall i :: 0 <= i < |cs| ==> IsConstantEquality(cs[i], p)
  }

  ghost predicate Constants(subs: seq<Substitution>, p: Prime) {
    forall i :: 0 <= i < |subs| ==> IsConstant(subs[i], p)
  }

  ghost predicate IsConstant(s: Substitution, p: Prime) {
    s.from != CONSTANT && s.to.Keys <= {CONSTANT} && Reduced(s.to, p)
  }

  /** The signal of an equality with a constant. */
  ghost function SignalOf(cn: Constraint, p: Prime): (s: Signal)
    requires IsConstantEquality(cn, p)
    ensures ConstantEquality(cn, s, p) && SignalsOf(cn) == {s}
  {
    var s: Signal :| ConstantEquality(cn, s, p);
    assert SignalsOf(cn) == {s};
    s
  }

  /** The substitution that an equality with a constant gives. */
  ghost function ConstantOf(cn: Constraint, p: Prime): (r: Substitution)
    requires IsConstantEquality(cn, p)
    ensures r.from == SignalOf(cn, p)
  {
    var s := SignalOf(cn, p);
    ClearCoefficient(cn, s, p);
    Substitution(s, ClearNormalized(cn.c, s, p))
  }

  /** The substitutions for all signals that may be removed. */
  ghost function ConstantSubs(cEq: seq<Constraint>, forbidden: set<Signal>, p: Prime): seq<Substitution>
    requires ConstantEqualities(cEq, p)
  {
    if cEq == [] then []
    else
      var last := |cEq| - 1;
      ConstantSubs(cEq[..last], forbidden, p) + if SignalOf(cEq[last], p) in forbidden then [] else [ConstantOf(cEq[last], p)]
  }

  /** The equalities that remain constraints. */
  ghost function ConstantRest(cEq: seq<Constraint>, forbidden: set<Signal>, p: Prime): seq<Constraint>
    requires ConstantEqualities(cEq, p)
  {
    if cEq == [] then []
    else
      var last := |cEq| - 1;
      ConstantRest(cEq[..last], forbidden, p) + if SignalOf(cEq[last], p) in forbidden then [cEq[last]] else []
  }

  method ConstantEqSimplification(cEq: seq<Constraint>, forbidden: set<Signal>, p: Prime)
    returns (subs: seq<Substitution>, cons: seq<Constraint>)
    requires CONSTANT in forbidden && ConstantEqualities(cEq, p)
    ensures subs == ConstantSubs(cEq, forbidden, p) && cons == ConstantRest(cEq, forbidden, p)
    ensures ConstantStage(cEq, subs, cons, forbidden, p)
  {
    hide IsConstantEquality, ClearNormalized, SignalsOf, ConstantStage;
    subs, cons := [], [];
    assert cEq[..0] == [];
    for i := 0 to |cEq|
      invariant ConstantEqualities(cEq[..i], p)
      invariant subs == ConstantSubs(cEq[..i], forbidden, p) && cons == ConstantRest(cEq[..i], forbidden, p)
    {
      var constraint := cEq[i];
      var signal := OnlySignal(constraint, p);
      assert signal == SignalOf(constraint, p) by { assert signal in {SignalOf(constraint, p)}; }
      assert cEq[..i + 1][..i] == cEq[..i] && cEq[..i + 1][i] == constraint;
      if signal in forbidden {
        cons := cons + [constraint];
      } else {
        ClearCoefficient(constraint, signal, p);
        subs := subs + [Substitution(signal, ClearNormalized(constraint.c, signal, p))];
      }
    }
    assert cEq[..|cEq|] == cEq;
    ConstantStageHolds(cEq, forbidden, p);
  }

  /** What the equalities with constants become. */
  ghost predicate ConstantStage(cEq: seq<Constraint>, subs: seq<Substitution>, cons: seq<Constraint>, forbidden: set<Signal>, p: Prime) {
    && Equivalent(cEq, subs, cons, p)
    && Constants(subs, p) && Inside(subs, SignalsOfAll(cEq), forbidden, p)
    && Kept(cons, SignalsOfAll(cEq), forbidden, p)
    && forall s :: Removed(subs, s) <==> s in SignalsOfAll(cEq) - forbidden
  }

  lemma {:induction false} ConstantStageHolds(cEq: seq<Constraint>, forbidden: set<Signal>, p: Prime)
    requires CONSTANT in forbidden && ConstantEqualities(cEq, p)
    ensures ConstantStage(cEq, ConstantSubs(cEq, forbidden, p), ConstantRest(cEq, forbidden, p), forbidden, p)
  {
    if cEq == [] {
      StartConstants(p);
    } else {
      var last := |cEq| - 1;
      ConstantStageHolds(cEq[..last], forbidden, p);
      NextConstant(cEq, last, ConstantSubs(cEq[..last], forbidden, p), ConstantRest(cEq[..last], forbidden, p), forbidden, p);
      assert cEq[..last + 1] == cEq;
    }
  }

  lemma NextConstant(cEq: seq<Constraint>, i: nat, subs: seq<Substitution>, cons: seq<Constraint>, forbidden: set<Signal>, p: Prime)
    requires i < |cEq| && IsConstantEquality(cEq[i], p) && ConstantStage(cEq[..i], subs, cons, forbidden, p)
    ensures var taken := SignalOf(cEq[i], p) !in forbidden;
      ConstantStage(cEq[..i + 1], subs + (if taken then [ConstantOf(cEq[i], p)] else []), cons + (if taken then [] else [cEq[i]]), forbidden, p)
  {
    hide IsConstantEquality, Kept, Constants, Equivalent, Removed, SignalsOfAll, ClearNormalized, ConstantEquality, Reduced;
    var constraint, signal := cEq[i], SignalOf(cEq[i], p);
    assert cEq[..i] + [constraint] == cEq[..i + 1];
    SignalsOfAllNext(cEq, i);
    if signal in forbidden {
      ConstantKept(cEq[..i], constraint, signal, subs, cons, forbidden, p);
      assert subs + [] == subs;
    } else {
      ClearCoefficient(constraint, signal, p);
      ConstantTaken(cEq[..i], constraint, signal, subs, cons, forbidden, p);
      RemovedMore(subs, ConstantOf(constraint, p));
      assert cons + [] == cons;
    }
  }

  lemma StartConstants(p: Prime)
    ensures SignalsOfAll([]) == {} && forall s :: !Removed([], s)
  {
  }

  /** The last of the ordered signals, which is the only one. */
  method OnlySignal(cn: Constraint, ghost p: Prime) returns (s: Signal)
    requires IsConstantEquality(cn, p)
    ensures ConstantEquality(cn, s, p) && SignalsOf(cn) == {s}
  {
    ghost var t: Signal :| ConstantEquality(cn, t, p);
    assert SignalsOf(cn) == {t};
    var signals := Ascending.Sorted(SignalsOf(cn));
    s := signals[|signals| - 1];
    assert s in signals;
  }

  lemma ClearCoefficient(cn: Constraint, s: Signal, p: Prime)
    requires ConstantEquality(cn, s, p)
    ensures cn.c[s] != 0 && Mul(cn.c[s], -1, p) % p != 0
  {
    NegationNonzero(cn.c[s], p);
    SmallMod(p, p - cn.c[s]);
  }

  lemma ConstantKept(before: seq<Constraint>, cn: Constraint, s: Signal, subs: seq<Substitution>, cons: seq<Constraint>,
                     forbidden: set<Signal>, p: Prime)
    requires ConstantEquality(cn, s, p) && s in forbidden
    requires Equivalent(before, subs, cons, p) && Kept(cons, SignalsOfAll(before), forbidden, p)
    ensures Equivalent(before + [cn], subs, cons + [cn], p)
    ensures Kept(cons + [cn], SignalsOfAll(before) + {s}, forbidden, p)
  {
    assert KeptConstraint(cn, {s}, forbidden, p);
    hide KeptConstraint, SignalsOfAll, AllHold, ObeysAll, ConstantEquality;
    KeptConcat(cons, [cn], SignalsOfAll(before), {s}, forbidden, p);
    forall w: Assignment
      ensures AllHold(before + [cn], w, p) <==> ObeysAll(w, subs, p) && AllHold(cons + [cn], w, p)
    {
      AllHoldAppend(before, cn, w, p);
      AllHoldAppend(cons, cn, w, p);
    }
  }

  lemma ConstantTaken(before: seq<Constraint>, cn: Constraint, s: Signal, subs: seq<Substitution>, cons: seq<Constraint>,
                      forbidden: set<Signal>, p: Prime)
    requires ConstantEquality(cn, s, p) && s !in forbidden
    requires cn.c[s] != 0 && Mul(cn.c[s], -1, p) % p != 0
    requires Equivalent(before, subs, cons, p)
    requires Constants(subs, p) && Inside(subs, SignalsOfAll(before), forbidden, p)
    requires Kept(cons, SignalsOfAll(before), forbidden, p)
    ensures var sub := Substitution(s, ClearNormalized(cn.c, s, p));
      && Equivalent(before + [cn], subs + [sub], cons, p)
      && Constants(subs + [sub], p) && Inside(subs + [sub], SignalsOfAll(before) + {s}, forbidden, p)
    ensures Kept(cons, SignalsOfAll(before) + {s}, forbidden, p)
  {
    var sub := Substitution(s, ClearNormalized(cn.c, s, p));
    assert IsConstant(sub, p);
    hide SignalsOfAll, AllHold, ObeysAll, ClearNormalized, Reduced;
    KeptMonotone(cons, SignalsOfAll(before), SignalsOfAll(before) + {s}, forbidden, p);
    forall w: Assignment
      ensures AllHold(before + [cn], w, p) <==> ObeysAll(w, subs + [sub], p) && AllHold(cons, w, p)
    {
      AllHoldAppend(before, cn, w, p);
      ObeysAllConcat(subs, [sub], w, p);
      ConstantMeaning(cn, s, w, p);
    }
  }

  lemma ConstantMeaning(cn: Constraint, s: Signal, w: Assignment, p: Prime)
    requires ConstantEquality(cn, s, p)
    requires cn.c[s] != 0 && Mul(cn.c[s], -1, p) % p != 0
    ensures Holds(cn, w, p) <==> ObeysAll(w, [Substitution(s, ClearNormalized(cn.c, s, p))], p)
  {
    assert IsLinear(cn) && 0 < cn.c[s] < p;
    hide *;
    LinearHoldsVanishes(cn, w, p);
    ClearNormalizedValue(cn.c, s, w, p);
    ObeysOne(w, Substitution(s, ClearNormalized(cn.c, s, p)), p);
  }

  lemma ObeysOne(w: Assignment, s: Substitution, p: Prime)
    ensures ObeysAll(w, [s], p) <==> Obeys(w, s, p)
  {
    assert [s][0] == s;
  }
}
