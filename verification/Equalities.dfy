/** Equalities between two signals and between a signal and a constant:
    constraint_list/src/constraint_simplification.rs. */
module Equalities {
  import opened Wrappers
  import opened Field
  import opened Coefficients
  import opened Algebra
  import opened Constraints
  import opened Elimination
  import opened BackSubstitution
  import opened Clusters
  import opened Ascending

  /** A constraint `v * s - v * t = 0` between two signals. */
  ghost predicate IsEquality(cn: Constraint, p: Prime) {
    IsLinear(cn) && exists s: Signal, t: Signal :: EqualityOf(cn, s, t, p)
  }

  ghost predicate EqualityOf(cn: Constraint, s: Signal, t: Signal, p: Prime) {
    && s != t && s != CONSTANT && t != CONSTANT
    && cn.c.Keys == {s, t}
    && 0 < cn.c[s] < p && 0 < cn.c[t] < p
    && cn.c[t] == Mul(-1, cn.c[s], p)
  }

  lemma EqualitySymmetric(cn: Constraint, s: Signal, t: Signal, p: Prime)
    requires EqualityOf(cn, s, t, p)
    ensures EqualityOf(cn, t, s, p)
  {
    var v, u := cn.c[s], cn.c[t];
    NegationNonzero(v, p);
    NegationNonzero(u, p);
    assert v * -1 == -1 * v && u * -1 == -1 * u;
  }

  /** An equality holds when its two signals have the same value. */
  lemma EqualityMeaning(cn: Constraint, s: Signal, t: Signal, w: Assignment, p: Prime)
    requires IsLinear(cn) && EqualityOf(cn, s, t, p)
    ensures Holds(cn, w, p) <==> Cong(p, w(s), w(t))
  {
    var v := cn.c[s];
    LinearHoldsVanishes(cn, w, p);
    EvalSplit(cn.c, w, s);
    var rest := cn.c - {s};
    assert rest == map[t := cn.c[t]];
    EvalSingle(t, cn.c[t], w);
    EqualityStep(p, v, cn.c[t], w(s), w(t), Eval(cn.c, w));
  }

  lemma EqualityStep(p: Prime, v: int, u: int, x: int, y: int, total: int)
    requires 0 < v < p && u == Mul(-1, v, p) && total == v * x + u * y
    ensures Cong(p, total, 0) <==> Cong(p, x, y)
  {
    SmallMod(p, v);
    CongMod(p, -1 * v);
    CongMul(p, u, -1 * v, y, y);
    CongAdd(p, v * x, v * x, u * y, -1 * v * y);
    assert v * x + -1 * v * y == v * (x - y) by {
      assert v * (x - y) == v * x - v * y;
      assert -1 * v * y == -(v * y);
    }
    CongDiff(p, x, y);
    if Cong(p, total, 0) {
      Cancel(p, v, x - y);
    }
    if Cong(p, x, y) {
      CongMul(p, v, v, x - y, 0);
    }
  }

  ghost predicate EqualityCluster(cs: seq<Constraint>, p: Prime) {
    cs != [] && Connected(cs) && forall i :: 0 <= i < |cs| ==> IsEquality(cs[i], p)
  }

  /** All signals of the cluster have the same value. */
  ghost predicate AllEqual(signals: set<Signal>, w: Assignment, p: Prime) {
    forall s, t :: s in signals && t in signals ==> Cong(p, w(s), w(t))
  }

  /** Connectivity spreads equality over the whole cluster. */
  lemma ClusterMeaning(cs: seq<Constraint>, w: Assignment, p: Prime)
    requires EqualityCluster(cs, p)
    ensures AllHold(cs, w, p) <==> AllEqual(SignalsOfAll(cs), w, p)
  {
    hide Connected;
    if AllHold(cs, w, p) {
      forall s, t | s in SignalsOfAll(cs) && t in SignalsOfAll(cs)
        ensures Cong(p, w(s), w(t))
      {
        AllLikeOne(cs, w, p, s, t);
      }
    }
    if AllEqual(SignalsOfAll(cs), w, p) {
      forall i | 0 <= i < |cs|
        ensures Holds(cs[i], w, p)
      {
        var s: Signal, t: Signal :| EqualityOf(cs[i], s, t, p);
        assert s in SignalsOf(cs[i]) && t in SignalsOf(cs[i]);
        EqualityMeaning(cs[i], s, t, w, p);
      }
    }
  }

  /** The constraints all of whose signals have the value x. */
  ghost function Like(cs: seq<Constraint>, w: Assignment, p: Prime, x: int): set<nat> {
    set i | 0 <= i < |cs| && forall s :: s in SignalsOf(cs[i]) ==> Cong(p, w(s), x)
  }

  lemma OneMakesAll(cs: seq<Constraint>, w: Assignment, p: Prime, i: nat, s: Signal, x: int)
    requires i < |cs| && IsEquality(cs[i], p) && Holds(cs[i], w, p)
    requires s in SignalsOf(cs[i]) && Cong(p, w(s), x)
    ensures i in Like(cs, w, p, x)
  {
    var t: Signal, u: Signal :| EqualityOf(cs[i], t, u, p);
    EqualityMeaning(cs[i], t, u, w, p);
    assert SignalsOf(cs[i]) == {t, u};
  }

  lemma AllLikeOne(cs: seq<Constraint>, w: Assignment, p: Prime, s: Signal, t: Signal)
    requires EqualityCluster(cs, p) && AllHold(cs, w, p)
    requires s in SignalsOfAll(cs) && t in SignalsOfAll(cs)
    ensures Cong(p, w(s), w(t))
  {
    var i :| 0 <= i < |cs| && t in SignalsOf(cs[i]);
    var j :| 0 <= j < |cs| && s in SignalsOf(cs[j]);
    var side := Like(cs, w, p, w(t));
    OneMakesAll(cs, w, p, i, t, w(t));
    if j !in side {
      assert Cuts(|cs|, side);
      assert Bridged(cs, side);
      var k: nat, l: nat :| Crosses(cs, side, k, l);
      var u :| u in SignalsOf(cs[k]) && u in SignalsOf(cs[l]);
      OneMakesAll(cs, w, p, l, u, w(t));
    }
  }

  // ----- one cluster of equalities

  /** What is left of a cluster: every signal but one is replaced by that one, or, if it
      must stay, put equal to it. */
  ghost predicate Collapsed(subs: seq<Substitution>, cons: seq<Constraint>, signals: set<Signal>, forbidden: set<Signal>,
                            kept: Signal, p: Prime)
  {
    && kept in signals
    && (forall i :: 0 <= i < |subs| ==>
      subs[i].from in signals - forbidden - {kept} && subs[i].to == map[kept := 1])
    && (forall i, j :: 0 <= i < j < |subs| ==> subs[i].from != subs[j].from)
    && (forall i :: 0 <= i < |cons| ==> EqualsKept(cons[i], signals, forbidden, p))
    && (forall w: Assignment :: AllEqual(signals, w, p) <==> ObeysAll(w, subs, p) && AllHold(cons, w, p))
  }

  /** A residual equality, in the stored form or with explicit zeros. */
  ghost predicate EqualsKept(cn: Constraint, signals: set<Signal>, forbidden: set<Signal>, p: Prime) {
    && ReducedConstraint(cn, p)
    && (cn.a == map[] || cn.a == NOTHING) && (cn.b == map[] || cn.b == NOTHING)
    && SignalsOf(cn) <= signals && SignalsOf(cn) <= forbidden
  }

  /** `signal - kept = 0` as the source builds it. */
  function EqualityConstraint(signal: Signal, kept: Signal, p: Prime): Option<Constraint> {
    IntoConstraint(Minus(Sig(signal), Sig(kept), p), p)
  }

  lemma EqualityConstraintShape(signal: Signal, kept: Signal, signals: set<Signal>, forbidden: set<Signal>, p: Prime)
    requires {signal, kept} <= signals && {signal, kept} <= forbidden
    ensures EqualityConstraint(signal, kept, p).Some?
    ensures EqualsKept(EqualityConstraint(signal, kept, p).value, signals, forbidden, p)
  {
  }

  lemma EqualityConstraintHolds(signal: Signal, kept: Signal, w: Assignment, p: Prime)
    ensures EqualityConstraint(signal, kept, p).Some?
    ensures Holds(EqualityConstraint(signal, kept, p).value, w, p) <==> Cong(p, w(signal), w(kept))
  {
    hide Cong;
    var e := Minus(Sig(signal), Sig(kept), p);
    MinusValue(Sig(signal), Sig(kept), w, p);
    IntoConstraintHolds(e, w, p);
    Difference(p, w(signal), w(kept), w(signal), w(kept), Value(e, w));
  }

  lemma RenameObeys(s: Signal, kept: Signal, w: Assignment, p: Prime)
    ensures Obeys(w, Substitution(s, map[kept := 1]), p) <==> Cong(p, w(s), w(kept))
  {
    EvalSingle(kept, 1, w);
  }

  /** Enough for Collapsed: every other signal is substituted or constrained. */
  lemma CollapsedMeaning(subs: seq<Substitution>, cons: seq<Constraint>, targets: seq<Signal>, signals: set<Signal>,
                         kept: Signal, w: Assignment, p: Prime)
    requires kept in signals && |targets| == |cons|
    requires forall i :: 0 <= i < |subs| ==> subs[i].from in signals && subs[i].to == map[kept := 1]
    requires forall i :: 0 <= i < |cons| ==> targets[i] in signals && (Holds(cons[i], w, p) <==> Cong(p, w(targets[i]), w(kept)))
    requires forall s :: s in signals && s != kept ==> s in targets || Removed(subs, s)
    ensures AllEqual(signals, w, p) <==> ObeysAll(w, subs, p) && AllHold(cons, w, p)
  {
    forall i | 0 <= i < |subs|
      ensures Obeys(w, subs[i], p) <==> Cong(p, w(subs[i].from), w(kept))
    {
      RenameObeys(subs[i].from, kept, w, p);
    }
    if ObeysAll(w, subs, p) && AllHold(cons, w, p) {
      forall s | s in signals
        ensures Cong(p, w(s), w(kept))
      {
        if s in targets {
          var i :| 0 <= i < |targets| && targets[i] == s;
          assert Holds(cons[i], w, p);
        }
      }
    }
  }

  /** The signals of which one is kept: those that have to stay, or all if none has to. */
  ghost function Staying(signals: set<Signal>, forbidden: set<Signal>): set<Signal> {
    if signals * forbidden != {} then signals * forbidden else signals
  }

  /** The two signals of an equality in order. */
  method TwoSignals(constraint: Constraint, ghost p: Prime) returns (s0: Signal, s1: Signal)
    requires IsEquality(constraint, p)
    ensures s0 < s1 && SignalsOf(constraint) == {s0, s1} && IsLinear(constraint)
    ensures EqualityOf(constraint, s0, s1, p) && EqualityOf(constraint, s1, s0, p)
  {
    hide *;
    ghost var s, t := EqualityPair(constraint, p);
    EqualitySignals(constraint, s, t, p);
    EqualitySymmetric(constraint, s, t, p);
    var signals := Sorted(SignalsOf(constraint));
    PairSorted(signals, s, t);
    s0, s1 := signals[0], signals[1];
  }

  lemma EqualityPair(cn: Constraint, p: Prime) returns (s: Signal, t: Signal)
    requires IsEquality(cn, p)
    ensures IsLinear(cn) && EqualityOf(cn, s, t, p)
  {
    hide EqualityOf;
    s, t :| EqualityOf(cn, s, t, p);
  }

  lemma EqualitySignals(cn: Constraint, s: Signal, t: Signal, p: Prime)
    requires IsLinear(cn) && EqualityOf(cn, s, t, p)
    ensures SignalsOf(cn) == {s, t} && s != t
  {
  }

  /** Two elements in order. */
  lemma PairSorted(signals: seq<Signal>, s: Signal, t: Signal)
    requires s != t && |signals| == |{s, t}| && Increasing(signals)
    requires forall x :: x in signals <==> x in {s, t}
    ensures |signals| == 2 && signals[0] < signals[1]
    ensures (signals[0] == s && signals[1] == t) || (signals[0] == t && signals[1] == s)
  {
    assert |{s, t}| == 2;
    assert signals[0] in signals && signals[1] in signals;
  }

  lemma TwoStaying(s0: Signal, s1: Signal, forbidden: set<Signal>)
    requires s0 < s1
    ensures LeastOf(Some(if s0 in forbidden || s1 !in forbidden then s0 else s1), Staying({s0, s1}, forbidden))
  {
    assert s0 in forbidden ==> s0 in {s0, s1} * forbidden;
    assert s1 in forbidden ==> s1 in {s0, s1} * forbidden;
  }

  /** A cluster of one equality. */
  method SingleEquality(constraint: Constraint, forbidden: set<Signal>, p: Prime)
    returns (subs: seq<Substitution>, cons: seq<Constraint>, ghost kept: Signal)
    requires IsEquality(constraint, p)
    ensures Collapsed(subs, cons, SignalsOf(constraint), forbidden, kept, p)
    ensures LeastOf(Some(kept), Staying(SignalsOf(constraint), forbidden))
  {
    var s0, s1 := TwoSignals(constraint, p);
    hide EqualityOf, Collapsed, SignalsOf;
    TwoStaying(s0, s1, forbidden);
    if s0 in forbidden && s1 in forbidden {
      subs, cons, kept := [], [constraint], s0;
      ResidualCollapsed(constraint, s1, s0, forbidden, p);
    } else if s0 in forbidden {
      subs, cons, kept := [Substitution(s1, map[s0 := 1])], [], s0;
      SubstitutedCollapsed(constraint, s1, s0, forbidden, p);
    } else if s1 in forbidden {
      subs, cons, kept := [Substitution(s0, map[s1 := 1])], [], s1;
      SubstitutedCollapsed(constraint, s0, s1, forbidden, p);
    } else {
      var (l, r) := if s0 > s1 then (s0, s1) else (s1, s0);
      subs, cons, kept := [Substitution(l, map[r := 1])], [], r;
      SubstitutedCollapsed(constraint, l, r, forbidden, p);
    }
  }

  lemma ResidualCollapsed(cn: Constraint, other: Signal, kept: Signal, forbidden: set<Signal>, p: Prime)
    requires IsLinear(cn) && EqualityOf(cn, other, kept, p) && other in forbidden && kept in forbidden
    ensures Collapsed([], [cn], SignalsOf(cn), forbidden, kept, p)
  {
    EqualityShape(cn, other, kept, forbidden, p);
    hide EqualityOf, SignalsOf, EqualsKept, Cong;
    forall w: Assignment
      ensures AllEqual(SignalsOf(cn), w, p) <==> ObeysAll(w, [], p) && AllHold([cn], w, p)
    {
      EqualityMeaning(cn, other, kept, w, p);
      CollapsedMeaning([], [cn], [other], SignalsOf(cn), kept, w, p);
    }
  }

  lemma SubstitutedCollapsed(cn: Constraint, other: Signal, kept: Signal, forbidden: set<Signal>, p: Prime)
    requires IsLinear(cn) && EqualityOf(cn, other, kept, p) && other !in forbidden
    ensures Collapsed([Substitution(other, map[kept := 1])], [], SignalsOf(cn), forbidden, kept, p)
  {
    EqualityShape(cn, other, kept, forbidden, p);
    hide EqualityOf, SignalsOf, EqualsKept, Cong;
    var subs := [Substitution(other, map[kept := 1])];
    assert subs[0].from == other;
    assert Removed(subs, other);
    forall w: Assignment
      ensures AllEqual(SignalsOf(cn), w, p) <==> ObeysAll(w, subs, p) && AllHold([], w, p)
    {
      CollapsedMeaning(subs, [], [], SignalsOf(cn), kept, w, p);
    }
  }

  lemma EqualityShape(cn: Constraint, s: Signal, t: Signal, forbidden: set<Signal>, p: Prime)
    requires IsLinear(cn) && EqualityOf(cn, s, t, p)
    ensures SignalsOf(cn) == {s, t} && s != t
    ensures s in forbidden && t in forbidden ==> EqualsKept(cn, SignalsOf(cn), forbidden, p)
  {
  }

  /** A cluster of several equalities: its least forbidden signal is kept, or its least
      signal when none is forbidden. */
  method EqClusterSimplification(cluster: Cluster, forbidden: set<Signal>, p: Prime)
    returns (subs: seq<Substitution>, cons: seq<Constraint>, ghost kept: Signal)
    requires EqualityCluster(cluster.constraints, p)
    ensures Collapsed(subs, cons, SignalsOfAll(cluster.constraints), forbidden, kept, p)
    ensures LeastOf(Some(kept), Staying(SignalsOfAll(cluster.constraints), forbidden))
    ensures forall w: Assignment :: AllHold(cluster.constraints, w, p) <==> ObeysAll(w, subs, p) && AllHold(cons, w, p)
  {
    ghost var signals := SignalsOfAll(cluster.constraints);
    forall w: Assignment
      ensures AllHold(cluster.constraints, w, p) <==> AllEqual(signals, w, p)
    {
      ClusterMeaning(cluster.constraints, w, p);
    }
    if |cluster.constraints| == 1 {
      assert signals == SignalsOf(cluster.constraints[0]);
      subs, cons, kept := SingleEquality(cluster.constraints[0], forbidden, p);
    } else {
      var remains, remove, minRemains, minRemove := Signals(cluster.constraints, forbidden, p);
      assert remains == signals * forbidden;
      assert remains == {} ==> remove == signals;
      assert Staying(signals, forbidden) == if remains != {} then remains else remove;
      hide *;
      subs, cons, kept := Redirect(remains, remove, minRemains, minRemove, forbidden, p);
    }
  }

  ghost predicate LeastOf(least: Option<Signal>, s: set<Signal>) {
    match least
    case None => s == {}
    case Some(x) => x in s && forall y :: y in s ==> x <= y
  }

  function Least2(least: Option<Signal>, s: Signal): Option<Signal> {
    match least
    case None => Some(s)
    case Some(x) => Some(if s < x then s else x)
  }

  /** The signals of the cluster, those that must stay apart from the others. */
  method Signals(cs: seq<Constraint>, forbidden: set<Signal>, ghost p: Prime)
    returns (remains: set<Signal>, remove: set<Signal>, minRemains: Option<Signal>, minRemove: Option<Signal>)
    requires EqualityCluster(cs, p)
    ensures remains + remove == SignalsOfAll(cs) != {}
    ensures remains <= forbidden && remove !! forbidden
    ensures LeastOf(minRemains, remains) && LeastOf(minRemove, remove)
  {
    ghost var s: Signal, t: Signal :| EqualityOf(cs[0], s, t, p);
    assert s in SignalsOf(cs[0]);
    assert s in SignalsOfAll(cs);
    hide SignalsOf, SignalsOfAll, EqualityCluster, LeastOf;
    remains, remove, minRemains, minRemove := {}, {}, None, None;
    LeastOfNone();
    for i := 0 to |cs|
      invariant remains + remove == SignalsOfAll(cs[..i])
      invariant remains <= forbidden && remove !! forbidden
      invariant LeastOf(minRemains, remains) && LeastOf(minRemove, remove)
    {
      SignalsOfAllNext(cs, i);
      remains, remove, minRemains, minRemove := AddSignals(cs[i], forbidden, remains, remove, minRemains, minRemove);
    }
    assert cs[..|cs|] == cs;
  }

  lemma LeastOfNone()
    ensures LeastOf(None, {}) && SignalsOfAll([]) == {}
  {
  }

  lemma LeastOfMore(least: Option<Signal>, s: set<Signal>, x: Signal)
    requires LeastOf(least, s)
    ensures LeastOf(Least2(least, x), s + {x})
  {
  }

  /** The inner loop of Signals, over one constraint. */
  method AddSignals(cn: Constraint, forbidden: set<Signal>, remains: set<Signal>, remove: set<Signal>,
                    minRemains: Option<Signal>, minRemove: Option<Signal>)
    returns (remains': set<Signal>, remove': set<Signal>, minRemains': Option<Signal>, minRemove': Option<Signal>)
    requires remains <= forbidden && remove !! forbidden
    requires LeastOf(minRemains, remains) && LeastOf(minRemove, remove)
    ensures remains' + remove' == remains + remove + SignalsOf(cn)
    ensures remains' <= forbidden && remove' !! forbidden
    ensures LeastOf(minRemains', remains') && LeastOf(minRemove', remove')
  {
    hide SignalsOf, LeastOf;
    remains', remove', minRemains', minRemove' := remains, remove, minRemains, minRemove;
    var signals := Sorted(SignalsOf(cn));
    for j := 0 to |signals|
      invariant forall x :: (x in remains' || x in remove') <==> (x in remains || x in remove || x in signals[..j])
      invariant remains' <= forbidden && remove' !! forbidden
      invariant LeastOf(minRemains', remains') && LeastOf(minRemove', remove')
    {
      var signal := signals[j];
      if signal in forbidden {
        LeastOfMore(minRemains', remains', signal);
        remains', minRemains' := remains' + {signal}, Least2(minRemains', signal);
      } else {
        LeastOfMore(minRemove', remove', signal);
        remove', minRemove' := remove' + {signal}, Least2(minRemove', signal);
      }
    }
    assert signals[..|signals|] == signals;
  }

  lemma SignalsOfAllNext(cs: seq<Constraint>, i: nat)
    requires i < |cs|
    ensures SignalsOfAll(cs[..i + 1]) == SignalsOfAll(cs[..i]) + SignalsOf(cs[i])
  {
    hide SignalsOf;
    var ds, es := cs[..i + 1], cs[..i];
    assert forall k :: 0 <= k < i ==> ds[k] == es[k];
    assert ds[i] == cs[i];
    forall s
      ensures s in SignalsOfAll(ds) <==> s in SignalsOfAll(es) + SignalsOf(cs[i])
    {
      if s in SignalsOfAll(es) {
        var k :| 0 <= k < |es| && s in SignalsOf(es[k]);
        assert s in SignalsOf(ds[k]);
      }
      if s in SignalsOf(cs[i]) {
        assert s in SignalsOf(ds[i]);
      }
    }
  }

  /** Every signal but the kept one becomes a constraint or a substitution. */
  method Redirect(remains: set<Signal>, remove: set<Signal>, minRemains: Option<Signal>, minRemove: Option<Signal>,
                  forbidden: set<Signal>, p: Prime)
    returns (subs: seq<Substitution>, cons: seq<Constraint>, ghost kept: Signal)
    requires remains + remove != {} && remains <= forbidden && remove !! forbidden
    requires LeastOf(minRemains, remains) && LeastOf(minRemove, remove)
    ensures Collapsed(subs, cons, remains + remove, forbidden, kept, p)
    ensures LeastOf(Some(kept), if remains != {} then remains else remove)
  {
    var rhSignal := if minRemains.Some? then minRemains.value else minRemove.value;
    kept := rhSignal;
    var stay := Sorted(remains - {rhSignal});
    cons := ResidualEqualities(stay, rhSignal, remains + remove, forbidden, p);
    subs := Renamings(remove - {rhSignal}, rhSignal);
    hide *;
    RedirectCollapsed(subs, cons, stay, remains, remove, rhSignal, forbidden, p);
  }

  lemma RedirectCollapsed(subs: seq<Substitution>, cons: seq<Constraint>, stay: seq<Signal>, remains: set<Signal>,
                          remove: set<Signal>, kept: Signal, forbidden: set<Signal>, p: Prime)
    requires kept in remains + remove && |stay| == |cons| && remove !! forbidden
    requires forall s :: s in stay <==> s in remains - {kept}
    requires forall i :: 0 <= i < |cons| ==>
      Some(cons[i]) == EqualityConstraint(stay[i], kept, p) && EqualsKept(cons[i], remains + remove, forbidden, p)
    requires forall i :: 0 <= i < |subs| ==> subs[i].from in remove - {kept} && subs[i].to == map[kept := 1]
    requires forall i, j :: 0 <= i < j < |subs| ==> subs[i].from != subs[j].from
    requires forall s :: s in remove - {kept} ==> Removed(subs, s)
    ensures Collapsed(subs, cons, remains + remove, forbidden, kept, p)
  {
    hide EqualityConstraint, EqualsKept, AllEqual, ObeysAll, AllHold, Removed;
    forall w: Assignment
      ensures AllEqual(remains + remove, w, p) <==> ObeysAll(w, subs, p) && AllHold(cons, w, p)
    {
      RedirectMeaning(subs, cons, stay, remains, remove, kept, w, p);
    }
  }

  lemma RedirectMeaning(subs: seq<Substitution>, cons: seq<Constraint>, stay: seq<Signal>, remains: set<Signal>,
                        remove: set<Signal>, kept: Signal, w: Assignment, p: Prime)
    requires kept in remains + remove && |stay| == |cons|
    requires forall s :: s in stay <==> s in remains - {kept}
    requires forall i :: 0 <= i < |cons| ==> Some(cons[i]) == EqualityConstraint(stay[i], kept, p)
    requires forall i :: 0 <= i < |subs| ==> subs[i].from in remove - {kept} && subs[i].to == map[kept := 1]
    requires forall s :: s in remove - {kept} ==> Removed(subs, s)
    ensures AllEqual(remains + remove, w, p) <==> ObeysAll(w, subs, p) && AllHold(cons, w, p)
  {
    hide EqualityConstraint, AllEqual, ObeysAll, AllHold, Removed, Cong;
    forall i | 0 <= i < |cons|
      ensures stay[i] in remains + remove
      ensures Holds(cons[i], w, p) <==> Cong(p, w(stay[i]), w(kept))
    {
      assert stay[i] in stay;
      EqualityConstraintHolds(stay[i], kept, w, p);
    }
    CollapsedMeaning(subs, cons, stay, remains + remove, kept, w, p);
  }

  method ResidualEqualities(stay: seq<Signal>, rhSignal: Signal, ghost signals: set<Signal>, forbidden: set<Signal>, p: Prime)
    returns (cons: seq<Constraint>)
    requires forall s :: s in stay ==> {s, rhSignal} <= forbidden && {s, rhSignal} <= signals
    ensures |cons| == |stay|
    ensures forall j :: 0 <= j < |cons| ==>
      Some(cons[j]) == EqualityConstraint(stay[j], rhSignal, p) && EqualsKept(cons[j], signals, forbidden, p)
  {
    hide EqualityConstraint, EqualsKept;
    cons := [];
    for i := 0 to |stay|
      invariant |cons| == i
      invariant forall j :: 0 <= j < i ==>
        Some(cons[j]) == EqualityConstraint(stay[j], rhSignal, p) && EqualsKept(cons[j], signals, forbidden, p)
    {
      assert stay[i] in stay;
      EqualityConstraintShape(stay[i], rhSignal, signals, forbidden, p);
      cons := cons + [EqualityConstraint(stay[i], rhSignal, p).value];
    }
  }

  /** Substitutions by the kept signal, in any order. */
  method Renamings(remove: set<Signal>, rhSignal: Signal) returns (subs: seq<Substitution>)
    ensures forall i :: 0 <= i < |subs| ==> subs[i].from in remove && subs[i].to == map[rhSignal := 1]
    ensures forall i, j :: 0 <= i < j < |subs| ==> subs[i].from != subs[j].from
    ensures forall s :: s in remove ==> Removed(subs, s)
  {
    hide Removed;
    subs := [];
    var rest := remove;
    while rest != {}
      invariant rest <= remove
      invariant forall i :: 0 <= i < |subs| ==> subs[i].from in remove - rest && subs[i].to == map[rhSignal := 1]
      invariant forall i, j :: 0 <= i < j < |subs| ==> subs[i].from != subs[j].from
      invariant forall s :: s in remove - rest ==> Removed(subs, s)
    {
      var signal :| signal in rest;
      var sub := Substitution(signal, map[rhSignal := 1]);
      RemovedMore(subs, sub);
      subs := subs + [sub];
      rest := rest - {signal};
    }
  }

  lemma RemovedMore(subs: seq<Substitution>, sub: Substitution)
    ensures forall s :: Removed(subs + [sub], s) <==> Removed(subs, s) || s == sub.from
  {
    var more := subs + [sub];
    assert more[|subs|] == sub;
    forall s
      ensures Removed(more, s) <==> Removed(subs, s) || s == sub.from
    {
      if Removed(subs, s) {
        var i :| 0 <= i < |subs| && subs[i].from == s;
        assert more[i].from == s;
      }
    }
  }
}
