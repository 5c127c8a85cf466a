/** Normalisation and back-substitution, and the whole pass over one cluster:
    circom_algebra/src/simplification_utils.rs. */
module BackSubstitution {
  import opened Wrappers
  import opened Field
  import opened Coefficients
  import opened Algebra
  import opened Constraints
  import opened Elimination
  import opened Occurrences
  import opened EliminationFewest
  import opened Ascending

  type Substitutions = map<Signal, Substitution>

  ghost predicate ObeysMap(w: Assignment, subs: Substitutions, p: Prime) {
    forall s :: s in subs ==> Obeys(w, subs[s], p)
  }

  ghost predicate ObeysAll(w: Assignment, subs: seq<Substitution>, p: Prime) {
    forall i :: 0 <= i < |subs| ==> Obeys(w, subs[i], p)
  }

  // ----- normalisation

  /** The substitution `x = inverse * to` for the pivot `coefficient * x = to`. */
  function Normalized(signal: Signal, pv: Pivot, inverse: int, p: Prime): Option<Substitution> {
    NewSubstitution(signal, Times(IntoExpression(pv.sub.to), Number(inverse), p))
  }

  lemma NormalizedShape(signal: Signal, pv: Pivot, inverse: int, p: Prime)
    requires WellFormedPivot(signal, pv, p)
    ensures var r := Normalized(signal, pv, inverse, p);
      r.Some? && r.value.from == signal && r.value.to.Keys == pv.sub.to.Keys && Reduced(r.value.to, p)
  {
    var to := pv.sub.to;
    if |to| == 1 {
      forall t | t in to
        ensures t == CONSTANT
      {
        OnlyKey(to, CONSTANT, t);
      }
      assert to.Keys == {CONSTANT};
    }
  }

  lemma NormalizedMeaning(signal: Signal, pv: Pivot, inverse: int, w: Assignment, p: Prime)
    requires WellFormedPivot(signal, pv, p) && Cong(p, pv.coefficient * inverse, 1)
    ensures Normalized(signal, pv, inverse, p).Some?
    ensures Obeys(w, Normalized(signal, pv, inverse, p).value, p) <==> PivotHolds(pv, w, p)
  {
    hide Cong, Eval, Times, IntoExpression, NewSubstitution, Value;
    var e := IntoExpression(pv.sub.to);
    NormalizedShape(signal, pv, inverse, p);
    NewSubstitutionValue(signal, Times(e, Number(inverse), p), w);
    TimesCommutes(e, Number(inverse), p);
    TimesNumberValue(inverse, e, w, p);
    IntoExpressionValue(pv.sub.to, w);
    DivideOut(p, pv.coefficient, inverse, w(signal), Eval(pv.sub.to, w), Eval(Normalized(signal, pv, inverse, p).value.to, w));
  }

  /** The substitutions belong to the pivots: same signals, same keys, same solutions. */
  ghost predicate NormalFormOf(tree: Substitutions, pivots: Pivots, p: Prime) {
    && tree.Keys == pivots.Keys
    && (forall s :: s in tree ==>
      tree[s].from == s && tree[s].to.Keys == pivots[s].sub.to.Keys && Reduced(tree[s].to, p))
    && forall w: Assignment :: ObeysMap(w, tree, p) <==> PivotsHold(pivots, w, p)
  }

  method NormalizeSubstitutions(substitutions: Pivots, ghost forbidden: set<Signal>, p: Prime) returns (tree: Substitutions)
    requires WellFormedPivots(substitutions, forbidden, p)
    ensures NormalFormOf(tree, substitutions, p)
  {
    var signals := Sorted(substitutions.Keys);
    var coeffs := CoefficientsOf(substitutions, forbidden, signals, p);
    var inverses := MultiInv(coeffs, p);
    tree := MultiplyByInverses(substitutions, forbidden, signals, inverses, p);
    hide *;
    NormalFormCorrect(tree, substitutions, forbidden, signals, inverses, p);
  }

  /** The first loop of the normalisation. */
  method CoefficientsOf(substitutions: Pivots, ghost forbidden: set<Signal>, signals: seq<Signal>, p: Prime) returns (coeffs: seq<int>)
    requires WellFormedPivots(substitutions, forbidden, p)
    requires forall s :: s in signals ==> s in substitutions
    ensures |coeffs| == |signals|
    ensures forall j :: 0 <= j < |signals| ==> coeffs[j] == substitutions[signals[j]].coefficient && coeffs[j] % p != 0
  {
    coeffs := [];
    for i := 0 to |signals|
      invariant |coeffs| == i
      invariant forall j :: 0 <= j < i ==> coeffs[j] == substitutions[signals[j]].coefficient
    {
      coeffs := coeffs + [substitutions[signals[i]].coefficient];
    }
    CoefficientsInvertible(substitutions, forbidden, signals, coeffs, p);
  }

  lemma CoefficientsInvertible(pivots: Pivots, forbidden: set<Signal>, signals: seq<Signal>, coeffs: seq<int>, p: Prime)
    requires WellFormedPivots(pivots, forbidden, p)
    requires |coeffs| == |signals|
    requires forall j :: 0 <= j < |signals| ==> signals[j] in pivots && coeffs[j] == pivots[signals[j]].coefficient
    ensures forall j :: 0 <= j < |coeffs| ==> coeffs[j] % p != 0
  {
    forall j | 0 <= j < |coeffs|
      ensures coeffs[j] % p != 0
    {
      SmallMod(p, coeffs[j]);
    }
  }

  /** The second loop of the normalisation. */
  method MultiplyByInverses(substitutions: Pivots, ghost forbidden: set<Signal>, signals: seq<Signal>, inverses: seq<int>, p: Prime)
    returns (tree: Substitutions)
    requires WellFormedPivots(substitutions, forbidden, p)
    requires |inverses| >= |signals|
    requires forall i, j :: 0 <= i < j < |signals| ==> signals[i] != signals[j]
    requires forall s :: s in signals <==> s in substitutions
    ensures tree.Keys == substitutions.Keys
    ensures forall j :: 0 <= j < |signals| ==>
      Some(tree[signals[j]]) == Normalized(signals[j], substitutions[signals[j]], inverses[j], p)
  {
    hide Normalized, Reduced;
    tree := map[];
    for i := 0 to |signals|
      invariant forall s :: s in tree <==> s in signals[..i]
      invariant forall j :: 0 <= j < i ==>
        signals[j] in tree && Some(tree[signals[j]]) == Normalized(signals[j], substitutions[signals[j]], inverses[j], p)
    {
      NormalizedShape(signals[i], substitutions[signals[i]], inverses[i], p);
      tree := tree[signals[i] := Normalized(signals[i], substitutions[signals[i]], inverses[i], p).value];
    }
    assert signals[..|signals|] == signals;
  }

  lemma NormalFormCorrect(tree: Substitutions, pivots: Pivots, forbidden: set<Signal>, signals: seq<Signal>, inverses: seq<int>, p: Prime)
    requires WellFormedPivots(pivots, forbidden, p)
    requires tree.Keys == pivots.Keys && |inverses| >= |signals|
    requires forall s :: s in signals <==> s in pivots
    requires forall j :: 0 <= j < |signals| ==>
      && Some(tree[signals[j]]) == Normalized(signals[j], pivots[signals[j]], inverses[j], p)
      && Cong(p, pivots[signals[j]].coefficient * inverses[j], 1)
    ensures NormalFormOf(tree, pivots, p)
  {
    hide Normalized, Cong, PivotHolds, Obeys;
    forall s | s in tree
      ensures tree[s].from == s && tree[s].to.Keys == pivots[s].sub.to.Keys && Reduced(tree[s].to, p)
      ensures forall w: Assignment :: Obeys(w, tree[s], p) <==> PivotHolds(pivots[s], w, p)
    {
      var j :| 0 <= j < |signals| && signals[j] == s;
      NormalizedShape(s, pivots[s], inverses[j], p);
      forall w: Assignment
        ensures Obeys(w, tree[s], p) <==> PivotHolds(pivots[s], w, p)
      {
        NormalizedMeaning(s, pivots[s], inverses[j], w, p);
      }
    }
    forall w: Assignment
      ensures ObeysMap(w, tree, p) <==> PivotsHold(pivots, w, p)
    {
    }
  }

  // ----- back-substitution

  /** Each right-hand side mentions removed signals only if they come earlier in the order. */
  ghost predicate EarlierOnly(order: seq<Signal>, subs: Substitutions) {
    && (forall s :: s in subs <==> s in order)
    && (forall i, j :: 0 <= i < j < |order| ==> order[i] != order[j])
    && (forall i, j :: 0 <= i <= j < |order| && order[i] in subs ==> order[j] !in subs[order[i]].to)
  }

  ghost predicate WellFormedSubs(subs: Substitutions, p: Prime) {
    forall s :: s in subs ==> subs[s].from == s && Reduced(subs[s].to, p)
  }

  /** The substitutions for the first n signals of the order have been cleared of
      every removed signal. */
  ghost predicate Cleared(noOverlap: Substitutions, possible: Substitutions, done: set<Signal>, universe: set<Signal>, p: Prime) {
    && noOverlap.Keys == done <= possible.Keys
    && WellFormedSubs(noOverlap, p)
    && (forall s :: s in noOverlap ==> noOverlap[s].to.Keys !! possible.Keys && noOverlap[s].to.Keys <= universe)
    && forall w: Assignment :: ObeysMap(w, noOverlap, p) <==> (forall s :: s in done ==> Obeys(w, possible[s], p))
  }

  /** Takeable signals on a right-hand side are smaller than the one that is replaced. */
  ghost predicate SmallerOnly(s: Substitution, forbidden: set<Signal>) {
    forall k :: k in s.to && k !in forbidden ==> k < s.from
  }

  ghost predicate AllSmaller(subs: Substitutions, forbidden: set<Signal>) {
    subs.Keys !! forbidden && forall s :: s in subs ==> subs[s].from == s && SmallerOnly(subs[s], forbidden)
  }

  lemma SmallerApplied(r: Substitution, s: Substitution, to: Form, forbidden: set<Signal>, p: Prime)
    requires CONSTANT in forbidden && SmallerOnly(r, forbidden) && SmallerOnly(s, forbidden)
    requires to == Substituted(r.to, s, p) && s.from !in forbidden
    ensures SmallerOnly(Substitution(r.from, to), forbidden)
  {
    hide Substituted;
    forall k | k in to && k !in forbidden
      ensures k < r.from
    {
    }
  }

  /** The inner loop: every stored substitution that applies is applied. */
  method ApplyStored(noOverlap: Substitutions, substitution: Substitution, ghost possible: Substitutions,
                     ghost universe: set<Signal>, ghost forbidden: set<Signal>, p: Prime)
    returns (r: Substitution)
    requires Cleared(noOverlap, possible, noOverlap.Keys, universe, p)
    requires CONSTANT in universe && CONSTANT !in possible
    requires Reduced(substitution.to, p)
    requires substitution.to.Keys <= universe && substitution.to.Keys * possible.Keys <= noOverlap.Keys
    ensures r.from == substitution.from && Reduced(r.to, p)
    ensures r.to.Keys <= universe && r.to.Keys !! possible.Keys
    ensures forall w: Assignment :: ObeysMap(w, noOverlap, p) ==> (Obeys(w, r, p) <==> Obeys(w, substitution, p))
    ensures CONSTANT in forbidden && AllSmaller(noOverlap, forbidden) && SmallerOnly(substitution, forbidden) ==> SmallerOnly(r, forbidden)
  {
    hide Reduced, SmallerOnly;
    ghost var smaller := CONSTANT in forbidden && AllSmaller(noOverlap, forbidden) && SmallerOnly(substitution, forbidden);
    r := substitution;
    var toBeApplied := substitution.to.Keys * noOverlap.Keys;
    while toBeApplied != {}
      invariant toBeApplied <= noOverlap.Keys
      invariant r.from == substitution.from && Reduced(r.to, p)
      invariant r.to.Keys <= universe && r.to.Keys * possible.Keys <= toBeApplied
      invariant forall w: Assignment :: ObeysMap(w, noOverlap, p) ==> (Obeys(w, r, p) <==> Obeys(w, substitution, p))
      invariant smaller ==> SmallerOnly(r, forbidden)
    {
      var s :| s in toBeApplied;
      var to := RawSubstitution(r.to, noOverlap[s], p);
      if smaller {
        SmallerApplied(r, noOverlap[s], to, forbidden, p);
      }
      ghost var before := r;
      r := Substitution(r.from, to);
      toBeApplied := toBeApplied - {s};
      forall w: Assignment | ObeysMap(w, noOverlap, p)
        ensures Obeys(w, r, p) <==> Obeys(w, substitution, p)
      {
        SubstitutedValue(before.to, noOverlap[s], w, p);
      }
    }
    forall k | k in r.to
      ensures k !in possible
    {
      assert k in possible ==> k in r.to.Keys * possible.Keys;
    }
  }

  lemma NoneSmaller(forbidden: set<Signal>)
    ensures AllSmaller(map[], forbidden)
  {
  }

  lemma OneSmaller(subs: Substitutions, s: Signal, forbidden: set<Signal>)
    requires AllSmaller(subs, forbidden) && s in subs
    ensures s !in forbidden && subs[s].from == s && SmallerOnly(subs[s], forbidden)
  {
    hide SmallerOnly;
  }

  lemma MoreSmaller(subs: Substitutions, s: Signal, r: Substitution, forbidden: set<Signal>)
    requires AllSmaller(subs, forbidden) && s !in forbidden && r.from == s && SmallerOnly(r, forbidden)
    ensures AllSmaller(subs[s := r], forbidden)
  {
    hide SmallerOnly;
  }

  method CreateNonoverlapping(order: seq<Signal>, possible: Substitutions, ghost universe: set<Signal>, ghost forbidden: set<Signal>, p: Prime)
    returns (noOverlap: Substitutions)
    requires EarlierOnly(order, possible) && WellFormedSubs(possible, p)
    requires CONSTANT in universe && CONSTANT !in possible
    requires forall s :: s in possible ==> possible[s].to.Keys <= universe
    ensures Cleared(noOverlap, possible, possible.Keys, universe, p)
    ensures CONSTANT in forbidden && AllSmaller(possible, forbidden) ==> AllSmaller(noOverlap, forbidden)
  {
    hide SmallerOnly, AllSmaller;
    ghost var smaller := CONSTANT in forbidden && AllSmaller(possible, forbidden);
    noOverlap := map[];
    NoneSmaller(forbidden);
    for n := 0 to |order|
      invariant smaller ==> AllSmaller(noOverlap, forbidden)
      invariant noOverlap.Keys == set i | 0 <= i < n :: order[i]
      invariant Cleared(noOverlap, possible, noOverlap.Keys, universe, p)
    {
      var s := order[n];
      forall k | k in possible[s].to.Keys * possible.Keys
        ensures k in noOverlap
      {
        var j :| 0 <= j < |order| && order[j] == k;
      }
      if smaller {
        OneSmaller(possible, s, forbidden);
      }
      var substitution := ApplyStored(noOverlap, possible[s], possible, universe, forbidden, p);
      if smaller {
        MoreSmaller(noOverlap, s, substitution, forbidden);
      }
      ClearedStep(noOverlap, possible, universe, s, substitution, p);
      noOverlap := noOverlap[s := substitution];
    }
    assert possible.Keys == set i | 0 <= i < |order| :: order[i];
  }

  lemma ClearedStep(noOverlap: Substitutions, possible: Substitutions, universe: set<Signal>, s: Signal, r: Substitution, p: Prime)
    requires Cleared(noOverlap, possible, noOverlap.Keys, universe, p)
    requires s in possible && s !in noOverlap && possible[s].from == s
    requires r.from == s && Reduced(r.to, p) && r.to.Keys <= universe && r.to.Keys !! possible.Keys
    requires forall w: Assignment :: ObeysMap(w, noOverlap, p) ==> (Obeys(w, r, p) <==> Obeys(w, possible[s], p))
    ensures Cleared(noOverlap[s := r], possible, noOverlap.Keys + {s}, universe, p)
  {
    hide Obeys, Reduced;
    var more := noOverlap[s := r];
    forall w: Assignment
      ensures ObeysMap(w, more, p) <==> forall t :: t in noOverlap.Keys + {s} ==> Obeys(w, possible[t], p)
    {
      ObeysInsert(w, noOverlap, s, r, p);
    }
  }

  lemma ObeysInsert(w: Assignment, subs: Substitutions, s: Signal, r: Substitution, p: Prime)
    requires s !in subs
    ensures ObeysMap(w, subs[s := r], p) <==> ObeysMap(w, subs, p) && Obeys(w, r, p)
  {
    var more := subs[s := r];
    if ObeysMap(w, more, p) {
      assert forall t :: t in subs ==> more[t] == subs[t];
      assert more[s] == r;
    }
  }

  // ----- the pass

  ghost predicate Removed(subs: seq<Substitution>, s: Signal) {
    exists i :: 0 <= i < |subs| && subs[i].from == s
  }

  datatype Simplified = Simplified(constraints: seq<Constraint>, substitutions: seq<Substitution>, removed: seq<Signal>)

  /** No removed signal occurs on a right-hand side, and none is removed twice. */
  ghost predicate NonOverlapping(subs: seq<Substitution>) {
    && (forall i, j :: 0 <= i < |subs| && 0 <= j < |subs| ==> subs[i].from !in subs[j].to)
    && (forall i, j :: 0 <= i < j < |subs| ==> subs[i].from != subs[j].from)
  }

  /** What the pass promises about its result, apart from the solutions. */
  ghost predicate WellSimplified(r: Simplified, forbidden: set<Signal>, universe: set<Signal>, p: Prime) {
    && NonOverlapping(r.substitutions)
    && |r.removed| == |r.substitutions|
    && (forall i :: 0 <= i < |r.removed| ==> r.removed[i] == r.substitutions[i].from)
    && (forall i :: 0 <= i < |r.substitutions| ==>
      && r.substitutions[i].from in universe - forbidden
      && r.substitutions[i].to.Keys <= universe
      && Reduced(r.substitutions[i].to, p))
    && Residual(r.constraints, forbidden, universe, p)
  }

  /** The solutions of the result are those of the system. */
  ghost predicate SameSolutions(all: seq<Constraint>, r: Simplified, p: Prime) {
    forall w: Assignment :: AllHold(all, w, p) <==> AllHold(r.constraints, w, p) && ObeysAll(w, r.substitutions, p)
  }

  /** The entries of the hash map, in any order. */
  method Entries(noOverlap: Substitutions) returns (substitutions: seq<Substitution>, removed: seq<Signal>)
    ensures |removed| == |substitutions|
    ensures forall i :: 0 <= i < |removed| ==> removed[i] in noOverlap && substitutions[i] == noOverlap[removed[i]]
    ensures forall i, j :: 0 <= i < j < |removed| ==> removed[i] != removed[j]
    ensures forall s :: s in noOverlap ==> s in removed
  {
    substitutions, removed := [], [];
    var rest := noOverlap.Keys;
    while rest != {}
      invariant rest <= noOverlap.Keys
      invariant |removed| == |substitutions|
      invariant forall i :: 0 <= i < |removed| ==>
        removed[i] in noOverlap.Keys - rest && substitutions[i] == noOverlap[removed[i]]
      invariant forall i, j :: 0 <= i < j < |removed| ==> removed[i] != removed[j]
      invariant forall s :: s in noOverlap.Keys - rest ==> s in removed
    {
      var s :| s in rest;
      removed := removed + [s];
      substitutions := substitutions + [noOverlap[s]];
      rest := rest - {s};
    }
  }

  /** The heuristic of fewest occurrences is for clusters of 350 up to a million constraints. */
  predicate LessOccurrences(n: nat, useOldHeuristics: bool) {
    350 <= n < 1000000 && !useOldHeuristics
  }

  /** How the two heuristics differ: one removes the least of the signals that occur in one constraint only, for every
      such constraint; the other expresses every removed signal by smaller ones. */
  ghost predicate Heuristic(constraints: seq<Constraint>, subs: seq<Substitution>, forbidden: set<Signal>, useOldHeuristics: bool) {
    if LessOccurrences(|constraints|, useOldHeuristics)
    then forall i, s :: 0 <= i < |constraints| && LeastOwn(constraints, forbidden, i, s) ==> Removed(subs, s)
    else forall i :: 0 <= i < |subs| ==> SmallerOnly(subs[i], forbidden)
  }

  const MIN := 350
  const MAX := 1000000

  method FullSimplification(constraints: seq<Constraint>, forbidden: set<Signal>, useOldHeuristics: bool, p: Prime)
    returns (r: Simplified)
    requires CONSTANT in forbidden && LinearSystem(constraints, p)
    ensures WellSimplified(r, forbidden, Universe(constraints), p)
    ensures SameSolutions(constraints, r, p)
    ensures Heuristic(constraints, r.substitutions, forbidden, useOldHeuristics)
  {
    hide Heuristic, AllSmaller, OwnTaken, Progress, NormalFormOf, Cleared, Sound, WellSimplified, SameSolutions, LinearSystem, Universe,
         EarlierOnly, Descending, LaterOnly;
    ghost var universe := Universe(constraints);
    var lconst: seq<Constraint>, noOverlap: Substitutions;
    ghost var pivots: Pivots;
    ghost var tree: Substitutions;
    if MIN <= |constraints| < MAX && !useOldHeuristics {
      var signals := new SignalDefinition4(forbidden);
      var holder;
      holder, lconst := SubstitutionProcess4(signals, constraints, p);
      SoundPivots(holder, lconst, forbidden, constraints, p);
      var normalized := NormalizeSubstitutions(holder, forbidden, p);
      OrderOfElimination(signals.orderSignals, holder, normalized, p);
      NormalizedKeys(holder, normalized, lconst, forbidden, universe, p);
      noOverlap := CreateNonoverlapping(signals.orderSignals, normalized, universe, forbidden, p);
      pivots, tree := holder, normalized;
    } else {
      var signals := new SignalDefinition(forbidden);
      var holder;
      holder, lconst := SubstitutionProcess3(signals, constraints, p);
      SoundPivots(holder, lconst, forbidden, constraints, p);
      var normalized := NormalizeSubstitutions(holder, forbidden, p);
      var order := Sorted(normalized.Keys);
      NormalizedKeys(holder, normalized, lconst, forbidden, universe, p);
      OrderOfSignals(order, holder, normalized, forbidden, universe, lconst, p);
      noOverlap := CreateNonoverlapping(order, normalized, universe, forbidden, p);
      SmallerPivots(holder, normalized, lconst, forbidden, universe, p);
      pivots, tree := holder, normalized;
    }
    var substitutions, removed := Entries(noOverlap);
    r := Simplified(lconst, substitutions, removed);
    ResultShape(r, pivots, tree, noOverlap, forbidden, universe, p);
    ResultMeaning(constraints, r, pivots, tree, noOverlap, universe, p);
    ClearedKeys(noOverlap, tree, pivots, universe, p);
    ResultHeuristic(constraints, r, noOverlap, forbidden, useOldHeuristics);
  }

  lemma SoundPivots(pivots: Pivots, lconst: seq<Constraint>, forbidden: set<Signal>, all: seq<Constraint>, p: Prime)
    requires Sound(pivots, lconst, forbidden, Universe(all), p)
    ensures WellFormedPivots(pivots, forbidden, p) && CONSTANT in Universe(all)
  {
  }

  lemma NormalizedKeys(pivots: Pivots, tree: Substitutions, lconst: seq<Constraint>, forbidden: set<Signal>, universe: set<Signal>, p: Prime)
    requires CONSTANT in forbidden && Sound(pivots, lconst, forbidden, universe, p) && NormalFormOf(tree, pivots, p)
    ensures tree.Keys == pivots.Keys && CONSTANT !in tree && forall s :: s in tree ==> tree[s].to.Keys <= universe
  {
    hide Reduced, PivotsHold, ObeysMap, Residual;
  }

  lemma ClearedKeys(noOverlap: Substitutions, tree: Substitutions, pivots: Pivots, universe: set<Signal>, p: Prime)
    requires Cleared(noOverlap, tree, tree.Keys, universe, p) && NormalFormOf(tree, pivots, p)
    ensures noOverlap.Keys == tree.Keys == pivots.Keys && forall s :: s in noOverlap ==> noOverlap[s].from == s
  {
    hide Reduced, ObeysMap, Obeys, PivotsHold;
  }

  lemma SmallerPivots(pivots: Pivots, tree: Substitutions, lconst: seq<Constraint>, forbidden: set<Signal>, universe: set<Signal>, p: Prime)
    requires Sound(pivots, lconst, forbidden, universe, p) && Descending(pivots, forbidden) && NormalFormOf(tree, pivots, p)
    ensures AllSmaller(tree, forbidden)
  {
    hide Reduced, PivotsHold, ObeysMap, Residual;
  }

  lemma ResultHeuristic(constraints: seq<Constraint>, r: Simplified, noOverlap: Substitutions, forbidden: set<Signal>, useOldHeuristics: bool)
    requires |r.removed| == |r.substitutions|
    requires forall i :: 0 <= i < |r.removed| ==>
      r.removed[i] in noOverlap && r.substitutions[i] == noOverlap[r.removed[i]] && r.substitutions[i].from == r.removed[i]
    requires forall s :: s in noOverlap ==> s in r.removed
    requires LessOccurrences(|constraints|, useOldHeuristics) ==> OwnTaken(constraints, forbidden, noOverlap.Keys)
    requires !LessOccurrences(|constraints|, useOldHeuristics) ==> AllSmaller(noOverlap, forbidden)
    ensures Heuristic(constraints, r.substitutions, forbidden, useOldHeuristics)
  {
    hide LeastOwn, SmallerOnly;
    forall s | s in noOverlap
      ensures Removed(r.substitutions, s)
    {
      var i :| 0 <= i < |r.removed| && r.removed[i] == s;
      assert r.substitutions[i].from == s;
    }
  }

  lemma OrderOfElimination(order: seq<Signal>, pivots: Pivots, tree: Substitutions, p: Prime)
    requires LaterOnly(pivots, order) && NormalFormOf(tree, pivots, p)
    ensures EarlierOnly(order, tree) && WellFormedSubs(tree, p)
  {
  }

  lemma OrderOfSignals(order: seq<Signal>, pivots: Pivots, tree: Substitutions, forbidden: set<Signal>, universe: set<Signal>,
                       lconst: seq<Constraint>, p: Prime)
    requires Increasing(order) && forall s :: s in order <==> s in tree
    requires Sound(pivots, lconst, forbidden, universe, p) && Descending(pivots, forbidden)
    requires NormalFormOf(tree, pivots, p)
    ensures EarlierOnly(order, tree) && WellFormedSubs(tree, p)
  {
    hide Reduced, PivotsHold, ObeysMap, Residual;
    forall i, j | 0 <= i <= j < |order| && order[i] in tree
      ensures order[j] !in tree[order[i]].to
    {
      assert order[j] in pivots && order[j] !in forbidden;
      assert order[i] <= order[j];
    }
  }

  lemma ResultShape(r: Simplified, pivots: Pivots, tree: Substitutions, noOverlap: Substitutions,
                    forbidden: set<Signal>, universe: set<Signal>, p: Prime)
    requires Sound(pivots, r.constraints, forbidden, universe, p)
    requires NormalFormOf(tree, pivots, p) && Cleared(noOverlap, tree, tree.Keys, universe, p)
    requires |r.removed| == |r.substitutions|
    requires forall i :: 0 <= i < |r.removed| ==> r.removed[i] in noOverlap && r.substitutions[i] == noOverlap[r.removed[i]]
    requires forall i, j :: 0 <= i < j < |r.removed| ==> r.removed[i] != r.removed[j]
    ensures WellSimplified(r, forbidden, universe, p)
  {
    hide Reduced, PivotsHold, ObeysMap, Obeys, Residual;
  }

  lemma ResultMeaning(all: seq<Constraint>, r: Simplified, pivots: Pivots, tree: Substitutions, noOverlap: Substitutions,
                      universe: set<Signal>, p: Prime)
    requires Progress(all, pivots, r.constraints, [], p)
    requires NormalFormOf(tree, pivots, p) && Cleared(noOverlap, tree, tree.Keys, universe, p)
    requires |r.removed| == |r.substitutions|
    requires forall i :: 0 <= i < |r.removed| ==> r.removed[i] in noOverlap && r.substitutions[i] == noOverlap[r.removed[i]]
    requires forall s :: s in noOverlap ==> s in r.removed
    ensures SameSolutions(all, r, p)
  {
    hide Reduced, Obeys, PivotsHold;
    forall w: Assignment
      ensures AllHold(all, w, p) <==> AllHold(r.constraints, w, p) && ObeysAll(w, r.substitutions, p)
    {
      assert ObeysMap(w, noOverlap, p) <==> PivotsHold(pivots, w, p);
      if ObeysAll(w, r.substitutions, p) {
        forall s | s in noOverlap
          ensures Obeys(w, noOverlap[s], p)
        {
          var i :| 0 <= i < |r.removed| && r.removed[i] == s;
          assert r.substitutions[i] == noOverlap[s];
        }
      }
    }
  }
}
