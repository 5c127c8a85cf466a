/** Fraction-free Gaussian elimination of linear constraints, taking the largest
    signal as pivot: circom_algebra/src/simplification_utils.rs, version 3. */
module Elimination {
  import opened Wrappers
  import opened Field
  import opened Coefficients
  import opened Algebra
  import opened Constraints

  /** `coefficient * sub.from = sub.to`, not yet divided by the coefficient. */
  datatype Pivot = Pivot(coefficient: int, sub: Substitution)

  type Pivots = map<Signal, Pivot>

  ghost predicate PivotHolds(pv: Pivot, w: Assignment, p: Prime) {
    Cong(p, pv.coefficient * w(pv.sub.from), Eval(pv.sub.to, w))
  }

  ghost predicate PivotsHold(pivots: Pivots, w: Assignment, p: Prime) {
    forall s :: s in pivots ==> PivotHolds(pivots[s], w, p)
  }

  ghost predicate AllHold(cs: seq<Constraint>, w: Assignment, p: Prime) {
    forall i :: 0 <= i < |cs| ==> Holds(cs[i], w, p)
  }

  /** A linear constraint in the form in which the pass receives it. */
  ghost predicate LinearConstraint(cn: Constraint, p: Prime) {
    IsLinear(cn) && Canonical(cn.c, p)
  }

  ghost predicate LinearSystem(cs: seq<Constraint>, p: Prime) {
    forall i :: 0 <= i < |cs| ==> LinearConstraint(cs[i], p)
  }

  ghost predicate WellFormedPivot(s: Signal, pv: Pivot, p: Prime) {
    && pv.sub.from == s
    && 0 < pv.coefficient < p
    && Reduced(pv.sub.to, p)
    && CONSTANT in pv.sub.to
    && s !in pv.sub.to
  }

  ghost predicate WellFormedPivots(pivots: Pivots, forbidden: set<Signal>, p: Prime) {
    forall s :: s in pivots ==> s !in forbidden && WellFormedPivot(s, pivots[s], p)
  }

  lemma AllHoldAppend(cs: seq<Constraint>, cn: Constraint, w: Assignment, p: Prime)
    ensures AllHold(cs + [cn], w, p) <==> AllHold(cs, w, p) && Holds(cn, w, p)
  {
    var ds := cs + [cn];
    if AllHold(ds, w, p) {
      forall i | 0 <= i < |cs|
        ensures Holds(cs[i], w, p)
      {
        assert ds[i] == cs[i];
      }
      assert ds[|cs|] == cn;
    }
  }

  lemma LinearHoldsVanishes(cn: Constraint, w: Assignment, p: Prime)
    requires IsLinear(cn)
    ensures Holds(cn, w, p) <==> Vanishes(cn.c, w, p)
  {
    EvalNone(w);
  }

  // ----- pivots

  /** The pivot read off a linear constraint. */
  function PivotFor(work: Constraint, out: Signal, p: Prime): (r: Pivot)
    requires out in work.c && work.c[out] != 0
  {
    var (coefficient, rest) := ClearNotNormalized(work.c, out, p);
    Pivot(coefficient, Substitution(out, rest))
  }

  lemma PivotForMeaning(work: Constraint, out: Signal, w: Assignment, p: Prime)
    requires LinearConstraint(work, p) && out in work.c
    ensures Holds(work, w, p) <==> PivotHolds(PivotFor(work, out, p), w, p)
  {
    hide Cong;
    LinearHoldsVanishes(work, w, p);
    ClearNotNormalizedValue(work.c, out, w, p);
  }

  lemma PivotForShape(work: Constraint, out: Signal, p: Prime)
    requires LinearConstraint(work, p) && out in work.c && out != CONSTANT
    ensures WellFormedPivot(out, PivotFor(work, out, p), p)
    ensures PivotFor(work, out, p).sub.to.Keys == work.c.Keys - {out} + {CONSTANT}
  {
    NegationNonzero(work.c[out], p);
  }

  /** The constraint left when a new pivot meets a stored one for the same signal:
      the cross-multiplied right-hand sides are equal. */
  function Merge(added: Pivot, stored: Pivot, p: Prime): Constraint {
    var right := IntoExpression(stored.sub.to);
    var left := IntoExpression(added.sub.to);
    var merge := Minus(Times(Number(stored.coefficient), left, p), Times(Number(added.coefficient), right, p), p);
    match IntoConstraint(merge, p)
    case Some(cn) => Constraint(DropZeros(cn.a), DropZeros(cn.b), DropZeros(cn.c))
    case None => EMPTY
  }

  /** The keys an expression that is at most linear may bring into a constraint. */
  ghost function KeysOf(e: Expression): set<Signal> {
    match e
    case Sig(s) => {s, CONSTANT}
    case Linear(m) => m.Keys + {CONSTANT}
    case _ => {CONSTANT}
  }

  /** The factors of a merge are numbers or well-formed linear expressions. */
  lemma FactorShape(c: int, m: Form, p: Prime)
    ensures var e := Times(Number(c), IntoExpression(m), p);
      (e.Number? || (e.Linear? && CONSTANT in e.coefficients)) && KeysOf(e) <= m.Keys + {CONSTANT}
  {
    IntoExpressionKeys(m);
  }

  lemma ConstraintShape(e: Expression, p: Prime)
    requires e.Number? || e.Linear?
    ensures IntoConstraint(e, p).Some?
    ensures var cn := IntoConstraint(e, p).value;
      && cn.a == NOTHING && cn.b == NOTHING
      && Reduced(cn.c, p) && cn.c.Keys <= KeysOf(e)
  {
  }

  lemma MergeShape(added: Pivot, stored: Pivot, p: Prime)
    ensures var cn := Merge(added, stored, p);
      LinearConstraint(cn, p) && cn.c.Keys <= added.sub.to.Keys + stored.sub.to.Keys + {CONSTANT}
  {
    hide Times, Minus, IntoExpression, IntoConstraint, KeysOf;
    var left := Times(Number(stored.coefficient), IntoExpression(added.sub.to), p);
    var right := Times(Number(added.coefficient), IntoExpression(stored.sub.to), p);
    FactorShape(stored.coefficient, added.sub.to, p);
    FactorShape(added.coefficient, stored.sub.to, p);
    MinusShape(left, right, p);
    ConstraintShape(Minus(left, right, p), p);
  }

  lemma IntoExpressionKeys(m: Form)
    ensures KeysOf(IntoExpression(m)) <= m.Keys + {CONSTANT}
  {
  }

  lemma MinusShape(left: Expression, right: Expression, p: Prime)
    requires left.Number? || (left.Linear? && CONSTANT in left.coefficients)
    requires right.Number? || (right.Linear? && CONSTANT in right.coefficients)
    ensures var e := Minus(left, right, p);
      (e.Number? || e.Linear?) && KeysOf(e) <= KeysOf(left) + KeysOf(right)
  {
  }

  lemma MergeMeaning(added: Pivot, stored: Pivot, w: Assignment, p: Prime)
    requires added.sub.from == stored.sub.from
    requires stored.coefficient % p != 0
    requires PivotHolds(stored, w, p)
    ensures PivotHolds(added, w, p) <==> Holds(Merge(added, stored, p), w, p)
  {
    hide *;
    MergeValue(added, stored, w, p);
    PivotHoldsIs(added, w, p);
    PivotHoldsIs(stored, w, p);
    CrossMultiply(p, added.coefficient, stored.coefficient, w(added.sub.from), Eval(added.sub.to, w), Eval(stored.sub.to, w));
  }

  lemma PivotHoldsIs(pv: Pivot, w: Assignment, p: Prime)
    ensures PivotHolds(pv, w, p) <==> Cong(p, pv.coefficient * w(pv.sub.from), Eval(pv.sub.to, w))
  {
  }

  lemma MergeValue(added: Pivot, stored: Pivot, w: Assignment, p: Prime)
    ensures Holds(Merge(added, stored, p), w, p) <==>
            Cong(p, stored.coefficient * Eval(added.sub.to, w), added.coefficient * Eval(stored.sub.to, w))
  {
    hide Cong, Eval, Merge, Holds, Times, Minus, IntoExpression, IntoConstraint;
    var right := IntoExpression(stored.sub.to);
    var left := IntoExpression(added.sub.to);
    FactorShape(stored.coefficient, added.sub.to, p);
    FactorShape(added.coefficient, stored.sub.to, p);
    var l := Times(Number(stored.coefficient), left, p);
    var r := Times(Number(added.coefficient), right, p);
    IntoExpressionValue(stored.sub.to, w);
    IntoExpressionValue(added.sub.to, w);
    TimesNumberValue(stored.coefficient, left, w, p);
    TimesNumberValue(added.coefficient, right, w, p);
    MinusShape(l, r, p);
    MinusValue(l, r, w, p);
    IntoConstraintHolds(Minus(l, r, p), w, p);
    MergeHolds(added, stored, w, p);
    Difference(p, Value(l, w), Value(r, w), stored.coefficient * Value(left, w), added.coefficient * Value(right, w),
               Value(Minus(l, r, p), w));
  }

  lemma Difference(p: Prime, l: int, r: int, x: int, y: int, d: int)
    requires Cong(p, l, x) && Cong(p, r, y) && Cong(p, d, l - r)
    ensures Cong(p, d, 0) <==> Cong(p, x, y)
  {
    CongDiff(p, l, r);
  }

  lemma MergeHolds(added: Pivot, stored: Pivot, w: Assignment, p: Prime)
    ensures var e := Minus(Times(Number(stored.coefficient), IntoExpression(added.sub.to), p),
                           Times(Number(added.coefficient), IntoExpression(stored.sub.to), p), p);
      IntoConstraint(e, p).Some? && (Holds(Merge(added, stored, p), w, p) <==> Holds(IntoConstraint(e, p).value, w, p))
  {
    hide Cong, Times, Minus, IntoExpression, IntoConstraint;
    var l := Times(Number(stored.coefficient), IntoExpression(added.sub.to), p);
    var r := Times(Number(added.coefficient), IntoExpression(stored.sub.to), p);
    FactorShape(stored.coefficient, added.sub.to, p);
    FactorShape(added.coefficient, stored.sub.to, p);
    MinusShape(l, r, p);
    ConstraintShape(Minus(l, r, p), p);
    var cn := IntoConstraint(Minus(l, r, p), p).value;
    EvalDropZeros(cn.a, w);
    EvalDropZeros(cn.b, w);
    EvalDropZeros(cn.c, w);
  }

  /** With an invertible stored coefficient, cross-multiplication loses nothing. */
  lemma CrossMultiply(p: Prime, c: int, c': int, x: int, to: int, to': int)
    requires c' % p != 0 && Cong(p, c' * x, to')
    ensures Cong(p, c * x, to) <==> Cong(p, c' * to, c * to')
  {
    CongMul(p, c, c, c' * x, to');
    assert c * (c' * x) == c' * (c * x);
    if Cong(p, c * x, to) {
      CongMul(p, c', c', c * x, to);
    }
    if Cong(p, c' * to, c * to') {
      assert Cong(p, c' * (c * x), c' * to);
      CongDiff(p, c' * (c * x), c' * to);
      assert c' * (c * x) - c' * to == c' * (c * x - to);
      Cancel(p, c', c * x - to);
      CongDiff(p, c * x, to);
    }
  }

  lemma InsertPivot(pivots: Pivots, s: Signal, pv: Pivot, w: Assignment, p: Prime)
    requires s !in pivots
    ensures PivotsHold(pivots[s := pv], w, p) <==> PivotsHold(pivots, w, p) && PivotHolds(pv, w, p)
  {
    var more := pivots[s := pv];
    if PivotsHold(more, w, p) {
      forall t | t in pivots
        ensures PivotHolds(pivots[t], w, p)
      {
        assert more[t] == pivots[t];
      }
      assert more[s] == pv;
    }
  }

  /** What an elimination has collected so far: pivots and rejected constraints. */
  ghost predicate Solves(pivots: Pivots, lconst: seq<Constraint>, w: Assignment, p: Prime) {
    PivotsHold(pivots, w, p) && AllHold(lconst, w, p)
  }

  /** Rejected constraints are not trivial and mention forbidden signals only. */
  ghost predicate Residual(lconst: seq<Constraint>, forbidden: set<Signal>, universe: set<Signal>, p: Prime) {
    LinearSystem(lconst, p) &&
    forall i :: 0 <= i < |lconst| ==>
      lconst[i].c != map[] && lconst[i].c.Keys <= forbidden && lconst[i].c.Keys <= universe
  }

  ghost predicate Within(pivots: Pivots, universe: set<Signal>) {
    forall s :: s in pivots ==> s in universe && pivots[s].sub.to.Keys <= universe
  }

  /** Everything an elimination keeps about its collections. */
  ghost predicate Sound(pivots: Pivots, lconst: seq<Constraint>, forbidden: set<Signal>, universe: set<Signal>, p: Prime) {
    WellFormedPivots(pivots, forbidden, p) && Within(pivots, universe) && Residual(lconst, forbidden, universe, p)
  }

  // ----- version 3: the largest signal is the pivot

  class SignalDefinition {
    var deletedSymbols: set<Signal>
    const forbidden: set<Signal>

    constructor (forbidden: set<Signal>)
      ensures this.forbidden == forbidden && deletedSymbols == {}
    {
      this.forbidden := forbidden;
      deletedSymbols := {};
    }

    predicate CanBeTaken(k: Signal) {
      k !in forbidden
    }

    method Delete(k: Signal)
      modifies this
      ensures deletedSymbols == old(deletedSymbols) + {k}
    {
      deletedSymbols := deletedSymbols + {k};
    }
  }

  /** Every takeable signal of a pivot's right-hand side is below the pivot. */
  ghost predicate Descending(pivots: Pivots, forbidden: set<Signal>) {
    forall s, k :: s in pivots && k in pivots[s].sub.to && k !in forbidden ==> k < s
  }

  /** The largest takeable signal of a constraint. */
  method TakeSignal3(signals: SignalDefinition, constraint: Constraint) returns (ret: Option<Signal>)
    ensures ret.None? ==> constraint.c.Keys <= signals.forbidden
    ensures ret.Some? ==> ret.value in constraint.c && ret.value !in signals.forbidden
    ensures ret.Some? ==> forall k :: k in constraint.c && k !in signals.forbidden ==> k <= ret.value
  {
    ret := None;
    var rest := constraint.c.Keys;
    while rest != {}
      invariant rest <= constraint.c.Keys
      invariant ret.None? ==> constraint.c.Keys - rest <= signals.forbidden
      invariant ret.Some? ==> ret.value in constraint.c && ret.value !in signals.forbidden
      invariant ret.Some? ==> forall k :: k in constraint.c.Keys - rest && k !in signals.forbidden ==> k <= ret.value
    {
      var k :| k in rest;
      if signals.CanBeTaken(k) {
        ret := Some(if ret.None? || ret.value < k then k else ret.value);
      }
      rest := rest - {k};
    }
  }

  /** Where the elimination of one constraint stands: replacing the original
      constraint by the one worked on changes no solution. */
  ghost predicate SameUnder(pivots: Pivots, original: Constraint, work: Constraint, p: Prime) {
    forall w: Assignment :: PivotsHold(pivots, w, p) ==> (Holds(original, w, p) <==> Holds(work, w, p))
  }

  /** One conflict: the constraint is replaced by its merge with the stored pivot. */
  lemma ConflictStep(pivots: Pivots, forbidden: set<Signal>, original: Constraint, work: Constraint, out: Signal, p: Prime)
    requires WellFormedPivots(pivots, forbidden, p) && LinearConstraint(work, p)
    requires out in pivots && out in work.c
    requires SameUnder(pivots, original, work, p)
    ensures SameUnder(pivots, original, Merge(PivotFor(work, out, p), pivots[out], p), p)
  {
    var pv := PivotFor(work, out, p);
    var merged := Merge(pv, pivots[out], p);
    forall w: Assignment | PivotsHold(pivots, w, p)
      ensures Holds(original, w, p) <==> Holds(merged, w, p)
    {
      PivotForMeaning(work, out, w, p);
      SmallMod(p, pivots[out].coefficient);
      MergeMeaning(pv, pivots[out], w, p);
    }
  }

  /** What collecting one more constraint means for the solutions. */
  ghost predicate Collected(pivots: Pivots, lconst: seq<Constraint>, original: Constraint,
                            pivots': Pivots, lconst': seq<Constraint>, p: Prime)
  {
    forall w: Assignment ::
      Solves(pivots', lconst', w, p) <==> Solves(pivots, lconst, w, p) && Holds(original, w, p)
  }

  /** No conflict: the constraint becomes a pivot. */
  lemma PivotStep(pivots: Pivots, lconst: seq<Constraint>, forbidden: set<Signal>, universe: set<Signal>,
                  original: Constraint, work: Constraint, out: Signal, p: Prime)
    requires CONSTANT in forbidden && CONSTANT in universe
    requires Sound(pivots, lconst, forbidden, universe, p)
    requires LinearConstraint(work, p) && work.c.Keys <= universe
    requires out !in pivots && out in work.c && out !in forbidden
    requires SameUnder(pivots, original, work, p)
    ensures Sound(pivots[out := PivotFor(work, out, p)], lconst, forbidden, universe, p)
    ensures Collected(pivots, lconst, original, pivots[out := PivotFor(work, out, p)], lconst, p)
  {
    var pv := PivotFor(work, out, p);
    PivotForShape(work, out, p);
    assert Sound(pivots[out := pv], lconst, forbidden, universe, p) by {
      hide PivotFor, Reduced, Residual;
    }
    forall w: Assignment
      ensures Solves(pivots[out := pv], lconst, w, p) <==> Solves(pivots, lconst, w, p) && Holds(original, w, p)
    {
      PivotForMeaning(work, out, w, p);
      InsertPivot(pivots, out, pv, w, p);
    }
  }

  /** Nothing to take: the constraint is kept. */
  lemma RejectStep(pivots: Pivots, lconst: seq<Constraint>, forbidden: set<Signal>, universe: set<Signal>,
                   original: Constraint, work: Constraint, p: Prime)
    requires Sound(pivots, lconst, forbidden, universe, p)
    requires LinearConstraint(work, p) && work.c.Keys <= universe && work.c.Keys <= forbidden && !IsEmpty(work)
    requires SameUnder(pivots, original, work, p)
    ensures Sound(pivots, lconst + [work], forbidden, universe, p)
    ensures Collected(pivots, lconst, original, pivots, lconst + [work], p)
  {
    forall w: Assignment
      ensures Solves(pivots, lconst + [work], w, p) <==> Solves(pivots, lconst, w, p) && Holds(original, w, p)
    {
      AllHoldAppend(lconst, work, w, p);
    }
  }

  /** Nothing left: the constraint followed from the pivots. */
  lemma EmptyStep(pivots: Pivots, lconst: seq<Constraint>, original: Constraint, work: Constraint, p: Prime)
    requires IsEmpty(work) && SameUnder(pivots, original, work, p)
    ensures Collected(pivots, lconst, original, pivots, lconst, p)
  {
    forall w: Assignment
      ensures Solves(pivots, lconst, w, p) <==> Solves(pivots, lconst, w, p) && Holds(original, w, p)
    {
      EmptyHolds(w, p);
    }
  }

  lemma EmptyHolds(w: Assignment, p: Prime)
    ensures Holds(EMPTY, w, p)
  {
    EvalNone(w);
  }

  /** After a conflict only smaller signals can be taken. */
  lemma ConflictDescends(pivots: Pivots, forbidden: set<Signal>, universe: set<Signal>, work: Constraint, out: Signal, p: Prime)
    requires CONSTANT in forbidden && CONSTANT in universe
    requires Within(pivots, universe) && Descending(pivots, forbidden)
    requires LinearConstraint(work, p) && work.c.Keys <= universe
    requires out in pivots && out in work.c && out !in forbidden && WellFormedPivot(out, pivots[out], p)
    requires forall k :: k in work.c && k !in forbidden ==> k <= out
    ensures var merged := Merge(PivotFor(work, out, p), pivots[out], p);
      && LinearConstraint(merged, p)
      && merged.c.Keys <= universe
      && forall k :: k in merged.c && k !in forbidden ==> k < out
  {
    hide PivotFor, Merge, Reduced;
    PivotForShape(work, out, p);
    MergeShape(PivotFor(work, out, p), pivots[out], p);
  }

  lemma PivotDescends(pivots: Pivots, forbidden: set<Signal>, work: Constraint, out: Signal, p: Prime)
    requires CONSTANT in forbidden && Descending(pivots, forbidden)
    requires LinearConstraint(work, p) && out in work.c && out !in forbidden
    requires forall k :: k in work.c && k !in forbidden ==> k <= out
    ensures Descending(pivots[out := PivotFor(work, out, p)], forbidden)
  {
    hide PivotFor;
    PivotForShape(work, out, p);
  }

  method TreatConstraint3(signals: SignalDefinition, substitutions: Pivots, lconst: seq<Constraint>, constraint: Constraint,
                          ghost universe: set<Signal>, p: Prime)
    returns (substitutions': Pivots, lconst': seq<Constraint>)
    requires CONSTANT in signals.forbidden && CONSTANT in universe
    requires signals.deletedSymbols == substitutions.Keys
    requires Sound(substitutions, lconst, signals.forbidden, universe, p)
    requires Descending(substitutions, signals.forbidden)
    requires LinearConstraint(constraint, p) && constraint.c.Keys <= universe
    modifies signals
    ensures signals.deletedSymbols == substitutions'.Keys
    ensures Sound(substitutions', lconst', signals.forbidden, universe, p)
    ensures Descending(substitutions', signals.forbidden)
    ensures Collected(substitutions, lconst, constraint, substitutions', lconst', p)
  {
    hide PivotFor, Merge, Holds, Collected, Solves, LinearConstraint, Residual;
    substitutions', lconst' := substitutions, lconst;
    var work := constraint;
    ghost var bound := Bound(work.c.Keys);
    while true
      invariant LinearConstraint(work, p) && work.c.Keys <= universe
      invariant signals.deletedSymbols == substitutions.Keys
      invariant SameUnder(substitutions, constraint, work, p)
      invariant forall k :: k in work.c && k !in signals.forbidden ==> k < bound
      decreases bound
    {
      if IsEmpty(work) {
        EmptyStep(substitutions, lconst, constraint, work, p);
        return substitutions, lconst;
      }
      var out := TakeSignal3(signals, work);
      if out.None? {
        RejectStep(substitutions, lconst, signals.forbidden, universe, constraint, work, p);
        return substitutions, lconst + [work];
      }
      signals.Delete(out.value);
      LinearCoefficient(work, out.value, p);
      var pivot := PivotFor(work, out.value, p);
      if out.value !in substitutions {
        PivotStep(substitutions, lconst, signals.forbidden, universe, constraint, work, out.value, p);
        PivotDescends(substitutions, signals.forbidden, work, out.value, p);
        return substitutions[out.value := pivot], lconst;
      }
      ConflictStep(substitutions, signals.forbidden, constraint, work, out.value, p);
      ConflictDescends(substitutions, signals.forbidden, universe, work, out.value, p);
      work := Merge(pivot, substitutions[out.value], p);
      bound := out.value;
    }
  }

  lemma LinearCoefficient(work: Constraint, out: Signal, p: Prime)
    requires LinearConstraint(work, p) && out in work.c
    ensures 0 < work.c[out] < p
  {
  }

  ghost function Bound(s: set<Signal>): (b: nat)
    ensures forall k :: k in s ==> k < b
  {
    if s == {} then 0
    else
      var x :| x in s;
      var b := Bound(s - {x});
      assert s == s - {x} + {x};
      if x < b then b else x + 1
  }

  /** The constant and every signal of a linear system. */
  ghost function Universe(cs: seq<Constraint>): set<Signal> {
    {CONSTANT} + set i, k | 0 <= i < |cs| && k in cs[i].c :: k
  }

  /** The collections together with the constraints still to be treated have the
      solutions of the whole system. */
  ghost predicate Progress(all: seq<Constraint>, pivots: Pivots, lconst: seq<Constraint>, rest: seq<Constraint>, p: Prime) {
    forall w: Assignment :: AllHold(all, w, p) <==> Solves(pivots, lconst, w, p) && AllHold(rest, w, p)
  }

  lemma ProgressStart(all: seq<Constraint>, p: Prime)
    ensures Progress(all, map[], [], all, p)
  {
  }

  lemma ProgressStep(all: seq<Constraint>, pivots: Pivots, lconst: seq<Constraint>, rest: seq<Constraint>, cn: Constraint,
                     pivots': Pivots, lconst': seq<Constraint>, p: Prime)
    requires Progress(all, pivots, lconst, rest + [cn], p)
    requires Collected(pivots, lconst, cn, pivots', lconst', p)
    ensures Progress(all, pivots', lconst', rest, p)
  {
    forall w: Assignment
      ensures AllHold(all, w, p) <==> Solves(pivots', lconst', w, p) && AllHold(rest, w, p)
    {
      AllHoldAppend(rest, cn, w, p);
    }
  }

  method SubstitutionProcess3(signals: SignalDefinition, constraints: seq<Constraint>, p: Prime)
    returns (substitutions: Pivots, lconst: seq<Constraint>)
    requires CONSTANT in signals.forbidden && signals.deletedSymbols == {}
    requires LinearSystem(constraints, p)
    modifies signals
    ensures Sound(substitutions, lconst, signals.forbidden, Universe(constraints), p)
    ensures Descending(substitutions, signals.forbidden)
    ensures Progress(constraints, substitutions, lconst, [], p)
  {
    hide Holds, Solves, LinearConstraint, Progress, Collected;
    ghost var universe := Universe(constraints);
    substitutions, lconst := map[], [];
    var rest := constraints;
    ProgressStart(constraints, p);
    while rest != []
      invariant signals.deletedSymbols == substitutions.Keys
      invariant rest <= constraints
      invariant Sound(substitutions, lconst, signals.forbidden, universe, p)
      invariant Descending(substitutions, signals.forbidden)
      invariant Progress(constraints, substitutions, lconst, rest, p)
    {
      var last := |rest| - 1;
      var actual := rest[last];
      assert actual == constraints[last];
      assert rest == rest[..last] + [actual];
      var substitutions', lconst' := TreatConstraint3(signals, substitutions, lconst, actual, universe, p);
      ProgressStep(constraints, substitutions, lconst, rest[..last], actual, substitutions', lconst', p);
      substitutions, lconst, rest := substitutions', lconst', rest[..last];
    }
  }
}
