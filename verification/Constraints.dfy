/** Substitutions and constraints A*B - C = 0: circom_algebra/src/algebra.rs. */
module Constraints {
  import opened Wrappers
  import opened Field
  import opened Coefficients
  import opened Algebra

  datatype Substitution = Substitution(from: Signal, to: Form)

  datatype Constraint = Constraint(a: Form, b: Form, c: Form)

  const EMPTY := Constraint(map[], map[], map[])

  ghost predicate Holds(cn: Constraint, w: Assignment, p: Prime) {
    Cong(p, Eval(cn.a, w) * Eval(cn.b, w), Eval(cn.c, w))
  }

  ghost predicate Obeys(w: Assignment, s: Substitution, p: Prime) {
    Cong(p, w(s.from), Eval(s.to, w))
  }

  predicate IsEmpty(cn: Constraint) {
    cn.a == map[] && cn.b == map[] && cn.c == map[]
  }

  predicate IsLinear(cn: Constraint) {
    cn.a == map[] && cn.b == map[]
  }

  /** The signals of a constraint, without the constant. */
  function SignalsOf(cn: Constraint): set<Signal> {
    cn.a.Keys + cn.b.Keys + cn.c.Keys - {CONSTANT}
  }

  ghost predicate ReducedConstraint(cn: Constraint, p: Prime) {
    Reduced(cn.a, p) && Reduced(cn.b, p) && Reduced(cn.c, p)
  }

  ghost predicate CanonicalConstraint(cn: Constraint, p: Prime) {
    Canonical(cn.a, p) && Canonical(cn.b, p) && Canonical(cn.c, p)
  }

  // ----- between forms, expressions, substitutions and constraints

  lemma OnlyKey(m: Form, s: Signal, t: Signal)
    requires |m| == 1 && s in m && t in m
    ensures s == t
  {
    assert |m.Keys - {s}| == 0;
    assert t !in m.Keys - {s};
  }

  /** The expression a form denotes: a number, a signal or a linear expression. */
  function IntoExpression(m: Form): (r: Expression)
    ensures WellFormed(r) && !r.Quadratic? && !r.NonQuadratic?
  {
    if |m| == 1 && CONSTANT in m then
      Number(m[CONSTANT])
    else if |m| == 1 then
      assert m.Keys != {};
      assert forall s, t :: s in m && t in m ==> s == t by {
        forall s, t | s in m && t in m
          ensures s == t
        {
          OnlyKey(m, s, t);
        }
      }
      var s :| s in m;
      if m[s] == 1 then Sig(s) else Linear(WithConstant(m))
    else
      Linear(WithConstant(m))
  }

  lemma IntoExpressionValue(m: Form, w: Assignment)
    ensures Value(IntoExpression(m), w) == Eval(m, w)
  {
    EvalWithConstant(m, w);
    if |m| == 1 {
      var s :| s in m;
      forall t | t in m
        ensures t == s
      {
        OnlyKey(m, s, t);
      }
      assert m == map[s := m[s]];
      EvalSingle(s, m[s], w);
    }
  }

  /** Which of the three kinds a form becomes. */
  lemma IntoExpressionKind(m: Form)
    ensures IntoExpression(m).Number? <==> m.Keys == {CONSTANT}
    ensures IntoExpression(m).Sig? <==> exists s :: s != CONSTANT && m == map[s := 1]
  {
    if |m| == 1 {
      var s :| s in m;
      forall t | t in m
        ensures t == s
      {
        OnlyKey(m, s, t);
      }
      assert m == map[s := m[s]];
    }
  }

  function NewSubstitution(from: Signal, to: Expression): Option<Substitution> {
    match to
    case Number(v) => Some(Substitution(from, map[CONSTANT := v]))
    case Sig(s) => Some(Substitution(from, map[s := 1]))
    case Linear(m) => if from !in m then Some(Substitution(from, m)) else None
    case _ => None
  }

  /** Only a quadratic or non-quadratic expression, or one that mentions the signal itself, gives none. */
  lemma NewSubstitutionExists(from: Signal, to: Expression)
    requires WellFormed(to)
    ensures NewSubstitution(from, to).None? <==>
      to.Quadratic? || to.NonQuadratic? || (to.Linear? && from in to.coefficients)
  {
  }

  lemma NewSubstitutionValue(from: Signal, to: Expression, w: Assignment)
    requires NewSubstitution(from, to).Some?
    ensures !to.NonQuadratic?
    ensures var s := NewSubstitution(from, to).value;
      s.from == from && Eval(s.to, w) == Value(to, w)
  {
    match to
    case Number(v) => EvalSingle(CONSTANT, v, w);
    case Sig(t) => EvalSingle(t, 1, w);
    case Linear(m) =>
    case _ =>
  }

  /** The constraint "e equals zero"; None for a non-quadratic expression. */
  function IntoConstraint(e: Expression, p: Prime): Option<Constraint> {
    match e
    case NonQuadratic => None
    case Quadratic(a, b, c) => Some(Constraint(a, b, Scale(c, -1, p)))
    case Number(v) => Some(Constraint(NOTHING, NOTHING, Scale(NOTHING[CONSTANT := v], -1, p)))
    case Sig(s) => Some(Constraint(NOTHING, NOTHING, Scale(NOTHING[s := 1], -1, p)))
    case Linear(m) => Some(Constraint(NOTHING, NOTHING, Scale(m, -1, p)))
  }

  lemma ProductMinus(p: Prime, ab: int, c: int, negated: int)
    requires Cong(p, negated, -1 * c)
    ensures Cong(p, ab, negated) <==> Cong(p, ab + c, 0)
  {
    if Cong(p, ab, negated) {
      CongAdd(p, ab, negated, c, c);
      CongAdd(p, negated, -1 * c, c, c);
    }
    if Cong(p, ab + c, 0) {
      CongSub(p, ab + c, 0, c, c);
    }
  }

  lemma IntoConstraintHolds(e: Expression, w: Assignment, p: Prime)
    requires !e.NonQuadratic?
    ensures IntoConstraint(e, p).Some? && IntoConstraint(NonQuadratic, p).None?
    ensures Holds(IntoConstraint(e, p).value, w, p) <==> Cong(p, Value(e, w), 0)
  {
    hide Cong;
    EvalSingle(CONSTANT, 0, w);
    match e
    case Quadratic(a, b, c) =>
      EvalScale(c, -1, w, p);
      ProductMinus(p, Eval(a, w) * Eval(b, w), Eval(c, w), Eval(Scale(c, -1, p), w));
    case Number(v) =>
      EvalUpdate(NOTHING, w, CONSTANT, v);
      LinearHolds(NOTHING[CONSTANT := v], w, p);
    case Sig(s) =>
      EvalUpdate(NOTHING, w, s, 1);
      LinearHolds(NOTHING[s := 1], w, p);
    case Linear(m) =>
      LinearHolds(m, w, p);
  }

  lemma LinearHolds(m: Form, w: Assignment, p: Prime)
    ensures Holds(Constraint(NOTHING, NOTHING, Scale(m, -1, p)), w, p) <==> Cong(p, Eval(m, w), 0)
  {
    hide Cong;
    EvalSingle(CONSTANT, 0, w);
    EvalScale(m, -1, w, p);
    ProductMinus(p, 0, Eval(m, w), Eval(Scale(m, -1, p), w));
  }

  // ----- clearing a signal from a linear constraint

  /** `coefficient * key = rest`, left fraction-free. */
  function ClearNotNormalized(symbols: Form, key: Signal, p: Prime): (r: (int, Form))
    requires key in symbols && symbols[key] != 0
  {
    (Mul(symbols[key], -1, p), WithConstant(symbols - {key}))
  }

  /** `key = rest`, divided by the coefficient. */
  function ClearNormalized(symbols: Form, key: Signal, p: Prime): (r: Form)
    requires key in symbols && Mul(symbols[key], -1, p) % p != 0
  {
    var right := Mul(symbols[key], -1, p);
    DropZeros(Scale(WithConstant(symbols - {key}), Inverse(right, p), p))
  }

  lemma ClearNotNormalizedValue(symbols: Form, key: Signal, w: Assignment, p: Prime)
    requires key in symbols && symbols[key] != 0
    ensures var (k, rest) := ClearNotNormalized(symbols, key, p);
      Vanishes(symbols, w, p) <==> Cong(p, k * w(key), Eval(rest, w))
  {
    hide Cong;
    var (k, rest) := ClearNotNormalized(symbols, key, p);
    var v := symbols[key];
    EvalSplit(symbols, w, key);
    EvalWithConstant(symbols - {key}, w);
    CongMod(p, v * -1);
    MoveToRight(p, v, k, w(key), Eval(rest, w), Eval(symbols, w));
  }

  lemma MoveToRight(p: Prime, v: int, k: int, x: int, rest: int, total: int)
    requires Cong(p, k, v * -1) && total == v * x + rest
    ensures Cong(p, total, 0) <==> Cong(p, k * x, rest)
  {
    CongMul(p, k, v * -1, x, x);
    assert v * -1 * x == -(v * x);
    CongDiff(p, rest, -(v * x));
    if Cong(p, total, 0) {
      assert Cong(p, k * x, rest);
    }
  }

  lemma NegationNonzero(v: int, p: Prime)
    requires 0 < v < p
    ensures Mul(v, -1, p) == p - v
  {
    CongIntro(p, p - v, v * -1, 1);
    SmallMod(p, p - v);
  }

  lemma SmallMod(p: Prime, v: int)
    requires 0 <= v < p
    ensures v % p == v
  {
  }

  /** Dividing by an invertible coefficient does not change the solutions. */
  lemma DivideOut(p: Prime, k: int, inverse: int, x: int, rest: int, scaled: int)
    requires Cong(p, k * inverse, 1) && Cong(p, scaled, inverse * rest)
    ensures Cong(p, k * x, rest) <==> Cong(p, x, scaled)
  {
    if Cong(p, k * x, rest) {
      CongMul(p, k * x, rest, inverse, inverse);
      CongMul(p, k * inverse, 1, x, x);
      assert k * x * inverse == k * inverse * x;
      assert rest * inverse == inverse * rest;
    }
    if Cong(p, x, scaled) {
      CongMul(p, k, k, x, inverse * rest);
      CongMul(p, k * inverse, 1, rest, rest);
      assert k * (inverse * rest) == k * inverse * rest;
    }
  }

  lemma ClearNormalizedValue(symbols: Form, key: Signal, w: Assignment, p: Prime)
    requires key in symbols && 0 < symbols[key] < p
    ensures Mul(symbols[key], -1, p) % p != 0
    ensures Vanishes(symbols, w, p) <==> Obeys(w, Substitution(key, ClearNormalized(symbols, key, p)), p)
  {
    NegationNonzero(symbols[key], p);
    SmallMod(p, p - symbols[key]);
    ClearNotNormalizedValue(symbols, key, w, p);
    ClearNormalizedStep(symbols, key, w, p);
  }

  lemma ClearNormalizedStep(symbols: Form, key: Signal, w: Assignment, p: Prime)
    requires key in symbols && symbols[key] != 0 && Mul(symbols[key], -1, p) % p != 0
    ensures var (k, rest) := ClearNotNormalized(symbols, key, p);
      Cong(p, k * w(key), Eval(rest, w)) <==> Cong(p, w(key), Eval(ClearNormalized(symbols, key, p), w))
  {
    hide Cong;
    var (k, rest) := ClearNotNormalized(symbols, key, p);
    var inverse := Inverse(k, p);
    EvalScale(rest, inverse, w, p);
    EvalDropZeros(Scale(rest, inverse, p), w);
    DivideOut(p, k, inverse, w(key), Eval(rest, w), Eval(Scale(rest, inverse, p), w));
  }

  // ----- applying a substitution

  function Substituted(change: Form, s: Substitution, p: Prime): (r: Form)
    ensures r.Keys == {CONSTANT} + if s.from in WithConstant(change)
                                   then WithConstant(change).Keys - {s.from} + s.to.Keys
                                   else change.Keys
    ensures Reduced(change, p) ==> Reduced(r, p)
  {
    var m := WithConstant(change);
    if s.from in m then Sum(Scale(WithConstant(s.to), m[s.from], p), m - {s.from}, p) else m
  }

  method RawSubstitution(change: Form, s: Substitution, p: Prime) returns (r: Form)
    ensures r == Substituted(change, s, p)
  {
    r := WithConstant(change);
    if s.from in r {
      var val := r[s.from];
      r := r - {s.from};
      var coefficients := WithConstant(s.to);
      coefficients := MultiplyCoefficients(val, coefficients, p);
      r := AddCoefficients(coefficients, r, p);
    }
  }

  /** Along an assignment that obeys the substitution, nothing changes. */
  lemma SubstitutedValue(change: Form, s: Substitution, w: Assignment, p: Prime)
    requires Obeys(w, s, p)
    ensures Cong(p, Eval(Substituted(change, s, p), w), Eval(change, w))
  {
    hide Cong, Substituted;
    var m := WithConstant(change);
    EvalWithConstant(change, w);
    if s.from in m {
      SubstitutedIn(change, s, p);
      var val := m[s.from];
      var to := Scale(WithConstant(s.to), val, p);
      EvalSplit(m, w, s.from);
      EvalWithConstant(s.to, w);
      EvalScale(WithConstant(s.to), val, w, p);
      EvalSum(to, m - {s.from}, w, p);
      ReplaceTerm(p, val, w(s.from), Eval(s.to, w), Eval(to, w), Eval(m - {s.from}, w),
                  Eval(Sum(to, m - {s.from}, p), w), Eval(m, w));
    } else {
      SubstitutedOut(change, s, p);
      CongEqual(p, Eval(m, w), Eval(change, w));
    }
  }

  lemma SubstitutedIn(change: Form, s: Substitution, p: Prime)
    requires s.from in WithConstant(change)
    ensures var m := WithConstant(change);
      Substituted(change, s, p) == Sum(Scale(WithConstant(s.to), m[s.from], p), m - {s.from}, p)
  {
  }

  lemma SubstitutedOut(change: Form, s: Substitution, p: Prime)
    requires s.from !in WithConstant(change)
    ensures Substituted(change, s, p) == WithConstant(change)
  {
  }

  lemma ReplaceTerm(p: Prime, val: int, x: int, to: int, scaled: int, rest: int, sum: int, total: int)
    requires Cong(p, x, to) && Cong(p, scaled, val * to) && Cong(p, sum, scaled + rest)
    requires total == val * x + rest
    ensures Cong(p, sum, total)
  {
    CongMul(p, val, val, x, to);
    CongAdd(p, scaled, val * to, rest, rest);
    CongAdd(p, val * x, val * to, rest, rest);
  }

  function Apply(cn: Constraint, s: Substitution, p: Prime): (r: Constraint)
    ensures ReducedConstraint(cn, p) ==> ReducedConstraint(r, p)
  {
    Constraint(Substituted(cn.a, s, p), Substituted(cn.b, s, p), Substituted(cn.c, s, p))
  }

  lemma ApplyHolds(cn: Constraint, s: Substitution, w: Assignment, p: Prime)
    requires Obeys(w, s, p)
    ensures Holds(Apply(cn, s, p), w, p) <==> Holds(cn, w, p)
  {
    SubstitutedValue(cn.a, s, w, p);
    SubstitutedValue(cn.b, s, w, p);
    SubstitutedValue(cn.c, s, w, p);
    var r := Apply(cn, s, p);
    CongMul(p, Eval(r.a, w), Eval(cn.a, w), Eval(r.b, w), Eval(cn.b, w));
  }

  /** Only the substituted signal goes and only signals of its value come. */
  lemma ApplySignals(cn: Constraint, s: Substitution, p: Prime)
    requires s.from != CONSTANT
    ensures SignalsOf(Apply(cn, s, p)) ==
      if s.from in SignalsOf(cn)
      then SignalsOf(cn) - {s.from} + (s.to.Keys - {CONSTANT})
      else SignalsOf(cn)
  {
    hide Substituted;
  }

  // ----- removing zeros and constant factors

  predicate IsConstantForm(m: Form) {
    CONSTANT in m && |m| == 1
  }

  /** What a constant first factor leaves of a constraint. */
  function Reduction(a: Form, b: Form, c: Form, p: Prime): Form
    requires CONSTANT in a
  {
    DropZeros(Sum(Scale(Scale(WithConstant(b), a[CONSTANT], p), -1, p), WithConstant(c), p))
  }

  function Fix(cn: Constraint, p: Prime): Constraint {
    var a, b, c := DropZeros(cn.a), DropZeros(cn.b), DropZeros(cn.c);
    if a == map[] || b == map[] then Constraint(map[], map[], c)
    else if IsConstantForm(a) then Constraint(map[], map[], Reduction(a, b, c, p))
    else if IsConstantForm(b) then Constraint(map[], map[], Reduction(b, a, c, p))
    else Constraint(a, b, c)
  }

  method ConstantReduction(a: Form, b: Form, c: Form, p: Prime) returns (r: Form)
    requires CONSTANT in a
    ensures r == Reduction(a, b, c, p)
  {
    r := WithConstant(c);
    var b' := WithConstant(b);
    b' := MultiplyCoefficients(a[CONSTANT], b', p);
    b' := MultiplyCoefficients(-1, b', p);
    r := AddCoefficients(b', r, p);
    r := RemoveZeroCoefficients(r);
  }

  method FixRawConstraint(a: Form, b: Form, c: Form, p: Prime) returns (a': Form, b': Form, c': Form)
    ensures Constraint(a', b', c') == Fix(Constraint(a, b, c), p)
  {
    a' := RemoveZeroCoefficients(a);
    b' := RemoveZeroCoefficients(b);
    c' := RemoveZeroCoefficients(c);
    if a' == map[] || b' == map[] {
      a', b' := map[], map[];
    } else if IsConstantForm(a') {
      c' := ConstantReduction(a', b', c', p);
      a', b' := map[], map[];
    } else if IsConstantForm(b') {
      c' := ConstantReduction(b', a', c', p);
      a', b' := map[], map[];
    }
  }

  lemma ConstantFormValue(m: Form, w: Assignment)
    requires IsConstantForm(m)
    ensures Eval(m, w) == m[CONSTANT]
  {
    forall t | t in m
      ensures t == CONSTANT
    {
      OnlyKey(m, CONSTANT, t);
    }
    assert m == map[CONSTANT := m[CONSTANT]];
    EvalSingle(CONSTANT, m[CONSTANT], w);
  }

  lemma ReductionIs(a: Form, b: Form, c: Form, p: Prime)
    requires IsConstantForm(a)
    ensures CONSTANT in a
    ensures Reduction(a, b, c, p) == DropZeros(Sum(Scale(Scale(WithConstant(b), a[CONSTANT], p), -1, p), WithConstant(c), p))
  {
    hide Scale, Sum, DropZeros, WithConstant;
  }

  lemma ReductionValue(a: Form, b: Form, c: Form, w: Assignment, p: Prime)
    requires IsConstantForm(a)
    ensures Cong(p, 0, Eval(Reduction(a, b, c, p), w)) <==> Cong(p, Eval(a, w) * Eval(b, w), Eval(c, w))
  {
    hide *;
    ReductionIs(a, b, c, p);
    var k := a[CONSTANT];
    var b1 := Scale(WithConstant(b), k, p);
    var b2 := Scale(b1, -1, p);
    var sum := Sum(b2, WithConstant(c), p);
    ConstantFormValue(a, w);
    EvalWithConstant(b, w);
    EvalWithConstant(c, w);
    EvalScale(WithConstant(b), k, w, p);
    EvalScale(b1, -1, w, p);
    EvalSum(b2, WithConstant(c), w, p);
    EvalDropZeros(sum, w);
    ReductionStep(p, k, Eval(b, w), Eval(b1, w), Eval(b2, w), Eval(c, w), Eval(sum, w));
  }

  lemma ReductionStep(p: Prime, k: int, b: int, b1: int, b2: int, c: int, sum: int)
    requires Cong(p, b1, k * b) && Cong(p, b2, -1 * b1) && Cong(p, sum, b2 + c)
    ensures Cong(p, 0, sum) <==> Cong(p, k * b, c)
  {
    CongMul(p, -1, -1, b1, k * b);
    CongAdd(p, b2, -1 * (k * b), c, c);
    CongDiff(p, c, k * b);
    CongDiff(p, k * b, c);
  }

  lemma FixHolds(cn: Constraint, w: Assignment, p: Prime)
    ensures Holds(Fix(cn, p), w, p) <==> Holds(cn, w, p)
  {
    hide Cong, DropZeros, Reduction, Eval;
    var a, b, c := DropZeros(cn.a), DropZeros(cn.b), DropZeros(cn.c);
    EvalDropZeros(cn.a, w);
    EvalDropZeros(cn.b, w);
    EvalDropZeros(cn.c, w);
    EvalNone(w);
    if a == map[] || b == map[] {
      assert Eval(a, w) * Eval(b, w) == 0;
    } else if IsConstantForm(a) {
      ReductionValue(a, b, c, w, p);
    } else if IsConstantForm(b) {
      ReductionValue(b, a, c, w, p);
      assert Eval(b, w) * Eval(a, w) == Eval(a, w) * Eval(b, w);
    }
  }

  lemma ReductionShape(a: Form, b: Form, c: Form, p: Prime)
    requires IsConstantForm(a)
    ensures Reduction(a, b, c, p).Keys <= b.Keys + c.Keys + {CONSTANT}
    ensures Reduced(c, p) ==> Canonical(Reduction(a, b, c, p), p)
  {
  }

  lemma DropZerosCanonical(m: Form, p: Prime)
    requires Reduced(m, p)
    ensures Canonical(DropZeros(m), p) && Reduced(DropZeros(m), p)
    ensures Canonical(map[], p)
  {
  }

  /** Fixing adds no signal. */
  lemma FixSignals(cn: Constraint, p: Prime)
    ensures SignalsOf(Fix(cn, p)) <= SignalsOf(cn)
  {
    hide DropZeros, Reduction, IsConstantForm;
    var a, b, c := DropZeros(cn.a), DropZeros(cn.b), DropZeros(cn.c);
    if IsConstantForm(a) {
      ReductionShape(a, b, c, p);
    }
    if IsConstantForm(b) {
      ReductionShape(b, a, c, p);
    }
  }

  /** Fixing removes every zero. */
  lemma FixCanonical(cn: Constraint, p: Prime)
    requires ReducedConstraint(cn, p)
    ensures CanonicalConstraint(Fix(cn, p), p)
  {
    hide DropZeros, Reduction, Reduced, Canonical, IsConstantForm;
    var a, b, c := DropZeros(cn.a), DropZeros(cn.b), DropZeros(cn.c);
    DropZerosCanonical(cn.a, p);
    DropZerosCanonical(cn.b, p);
    DropZerosCanonical(cn.c, p);
    if IsConstantForm(a) {
      ReductionShape(a, b, c, p);
    }
    if IsConstantForm(b) {
      ReductionShape(b, a, c, p);
    }
  }

  /** A form without a nonzero coefficient of a signal. */
  ghost predicate NoSignal(m: Form) {
    forall s :: s in m && m[s] != 0 ==> s == CONSTANT
  }

  lemma ConstantFormIs(m: Form)
    ensures NoSignal(m) <==> DropZeros(m) == map[] || IsConstantForm(DropZeros(m))
  {
    var d := DropZeros(m);
    if NoSignal(m) && d != map[] {
      assert d.Keys == {CONSTANT};
    }
    if IsConstantForm(d) {
      forall s | s in m && m[s] != 0
        ensures s == CONSTANT
      {
        OnlyKey(d, CONSTANT, s);
      }
    }
  }

  /** Fixing makes a constraint linear exactly if one of its factors has no signal. */
  lemma FixLinearExactly(cn: Constraint, p: Prime)
    ensures IsLinear(Fix(cn, p)) <==> NoSignal(cn.a) || NoSignal(cn.b)
  {
    hide DropZeros, Reduction, IsConstantForm, NoSignal;
    ConstantFormIs(cn.a);
    ConstantFormIs(cn.b);
  }

  /** A product that stays keeps its three forms but for zeros. */
  lemma FixProduct(cn: Constraint, p: Prime)
    requires !NoSignal(cn.a) && !NoSignal(cn.b)
    ensures Fix(cn, p) == Constraint(DropZeros(cn.a), DropZeros(cn.b), DropZeros(cn.c))
  {
    hide DropZeros, Reduction, IsConstantForm, NoSignal;
    ConstantFormIs(cn.a);
    ConstantFormIs(cn.b);
  }

  /** A constraint without a product stays without one. */
  lemma FixLinear(cn: Constraint, p: Prime)
    requires DropZeros(cn.a) == map[] || DropZeros(cn.b) == map[]
    ensures Fix(cn, p) == Constraint(map[], map[], DropZeros(cn.c))
  {
  }
}
