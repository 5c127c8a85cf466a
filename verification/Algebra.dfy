/** Expressions, substitutions and constraints: circom_algebra/src/algebra.rs. */
module Algebra {
  import opened Field
  import opened Coefficients

  // ----- expressions

  datatype Expression =
    | Number(value: int)
    | Sig(symbol: Signal)
    | Linear(coefficients: Form)
    | Quadratic(a: Form, b: Form, c: Form)
    | NonQuadratic

  /** Every form inside an expression has an entry for the constant. */
  predicate WellFormed(e: Expression) {
    match e
    case Linear(m) => CONSTANT in m
    case Quadratic(a, b, c) => CONSTANT in a && CONSTANT in b && CONSTANT in c
    case _ => true
  }

  /** The value of an expression that is at most quadratic. */
  ghost function Value(e: Expression, w: Assignment): int
    requires !e.NonQuadratic?
  {
    match e
    case Number(v) => v
    case Sig(s) => w(s)
    case Linear(m) => Eval(m, w)
    case Quadratic(a, b, c) => Eval(a, w) * Eval(b, w) + Eval(c, w)
  }

  const NOTHING: Form := map[CONSTANT := 0]

  function Plus(left: Expression, right: Expression, p: Prime): (r: Expression)
    requires WellFormed(left) && WellFormed(right)
    ensures WellFormed(r)
  {
    match (left, right)
    case (NonQuadratic, _) => NonQuadratic
    case (_, NonQuadratic) => NonQuadratic
    case (Quadratic(_, _, _), Quadratic(_, _, _)) => NonQuadratic
    case (Number(v), Number(u)) => Number(Add(v, u, p))
    case (Number(v), Sig(s)) => Linear(AddSymbol(AddSymbol(NOTHING, CONSTANT, v, p), s, 1, p))
    case (Sig(s), Number(v)) => Linear(AddSymbol(AddSymbol(NOTHING, CONSTANT, v, p), s, 1, p))
    case (Number(v), Linear(m)) => Linear(AddSymbol(m, CONSTANT, v, p))
    case (Linear(m), Number(v)) => Linear(AddSymbol(m, CONSTANT, v, p))
    case (Number(v), Quadratic(a, b, c)) => Quadratic(a, b, AddSymbol(c, CONSTANT, v, p))
    case (Quadratic(a, b, c), Number(v)) => Quadratic(a, b, AddSymbol(c, CONSTANT, v, p))
    case (Sig(s), Sig(t)) => Linear(AddSymbol(AddSymbol(NOTHING, s, 1, p), t, 1, p))
    case (Sig(s), Linear(m)) => Linear(AddSymbol(m, s, 1, p))
    case (Linear(m), Sig(s)) => Linear(AddSymbol(m, s, 1, p))
    case (Sig(s), Quadratic(a, b, c)) => Quadratic(a, b, AddSymbol(c, s, 1, p))
    case (Quadratic(a, b, c), Sig(s)) => Quadratic(a, b, AddSymbol(c, s, 1, p))
    case (Linear(m), Linear(n)) => Linear(Sum(m, n, p))
    case (Linear(m), Quadratic(a, b, c)) => Quadratic(a, b, Sum(m, c, p))
    case (Quadratic(a, b, c), Linear(m)) => Quadratic(a, b, Sum(m, c, p))
  }

  function Times(left: Expression, right: Expression, p: Prime): (r: Expression)
    requires WellFormed(left) && WellFormed(right)
    ensures WellFormed(r)
  {
    match (left, right)
    case (NonQuadratic, _) => NonQuadratic
    case (_, NonQuadratic) => NonQuadratic
    case (Number(v), Number(u)) => Number(Mul(v, u, p))
    case (Number(v), Sig(s)) => Linear(AddSymbol(NOTHING, s, v, p))
    case (Sig(s), Number(v)) => Linear(AddSymbol(NOTHING, s, v, p))
    case (Number(v), Linear(m)) => Linear(Scale(m, v, p))
    case (Linear(m), Number(v)) => Linear(Scale(m, v, p))
    case (Number(v), Quadratic(a, b, c)) => Quadratic(Scale(a, v, p), b, Scale(c, v, p))
    case (Quadratic(a, b, c), Number(v)) => Quadratic(Scale(a, v, p), b, Scale(c, v, p))
    case (Sig(s), Sig(t)) => Quadratic(AddSymbol(NOTHING, s, 1, p), AddSymbol(NOTHING, t, 1, p), NOTHING)
    case (Sig(s), Linear(m)) => Quadratic(m, AddSymbol(NOTHING, s, 1, p), NOTHING)
    case (Linear(m), Sig(s)) => Quadratic(m, AddSymbol(NOTHING, s, 1, p), NOTHING)
    case (Linear(m), Linear(n)) => Quadratic(m, n, NOTHING)
    case _ => NonQuadratic
  }

  function Minus(left: Expression, right: Expression, p: Prime): (r: Expression)
    requires WellFormed(left) && WellFormed(right)
    ensures WellFormed(r)
  {
    Plus(left, Times(Number(-1), right, p), p)
  }

  // ----- the operations mean what their names say

  lemma SymbolValue(s: Signal, c: int, w: Assignment, p: Prime)
    ensures Cong(p, Eval(AddSymbol(NOTHING, s, c, p), w), c * w(s))
  {
    EvalAddSymbol(NOTHING, s, c, w, p);
    EvalSingle(CONSTANT, 0, w);
  }

  lemma TwoSymbolsValue(s: Signal, c: int, t: Signal, d: int, w: Assignment, p: Prime)
    ensures Cong(p, Eval(AddSymbol(AddSymbol(NOTHING, s, c, p), t, d, p), w), c * w(s) + d * w(t))
  {
    var m := AddSymbol(NOTHING, s, c, p);
    SymbolValue(s, c, w, p);
    EvalAddSymbol(m, t, d, w, p);
    CongAdd(p, Eval(m, w), c * w(s), d * w(t), d * w(t));
  }

  lemma PlusLinear(q: int, p: Prime, x: int, y: int)
    requires Cong(p, x, y)
    ensures Cong(p, q + x, q + y)
  {
    CongAdd(p, q, q, x, y);
  }

  lemma AddValue(v: int, u: int, p: Prime)
    ensures Cong(p, Add(v, u, p), v + u)
  {
    CongMod(p, v + u);
  }

  /** The sum of two expressions that are at most linear. */
  lemma PlusLinearValue(left: Expression, right: Expression, w: Assignment, p: Prime)
    requires WellFormed(left) && WellFormed(right)
    requires !left.NonQuadratic? && !left.Quadratic? && !right.NonQuadratic? && !right.Quadratic?
    ensures !Plus(left, right, p).NonQuadratic?
    ensures Cong(p, Value(Plus(left, right, p), w), Value(left, w) + Value(right, w))
  {
    hide Cong, AddSymbol, Sum;
    match (left, right)
    case (Number(v), Number(u)) => AddValue(v, u, p);
    case (Number(v), Sig(s)) => TwoSymbolsValue(CONSTANT, v, s, 1, w, p);
    case (Sig(s), Number(v)) => TwoSymbolsValue(CONSTANT, v, s, 1, w, p);
    case (Number(v), Linear(m)) => EvalAddSymbol(m, CONSTANT, v, w, p);
    case (Linear(m), Number(v)) => EvalAddSymbol(m, CONSTANT, v, w, p);
    case (Sig(s), Sig(t)) => TwoSymbolsValue(s, 1, t, 1, w, p);
    case (Sig(s), Linear(m)) => EvalAddSymbol(m, s, 1, w, p);
    case (Linear(m), Sig(s)) => EvalAddSymbol(m, s, 1, w, p);
    case (Linear(m), Linear(n)) => EvalSum(m, n, w, p);
  }

  /** The number of signals that may be multiplied: none, one, two, or more. */
  function Degree(e: Expression): nat {
    match e
    case Number(_) => 0
    case Sig(_) => 1
    case Linear(_) => 1
    case Quadratic(_, _, _) => 2
    case NonQuadratic => 3
  }

  /** A sum has the larger degree of its parts, except that two quadratic expressions have none. */
  lemma PlusDegree(left: Expression, right: Expression, p: Prime)
    requires WellFormed(left) && WellFormed(right)
    ensures Degree(Plus(left, right, p)) ==
      if left.Quadratic? && right.Quadratic? then 3 else if Degree(left) >= Degree(right) then Degree(left) else Degree(right)
    ensures Plus(left, right, p).NonQuadratic? <==>
      left.NonQuadratic? || right.NonQuadratic? || (left.Quadratic? && right.Quadratic?)
  {
  }

  /** The degrees of the factors add up, and anything above two is non-quadratic. */
  lemma TimesDegree(left: Expression, right: Expression, p: Prime)
    requires WellFormed(left) && WellFormed(right)
    ensures Degree(Times(left, right, p)) == if Degree(left) + Degree(right) > 2 then 3 else Degree(left) + Degree(right)
    ensures Times(left, right, p).NonQuadratic? <==>
      left.NonQuadratic? || right.NonQuadratic? || (left.Quadratic? && !right.Number?) || (right.Quadratic? && !left.Number?)
  {
  }

  /** A difference has the degree that the sum would have. */
  lemma MinusDegree(left: Expression, right: Expression, p: Prime)
    requires WellFormed(left) && WellFormed(right)
    ensures Degree(Minus(left, right, p)) == Degree(Plus(left, right, p))
  {
    TimesDegree(Number(-1), right, p);
    PlusDegree(left, Times(Number(-1), right, p), p);
    PlusDegree(left, right, p);
  }

  lemma PlusValue(left: Expression, right: Expression, w: Assignment, p: Prime)
    requires WellFormed(left) && WellFormed(right)
    requires !Plus(left, right, p).NonQuadratic?
    ensures !left.NonQuadratic? && !right.NonQuadratic?
    ensures Cong(p, Value(Plus(left, right, p), w), Value(left, w) + Value(right, w))
  {
    hide Cong, AddSymbol, Sum;
    match (left, right)
    case (Number(v), Quadratic(a, b, c)) =>
      EvalAddSymbol(c, CONSTANT, v, w, p);
      PlusLinear(Eval(a, w) * Eval(b, w), p, Eval(AddSymbol(c, CONSTANT, v, p), w), Eval(c, w) + v);
    case (Quadratic(a, b, c), Number(v)) =>
      EvalAddSymbol(c, CONSTANT, v, w, p);
      PlusLinear(Eval(a, w) * Eval(b, w), p, Eval(AddSymbol(c, CONSTANT, v, p), w), Eval(c, w) + v);
    case (Sig(s), Quadratic(a, b, c)) =>
      EvalAddSymbol(c, s, 1, w, p);
      PlusLinear(Eval(a, w) * Eval(b, w), p, Eval(AddSymbol(c, s, 1, p), w), Eval(c, w) + w(s));
    case (Quadratic(a, b, c), Sig(s)) =>
      EvalAddSymbol(c, s, 1, w, p);
      PlusLinear(Eval(a, w) * Eval(b, w), p, Eval(AddSymbol(c, s, 1, p), w), Eval(c, w) + w(s));
    case (Linear(m), Quadratic(a, b, c)) =>
      EvalSum(m, c, w, p);
      PlusLinear(Eval(a, w) * Eval(b, w), p, Eval(Sum(m, c, p), w), Eval(m, w) + Eval(c, w));
    case (Quadratic(a, b, c), Linear(m)) =>
      EvalSum(m, c, w, p);
      PlusLinear(Eval(a, w) * Eval(b, w), p, Eval(Sum(m, c, p), w), Eval(m, w) + Eval(c, w));
    case _ =>
      PlusLinearValue(left, right, w, p);
  }

  lemma ScaledQuadratic(a: Form, b: Form, c: Form, v: int, w: Assignment, p: Prime)
    ensures Cong(p, Eval(Scale(a, v, p), w) * Eval(b, w) + Eval(Scale(c, v, p), w),
                 v * (Eval(a, w) * Eval(b, w) + Eval(c, w)))
  {
    hide *;
    EvalScale(a, v, w, p);
    EvalScale(c, v, w, p);
    assert v * Eval(a, w) == Eval(a, w) * v;
    ScaleStep(p, Eval(Scale(a, v, p), w), Eval(a, w), v, Eval(b, w), Eval(c, w), Eval(Scale(c, v, p), w));
  }

  /** A product of two forms as a quadratic expression without a linear part. */
  lemma ProductValue(a: Form, b: Form, w: Assignment, p: Prime, x: int, y: int)
    requires Cong(p, Eval(a, w), x) && Cong(p, Eval(b, w), y)
    ensures Cong(p, Value(Quadratic(a, b, NOTHING), w), x * y)
  {
    EvalSingle(CONSTANT, 0, w);
    CongMul(p, Eval(a, w), x, Eval(b, w), y);
  }

  /** The product of a number and another expression, in either order. */
  lemma TimesNumberValue(v: int, e: Expression, w: Assignment, p: Prime)
    requires WellFormed(e) && !e.NonQuadratic?
    ensures var r := Times(Number(v), e, p);
      !r.NonQuadratic? && Cong(p, Value(r, w), v * Value(e, w))
  {
    match e
    case Number(u) => CongMod(p, v * u);
    case Sig(s) => SymbolValue(s, v, w, p);
    case Linear(m) => EvalScale(m, v, w, p);
    case Quadratic(a, b, c) => ScaledQuadratic(a, b, c, v, w, p);
  }

  lemma TimesCommutes(left: Expression, right: Expression, p: Prime)
    requires WellFormed(left) && WellFormed(right)
    requires left.Number? || right.Number?
    ensures Times(left, right, p) == Times(right, left, p)
  {
    if left.Number? && right.Number? {
      assert left.value * right.value == right.value * left.value;
    }
  }

  lemma TimesValue(left: Expression, right: Expression, w: Assignment, p: Prime)
    requires WellFormed(left) && WellFormed(right)
    requires !Times(left, right, p).NonQuadratic?
    ensures !left.NonQuadratic? && !right.NonQuadratic?
    ensures Cong(p, Value(Times(left, right, p), w), Value(left, w) * Value(right, w))
  {
    hide Cong;
    if left.Number? {
      TimesNumberValue(left.value, right, w, p);
    } else if right.Number? {
      TimesCommutes(left, right, p);
      TimesNumberValue(right.value, left, w, p);
      assert Value(right, w) * Value(left, w) == Value(left, w) * Value(right, w);
    } else {
      TimesSymbolicValue(left, right, w, p);
    }
  }

  /** The product of two symbols or linear expressions. */
  lemma TimesSymbolicValue(left: Expression, right: Expression, w: Assignment, p: Prime)
    requires WellFormed(left) && WellFormed(right)
    requires (left.Sig? || left.Linear?) && (right.Sig? || right.Linear?)
    ensures var r := Times(left, right, p);
      !r.NonQuadratic? && Cong(p, Value(r, w), Value(left, w) * Value(right, w))
  {
    match (left, right)
    case (Sig(s), Sig(t)) =>
      SymbolValue(s, 1, w, p);
      SymbolValue(t, 1, w, p);
      ProductValue(AddSymbol(NOTHING, s, 1, p), AddSymbol(NOTHING, t, 1, p), w, p, w(s), w(t));
    case (Sig(s), Linear(m)) =>
      SymbolValue(s, 1, w, p);
      ProductValue(m, AddSymbol(NOTHING, s, 1, p), w, p, Eval(m, w), w(s));
      assert Eval(m, w) * w(s) == w(s) * Eval(m, w);
    case (Linear(m), Sig(s)) =>
      SymbolValue(s, 1, w, p);
      ProductValue(m, AddSymbol(NOTHING, s, 1, p), w, p, Eval(m, w), w(s));
    case (Linear(m), Linear(n)) =>
      ProductValue(m, n, w, p, Eval(m, w), Eval(n, w));
  }

  lemma MinusValue(left: Expression, right: Expression, w: Assignment, p: Prime)
    requires WellFormed(left) && WellFormed(right)
    requires !Minus(left, right, p).NonQuadratic?
    ensures !left.NonQuadratic? && !right.NonQuadratic?
    ensures Cong(p, Value(Minus(left, right, p), w), Value(left, w) - Value(right, w))
  {
    var negated := Times(Number(-1), right, p);
    PlusValue(left, negated, w, p);
    TimesValue(Number(-1), right, w, p);
    CongAdd(p, Value(left, w), Value(left, w), Value(negated, w), -1 * Value(right, w));
  }
}
