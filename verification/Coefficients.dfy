/** Linear forms as maps from signal to coefficient: the private helpers of
    circom_algebra/src/algebra.rs.  Signal 0 stands for the constant one. */
module Coefficients {
  import opened Field

  type Signal = nat

  const CONSTANT: Signal := 0

  type Form = map<Signal, int>

  /** A value for every signal, the constant signal being one. */
  type Assignment = w: Signal -> int | w(0) == 1 witness (_: Signal) => 1

  /** The unreduced value of a linear form. */
  ghost function Eval(m: Form, w: Assignment): int {
    Total(m, w)
  }

  /** The sum behind Eval; the order of summation is arbitrary. */
  ghost function Total(m: Form, w: Assignment): int
    decreases m.Keys
  {
    if m == map[] then 0
    else
      var k :| k in m;
      m[k] * w(k) + Total(m - {k}, w)
  }

  ghost predicate Vanishes(m: Form, w: Assignment, p: Prime) {
    Cong(p, Eval(m, w), 0)
  }

  /** Coefficients as the source stores them: reduced, zero allowed. */
  ghost predicate Reduced(m: Form, p: Prime) {
    forall k :: k in m ==> 0 <= m[k] < p
  }

  /** Reduced and free of zero coefficients. */
  ghost predicate Canonical(m: Form, p: Prime) {
    forall k :: k in m ==> 0 < m[k] < p
  }

  // ----- the helpers as functions

  function Get(m: Form, k: Signal): int {
    if k in m then m[k] else 0
  }

  function WithConstant(m: Form): (r: Form)
    ensures r.Keys == m.Keys + {CONSTANT}
  {
    if CONSTANT in m then m else m[CONSTANT := 0]
  }

  function Scale(m: Form, c: int, p: Prime): (r: Form)
    ensures r.Keys == m.Keys && Reduced(r, p)
  {
    map k | k in m :: Mul(m[k], c, p)
  }

  function AddSymbol(m: Form, s: Signal, c: int, p: Prime): (r: Form)
    ensures r.Keys == m.Keys + {s}
  {
    m[s := Add(Get(m, s), c, p)]
  }

  /** Adds every coefficient of `m` into `into`. */
  function Sum(m: Form, into: Form, p: Prime): (r: Form)
    ensures r.Keys == m.Keys + into.Keys
    ensures Reduced(into, p) ==> Reduced(r, p)
  {
    map k | k in m.Keys + into.Keys :: if k in m then Add(Get(into, k), m[k], p) else into[k]
  }

  function DropZeros(m: Form): (r: Form)
    ensures r.Keys <= m.Keys
    ensures forall k :: k in r ==> r[k] == m[k] && r[k] != 0
    ensures forall k :: k in m && m[k] != 0 ==> k in r
  {
    map k | k in m && m[k] != 0 :: m[k]
  }

  // ----- the helpers as the loops of the source; hash maps are visited in any order

  method MultiplyCoefficients(constant: int, coefficients: Form, p: Prime) returns (r: Form)
    ensures r == Scale(coefficients, constant, p)
  {
    r := coefficients;
    var rest := coefficients.Keys;
    while rest != {}
      invariant rest <= coefficients.Keys == r.Keys
      invariant forall k :: k in rest ==> r[k] == coefficients[k]
      invariant forall k :: k in r.Keys - rest ==> r[k] == Mul(coefficients[k], constant, p)
    {
      var k :| k in rest;
      r := r[k := Mul(r[k], constant, p)];
      rest := rest - {k};
    }
  }

  method AddCoefficients(m: Form, into: Form, p: Prime) returns (r: Form)
    ensures r == Sum(m, into, p)
  {
    r := into;
    var rest := m.Keys;
    while rest != {}
      invariant rest <= m.Keys
      invariant r.Keys == (m.Keys - rest) + into.Keys
      invariant forall k :: k in m.Keys - rest ==> r[k] == Add(Get(into, k), m[k], p)
      invariant forall k :: k in into && k !in m.Keys - rest ==> r[k] == into[k]
    {
      var k :| k in rest;
      r := AddSymbol(r, k, m[k], p);
      rest := rest - {k};
    }
  }

  method RemoveZeroCoefficients(m: Form) returns (r: Form)
    ensures r == DropZeros(m)
  {
    r := map[];
    var rest := m.Keys;
    while rest != {}
      invariant rest <= m.Keys
      invariant forall k :: k in r <==> k in m.Keys - rest && m[k] != 0
      invariant forall k :: k in r ==> r[k] == m[k]
    {
      var k :| k in rest;
      if m[k] != 0 {
        r := r[k := m[k]];
      }
      rest := rest - {k};
    }
  }

  // ----- values of forms

  lemma {:induction false} TotalSplit(m: Form, w: Assignment, k: Signal)
    requires k in m
    ensures Total(m, w) == m[k] * w(k) + Total(m - {k}, w)
    decreases m.Keys
  {
    var first :| first in m && Total(m, w) == m[first] * w(first) + Total(m - {first}, w);
    if first != k {
      TotalSplit(m - {first}, w, k);
      TotalSplit(m - {k}, w, first);
      assert m - {first} - {k} == m - {k} - {first};
    }
  }

  /** Any signal can be split off the sum. */
  lemma EvalSplit(m: Form, w: Assignment, k: Signal)
    requires k in m
    ensures Eval(m, w) == m[k] * w(k) + Eval(m - {k}, w)
  {
    TotalSplit(m, w, k);
  }

  lemma EvalNone(w: Assignment)
    ensures Eval(map[], w) == 0
  {
  }

  lemma EvalUpdate(m: Form, w: Assignment, k: Signal, v: int)
    ensures Eval(m[k := v], w) == Eval(m, w) + (v - Get(m, k)) * w(k)
  {
    var n := m[k := v];
    EvalSplit(n, w, k);
    assert n - {k} == m - {k};
    if k in m {
      EvalSplit(m, w, k);
      assert (v - m[k]) * w(k) == v * w(k) - m[k] * w(k);
    } else {
      assert m - {k} == m;
    }
  }

  lemma EvalWithConstant(m: Form, w: Assignment)
    ensures Eval(WithConstant(m), w) == Eval(m, w)
  {
    if CONSTANT !in m {
      EvalUpdate(m, w, CONSTANT, 0);
    }
  }

  lemma EvalAddSymbol(m: Form, s: Signal, c: int, w: Assignment, p: Prime)
    ensures Cong(p, Eval(AddSymbol(m, s, c, p), w), Eval(m, w) + c * w(s))
  {
    var v := Add(Get(m, s), c, p);
    EvalUpdate(m, w, s, v);
    CongMod(p, Get(m, s) + c);
    CongSub(p, v, Get(m, s) + c, Get(m, s), Get(m, s));
    CongMul(p, v - Get(m, s), c, w(s), w(s));
    CongAdd(p, Eval(m, w), Eval(m, w), (v - Get(m, s)) * w(s), c * w(s));
  }

  lemma ScaleStep(p: Prime, r: int, a: int, c: int, x: int, e: int, f: int)
    requires Cong(p, r, a * c) && Cong(p, f, c * e)
    ensures Cong(p, r * x + f, c * (a * x + e))
  {
    CongMul(p, r, a * c, x, x);
    CongAdd(p, r * x, a * c * x, f, c * e);
    assert a * c * x + c * e == c * (a * x + e) by {
      assert c * (a * x + e) == c * (a * x) + c * e;
    }
  }

  lemma {:induction false} EvalScale(m: Form, c: int, w: Assignment, p: Prime)
    ensures Cong(p, Eval(Scale(m, c, p), w), c * Eval(m, w))
    decreases m.Keys
  {
    if m != map[] {
      var k :| k in m;
      var r := Scale(m, c, p);
      EvalSplit(m, w, k);
      EvalSplit(r, w, k);
      assert r - {k} == Scale(m - {k}, c, p);
      EvalScale(m - {k}, c, w, p);
      CongMod(p, m[k] * c);
      ScaleStep(p, r[k], m[k], c, w(k), Eval(m - {k}, w), Eval(r - {k}, w));
    }
  }

  lemma SumSplit(m: Form, into: Form, k: Signal, p: Prime)
    requires k in m
    ensures Sum(m, into, p) == AddSymbol(Sum(m - {k}, into, p), k, m[k], p)
  {
    var l, r := Sum(m, into, p), AddSymbol(Sum(m - {k}, into, p), k, m[k], p);
    assert l.Keys == r.Keys;
    forall j | j in l
      ensures l[j] == r[j]
    {
      if j != k {
        assert j in m - {k} <==> j in m;
      }
    }
  }

  lemma SumStep(p: Prime, s: int, r: int, x: int, e: int, i: int, total: int)
    requires Cong(p, s, r + x) && Cong(p, r, e + i) && total == x + e
    ensures Cong(p, s, total + i)
  {
    CongAdd(p, r, e + i, x, x);
  }

  lemma EvalSumStep(m: Form, into: Form, w: Assignment, p: Prime, k: Signal)
    requires k in m
    requires Cong(p, Eval(Sum(m - {k}, into, p), w), Eval(m - {k}, w) + Eval(into, w))
    ensures Cong(p, Eval(Sum(m, into, p), w), Eval(m, w) + Eval(into, w))
  {
    hide *;
    EvalSplit(m, w, k);
    SumSplit(m, into, k, p);
    var r := Sum(m - {k}, into, p);
    EvalAddSymbol(r, k, m[k], w, p);
    SumStep(p, Eval(Sum(m, into, p), w), Eval(r, w), m[k] * w(k), Eval(m - {k}, w), Eval(into, w), Eval(m, w));
  }

  lemma EvalSumOfNone(into: Form, w: Assignment, p: Prime)
    ensures Cong(p, Eval(Sum(map[], into, p), w), Eval(map[], w) + Eval(into, w))
  {
    assert Sum(map[], into, p) == into;
    EvalNone(w);
  }

  lemma {:induction false} EvalSum(m: Form, into: Form, w: Assignment, p: Prime)
    ensures Cong(p, Eval(Sum(m, into, p), w), Eval(m, w) + Eval(into, w))
    decreases m.Keys
  {
    hide *;
    if m == map[] {
      EvalSumOfNone(into, w, p);
    } else {
      var k :| k in m;
      EvalSum(m - {k}, into, w, p);
      EvalSumStep(m, into, w, p, k);
    }
  }

  lemma {:induction false} EvalDropZeros(m: Form, w: Assignment)
    ensures Eval(DropZeros(m), w) == Eval(m, w)
    decreases m.Keys
  {
    if m == map[] {
      assert DropZeros(m) == m;
    } else {
      var k :| k in m;
      EvalSplit(m, w, k);
      EvalDropZeros(m - {k}, w);
      if m[k] == 0 {
        assert DropZeros(m) == DropZeros(m - {k});
      } else {
        EvalSplit(DropZeros(m), w, k);
        assert DropZeros(m) - {k} == DropZeros(m - {k});
      }
    }
  }

  /** The value of a form depends on its own signals only. */
  lemma {:induction false} EvalAgree(m: Form, v: Assignment, w: Assignment)
    requires forall k :: k in m ==> v(k) == w(k)
    ensures Eval(m, v) == Eval(m, w)
    decreases m.Keys
  {
    if m != map[] {
      var k :| k in m;
      EvalSplit(m, v, k);
      EvalSplit(m, w, k);
      EvalAgree(m - {k}, v, w);
    }
  }

  lemma EvalSingle(k: Signal, v: int, w: Assignment)
    ensures Eval(map[k := v], w) == v * w(k)
  {
    EvalUpdate(map[], w, k, v);
    assert map[][k := v] == map[k := v];
  }
}
