/** Aggregated openings of committed nodes along a path: commit in
    verkle/commitment_scheme.py, generate_proof in prover/verkle_proof.py and
    verify_proof in verifier/verkle_verification.py.  Group elements are represented by
    their exponents, a pairing by the product of two exponents, and equality in the
    target group by congruence modulo the order of the group. */
module Opening {
  import opened Wrappers
  import opened Field
  import opened Powers
  import opened Evaluation
  import opened Fourier
  import opened Polynomials
  import opened Interpolation
  import opened Commitment
  import Combinations

  // ----- the tables that hold the secret in the exponent

  datatype Secret = Secret(monomials: seq<int>, basis: seq<int>)

  ghost predicate ValidSecret(sec: Secret, s: int, st: Setup, p: Prime) {
    && |sec.monomials| == st.width + 1 && |sec.basis| == |st.lagrangePolys| == st.width
    && (forall i :: 0 <= i <= st.width ==> sec.monomials[i] == Exp(s, i, p))
    && (forall i :: 0 <= i < st.width ==> 0 <= sec.basis[i] < p && Cong(p, sec.basis[i], Ev(st.lagrangePolys[i], s)))
  }

  method NewSecret(st: Setup, s: int, p: Prime) returns (sec: Secret)
    requires ValidSetup(st, p)
    ensures ValidSecret(sec, s, st, p)
  {
    var monomials := seq(st.width + 1, i requires 0 <= i <= st.width => Exp(s, i, p));
    var basis := [];
    for i := 0 to st.width
      invariant |basis| == i
      invariant forall k :: 0 <= k < i ==> 0 <= basis[k] < p && Cong(p, basis[k], Ev(st.lagrangePolys[k], s))
    {
      var value := EvalPolyAt(st.lagrangePolys[i], s, p);
      basis := basis + [value];
    }
    sec := Secret(monomials, basis);
  }

  // ----- linear combinations of exponents

  ghost function WeightedTotal(numbers: seq<int>, factors: seq<int>): int
    requires |numbers| <= |factors|
  {
    if numbers == [] then 0
    else
      var last := |numbers| - 1;
      WeightedTotal(numbers[..last], factors) + factors[last] * numbers[last]
  }

  function AddExponents(): (int, int) -> int {
    (x: int, y: int) => x + y
  }

  lemma AddExponentsMonoid()
    ensures Combinations.CommutativeMonoid(AddExponents(), 0)
  {
  }

  lemma {:induction false} TimesIsProduct(k: nat, x: int)
    ensures Combinations.Times(k, x, AddExponents(), 0) == k * x
  {
    if k != 0 {
      TimesIsProduct(k - 1, x);
      assert (k - 1) * x + x == k * x;
    }
  }

  lemma {:induction false} CombinationIsTotal(numbers: seq<int>, factors: seq<nat>)
    requires |factors| >= |numbers|
    ensures Combinations.Combination(numbers, factors, AddExponents(), 0) == WeightedTotal(numbers, factors)
  {
    if numbers != [] {
      var last := |numbers| - 1;
      CombinationIsTotal(numbers[..last], factors);
      TimesIsProduct(factors[last], numbers[last]);
    }
  }

  method LincombExponents(numbers: seq<int>, factors: seq<int>, partitionSize: nat, p: Prime) returns (r: int)
    requires partitionSize > 0 && |numbers| == |factors| > 0 && ReducedList(factors, p)
    ensures r == WeightedTotal(numbers, factors)
  {
    var naturals: seq<nat> := seq(|factors|, i requires 0 <= i < |factors| && ReducedList(factors, p) => factors[i]);
    assert naturals == factors;
    AddExponentsMonoid();
    r := Combinations.Lincomb(numbers, naturals, partitionSize, AddExponents(), 0);
    CombinationIsTotal(numbers, naturals);
  }

  /** With the powers of the secret the total is a value of the polynomial. */
  lemma {:induction false} MonomialTotal(monomials: seq<int>, c: seq<int>, s: int, p: Prime)
    requires |monomials| <= |c|
    requires forall i :: 0 <= i < |monomials| ==> Cong(p, monomials[i], Pow(s, i))
    ensures Cong(p, WeightedTotal(monomials, c), Ev(c[..|monomials|], s))
  {
    hide Cong, Ev, Pow;
    var n := |monomials|;
    if n == 0 {
      assert c[..0] == [];
      EvNone(s, p);
    } else {
      MonomialTotal(monomials[..n - 1], c, s, p);
      EvPrefix(c, n - 1, s);
      CongTimes(p, c[n - 1], monomials[n - 1], Pow(s, n - 1));
      CongAdd(p, WeightedTotal(monomials[..n - 1], c), Ev(c[..n - 1], s),
              c[n - 1] * monomials[n - 1], c[n - 1] * Pow(s, n - 1));
    }
  }

  /** The committed value of a node. */
  ghost function Committed(values: seq<int>, st: Setup, s: int, p: Prime): int
    requires |values| == st.width > 0
  {
    Ev(InverseTransform(values, st.root, p), s)
  }

  method Commit(values: seq<int>, st: Setup, sec: Secret, ghost s: int, partitionSize: nat, p: Prime) returns (c: int)
    requires partitionSize > 0 && ValidSetup(st, p) && ValidSecret(sec, s, st, p) && |values| <= st.width
    ensures st.width > 0 && Cong(p, c, Committed(Padded(values, st.width), st, s, p))
  {
    hide Cong, Ev, Pow, RootOfUnity, PowerOfTwo, InverseTransform, Padded;
    var padded := Padded(values, st.width);
    var coeffs := FftInto(padded, p, st.root, true, st.width);
    RootPositive(st.root, st.width, p);
    assert Padded(padded, st.width) == padded by { PaddedAgain(padded); }
    InverseReduced(padded, st.root, p);
    c := LincombExponents(sec.monomials[..|coeffs|], coeffs, partitionSize, p);
    MonomialTotal(sec.monomials[..|coeffs|], coeffs, s, p);
    assert coeffs[..|coeffs|] == coeffs;
  }

  lemma PaddedAgain(v: seq<int>)
    ensures Padded(v, |v|) == v
  {
  }

  lemma InverseReduced(v: seq<int>, w: int, p: Prime)
    requires |v| > 0
    ensures ReducedList(InverseTransform(v, w, p), p)
  {
  }

  // ----- values of the basis polynomials give the value of the recovered polynomial

  ghost function BasisPolynomial(v: seq<int>, polys: seq<seq<int>>, n: nat, k: nat): (r: seq<int>)
    requires k <= |v| && k <= |polys| && forall j :: 0 <= j < |polys| ==> |polys[j]| == n
    ensures |r| == n
  {
    if k == 0 then seq(n, _ => 0) else Plus(BasisPolynomial(v, polys, n, k - 1), polys[k - 1], v[k - 1])
  }

  ghost predicate BasisShape(st: Setup) {
    |st.lagrangePolys| == st.width && forall j :: 0 <= j < st.width ==> |st.lagrangePolys[j]| == st.width
  }

  lemma ShapeOf(st: Setup, p: Prime)
    requires ValidSetup(st, p)
    ensures BasisShape(st)
  {
  }

  lemma SetupSizes(st: Setup, p: Prime)
    requires ValidSetup(st, p)
    ensures |st.powers| == st.width
    ensures |st.lagrangePolys| == st.width && forall j :: 0 <= j < st.width ==> |st.lagrangePolys[j]| == st.width
  {
  }

  lemma BasisNone(v: seq<int>, polys: seq<seq<int>>, n: nat, x: int, p: Prime)
    requires forall j :: 0 <= j < |polys| ==> |polys[j]| == n
    ensures Cong(p, Ev(BasisPolynomial(v, polys, n, 0), x), 0)
  {
    EvZeros(BasisPolynomial(v, polys, n, 0), x);
  }

  lemma BasisMore(v: seq<int>, polys: seq<seq<int>>, n: nat, k: nat, x: int)
    requires 0 < k <= |v| && k <= |polys| && forall j :: 0 <= j < |polys| ==> |polys[j]| == n
    ensures Ev(BasisPolynomial(v, polys, n, k), x) == Ev(BasisPolynomial(v, polys, n, k - 1), x) + v[k - 1] * Ev(polys[k - 1], x)
  {
    hide Ev;
    EvPlus(BasisPolynomial(v, polys, n, k - 1), polys[k - 1], v[k - 1], x);
  }

  lemma {:induction false} BasisAt(v: seq<int>, st: Setup, k: nat, m: nat, p: Prime)
    requires ValidSetup(st, p) && BasisShape(st) && |v| == st.width && k <= st.width && m < st.width
    ensures Cong(p, Ev(BasisPolynomial(v, st.lagrangePolys, st.width, k), st.powers[m]), if m < k then v[m] else 0)
  {
    hide *;
    SetupSizes(st, p);
    if k == 0 {
      BasisNone(v, st.lagrangePolys, st.width, st.powers[m], p);
    } else {
      BasisAt(v, st, k - 1, m, p);
      var before, poly := BasisPolynomial(v, st.lagrangePolys, st.width, k - 1), st.lagrangePolys[k - 1];
      UnitAt(st, k - 1, m, p);
      BasisMore(v, st.lagrangePolys, st.width, k, st.powers[m]);
      var f := if m == k - 1 then 1 else 0;
      CongTimes(p, v[k - 1], Ev(poly, st.powers[m]), f);
      TimesUnit(v, k - 1, m);
      CongAdd(p, Ev(before, st.powers[m]), if m < k - 1 then v[m] else 0, v[k - 1] * Ev(poly, st.powers[m]), v[k - 1] * f);
    }
  }

  lemma TimesUnit(v: seq<int>, i: nat, m: nat)
    requires i < |v| && m < |v|
    ensures v[i] * (if m == i then 1 else 0) == if m == i then v[m] else 0
  {
  }

  lemma UnitAt(st: Setup, i: nat, m: nat, p: Prime)
    requires ValidSetup(st, p) && i < st.width && m < st.width
    ensures Cong(p, Ev(st.lagrangePolys[i], st.powers[m]), if m == i then 1 else 0)
  {
    RecoveredValue(Unit(i, st.width), st, m, p);
  }

  lemma {:induction false} BasisTotal(v: seq<int>, st: Setup, basis: seq<int>, s: int, k: nat, p: Prime)
    requires BasisShape(st) && |v| == |basis| == st.width && k <= st.width
    requires forall j :: 0 <= j < st.width ==> Cong(p, basis[j], Ev(st.lagrangePolys[j], s))
    ensures Cong(p, WeightedTotal(basis[..k], v), Ev(BasisPolynomial(v, st.lagrangePolys, st.width, k), s))
  {
    if k == 0 {
      assert basis[..0] == [];
      EvZeros(BasisPolynomial(v, st.lagrangePolys, st.width, 0), s);
    } else {
      BasisTotal(v, st, basis, s, k - 1, p);
      assert basis[..k][..k - 1] == basis[..k - 1];
      hide Cong, Ev;
      EvPlus(BasisPolynomial(v, st.lagrangePolys, st.width, k - 1), st.lagrangePolys[k - 1], v[k - 1], s);
      CongTimes(p, v[k - 1], basis[k - 1], Ev(st.lagrangePolys[k - 1], s));
      CongAdd(p, WeightedTotal(basis[..k - 1], v), Ev(BasisPolynomial(v, st.lagrangePolys, st.width, k - 1), s),
              v[k - 1] * basis[k - 1], v[k - 1] * Ev(st.lagrangePolys[k - 1], s));
    }
  }

  /** Committing in evaluation form and in coefficient form is the same. */
  lemma BasisCommits(v: seq<int>, st: Setup, sec: Secret, s: int, p: Prime)
    requires ValidSetup(st, p) && ValidSecret(sec, s, st, p) && |v| == st.width > 0
    ensures Cong(p, WeightedTotal(sec.basis, v), Committed(v, st, s, p))
  {
    hide Ev, InverseTransform, BasisPolynomial, Cong, ValidSetup, Committed, WeightedTotal;
    ShapeOf(st, p);
    var n := st.width;
    BasisRecovers(v, st, p);
    BasisTotal(v, st, sec.basis, s, n, p);
    assert sec.basis[..n] == sec.basis;
    var b, c := BasisPolynomial(v, st.lagrangePolys, n, n), InverseTransform(v, st.root, p);
    EvCoefficients(p, b, c, s);
    CongTrans(p, WeightedTotal(sec.basis, v), Ev(b, s), Ev(c, s));
    CommittedIs(v, st, s, p);
  }

  lemma CommittedIs(v: seq<int>, st: Setup, s: int, p: Prime)
    requires |v| == st.width > 0
    ensures Committed(v, st, s, p) == Ev(InverseTransform(v, st.root, p), s)
  {
  }

  lemma BasisRecovers(v: seq<int>, st: Setup, p: Prime)
    requires ValidSetup(st, p) && BasisShape(st) && |v| == st.width > 0
    ensures var b, c := BasisPolynomial(v, st.lagrangePolys, st.width, st.width), InverseTransform(v, st.root, p);
      forall k :: 0 <= k < st.width ==> Cong(p, b[k], c[k])
  {
    hide Ev, InverseTransform, BasisPolynomial, Cong, ValidSetup;
    var n := st.width;
    var b, c := BasisPolynomial(v, st.lagrangePolys, n, n), InverseTransform(v, st.root, p);
    forall m | 0 <= m < n
      ensures m < |st.powers| && Cong(p, Ev(b, st.powers[m]), Ev(c, st.powers[m]))
    {
      PowersLength(st, p);
      BasisAt(v, st, n, m, p);
      RecoveredValue(v, st, m, p);
      CongSymmetric(p, Ev(c, st.powers[m]), v[m]);
      CongTrans(p, Ev(b, st.powers[m]), v[m], Ev(c, st.powers[m]));
    }
    SameOnDomain(b, c, st, p);
  }

  lemma PowersLength(st: Setup, p: Prime)
    requires ValidSetup(st, p)
    ensures |st.powers| == st.width
  {
  }

  // ----- the polynomial that vanishes on the domain

  ghost function DomainPolynomial(n: nat): (r: seq<int>)
    requires n >= 1
    ensures |r| == n + 1
  {
    [-1] + seq(n - 1, _ => 0) + [1]
  }

  lemma DomainValue(n: nat, x: int)
    requires n >= 1
    ensures Ev(DomainPolynomial(n), x) == Pow(x, n) - 1
  {
    var zeros := seq(n, _ => 0);
    EvZeros(zeros, x);
    EvReplaced(zeros, 0, -1, x);
    assert DomainPolynomial(n) == zeros[0 := -1] + [1];
    EvSnoc(zeros[0 := -1], 1, x);
    assert (-1 - 0) * Pow(x, 0) == -1 && 1 * Pow(x, n) == Pow(x, n);
  }

  lemma DomainVanishes(st: Setup, j: nat, p: Prime)
    requires ValidSetup(st, p) && j < st.width
    ensures Cong(p, Pow(st.powers[j], st.width) - 1, 0)
  {
    PowCong(p, st.powers[j], Pow(st.root, j), st.width);
    PowPow(st.root, j, st.width);
    MultiplePower(st.root, st.width, j, p);
    assert j * st.width == st.width * j;
    CongTrans(p, Pow(st.powers[j], st.width), Pow(st.root, st.width * j), 1);
    CongDiff(p, Pow(st.powers[j], st.width), 1);
  }

  /** A basis polynomial times its distance, less a multiple of the domain polynomial. */
  ghost function BasisGap(L: seq<int>, x: int, top: int, n: nat): (r: seq<int>)
    requires |L| == n >= 1
    ensures |r| == n + 1
  {
    Plus(TimesLinear(L, x), DomainPolynomial(n), -top)
  }

  lemma BasisGapValue(L: seq<int>, x: int, top: int, n: nat, y: int)
    requires |L| == n >= 1
    ensures Ev(BasisGap(L, x, top, n), y) == (y - x) * Ev(L, y) - top * (Pow(y, n) - 1)
  {
    hide Ev, TimesLinear, DomainPolynomial;
    EvPlus(TimesLinear(L, x), DomainPolynomial(n), -top, y);
    EvTimesLinear(L, x, y);
    DomainValue(n, y);
    assert -top * (Pow(y, n) - 1) == -(top * (Pow(y, n) - 1));
  }

  lemma BasisGapTop(L: seq<int>, x: int, n: nat)
    requires |L| == n >= 1
    ensures BasisGap(L, x, L[n - 1], n)[n] == 0
  {
    assert x * 0 == 0;
    assert TimesLinear(L, x)[n] == L[n - 1];
    assert DomainPolynomial(n)[n] == 1;
  }

  lemma BasisGapRoot(st: Setup, i: nat, j: nat, p: Prime)
    requires ValidSetup(st, p) && BasisShape(st) && i < st.width && j < st.width
    ensures var L := st.lagrangePolys[i];
      Cong(p, Ev(BasisGap(L, st.powers[i], L[st.width - 1], st.width), st.powers[j]), 0)
  {
    var L, x, y := st.lagrangePolys[i], st.powers[i], st.powers[j];
    var top := L[st.width - 1];
    BasisGapValue(L, x, top, st.width, y);
    DomainVanishes(st, j, p);
    UnitAt(st, i, j, p);
    hide Cong, Ev, Pow, ValidSetup, BasisGap;
    CongTimes(p, y - x, Ev(L, y), if j == i then 1 else 0);
    assert (y - x) * (if j == i then 1 else 0) == 0;
    CongTimes(p, top, Pow(y, st.width) - 1, 0);
    assert top * 0 == 0;
    CongSub(p, (y - x) * Ev(L, y), 0, top * (Pow(y, st.width) - 1), 0);
  }

  /** (X - w^i) L_i is the top coefficient of L_i times X^n - 1. */
  lemma BasisTimesDistance(st: Setup, i: nat, s: int, p: Prime)
    requires ValidSetup(st, p) && BasisShape(st) && i < st.width
    ensures Cong(p, (s - st.powers[i]) * Ev(st.lagrangePolys[i], s),
                 st.lagrangePolys[i][st.width - 1] * (Pow(s, st.width) - 1))
  {
    BasisGapZero(st, i, p);
    GapGone(st.lagrangePolys[i], st.powers[i], st.width, s, p);
  }

  lemma GapGone(L: seq<int>, x: int, n: nat, s: int, p: Prime)
    requires |L| == n >= 1 && ZeroModulo(BasisGap(L, x, L[n - 1], n)[..n], p)
    ensures Cong(p, (s - x) * Ev(L, s), L[n - 1] * (Pow(s, n) - 1))
  {
    hide Ev, Pow, Cong, BasisGap;
    var d := BasisGap(L, x, L[n - 1], n);
    BasisGapTop(L, x, n);
    ZeroEverywhere(d[..n], s, p);
    WithoutTop(d, n, s);
    BasisGapValue(L, x, L[n - 1], n, s);
    CongDiff(p, (s - x) * Ev(L, s), L[n - 1] * (Pow(s, n) - 1));
  }

  lemma BasisGapZero(st: Setup, i: nat, p: Prime)
    requires ValidSetup(st, p) && BasisShape(st) && i < st.width
    ensures var L := st.lagrangePolys[i];
      ZeroModulo(BasisGap(L, st.powers[i], L[st.width - 1], st.width)[..st.width], p)
  {
    var n, L, x := st.width, st.lagrangePolys[i], st.powers[i];
    var d := BasisGap(L, x, L[n - 1], n);
    BasisGapTop(L, x, n);
    DomainDistinct(st, p);
    PowersLength(st, p);
    hide Ev, Distinct, ValidSetup, BasisGap, Cong;
    forall j | 0 <= j < n
      ensures Cong(p, Ev(d[..n], st.powers[j]), 0)
    {
      BasisGapRoot(st, i, j, p);
      WithoutTop(d, n, st.powers[j]);
    }
    TooManyRoots(d[..n], st.powers, p);
  }

  lemma WithoutTop(d: seq<int>, n: nat, x: int)
    requires |d| == n + 1 && d[n] == 0
    ensures Ev(d, x) == Ev(d[..n], x)
  {
    EvPrefix(d, n, x);
    assert d[..n + 1] == d && 0 * Pow(x, n) == 0;
  }

  lemma ZeroEverywhere(v: seq<int>, x: int, p: Prime)
    requires ZeroModulo(v, p)
    ensures Cong(p, Ev(v, x), 0)
  {
    var zeros := seq(|v|, _ => 0);
    EvCoefficients(p, v, zeros, x);
    EvZeros(zeros, x);
  }

  // ----- proofs

  /** A node on a path: its values, the position that is opened, and the random factor. */
  datatype Step = Step(values: seq<int>, index: nat, factor: nat)

  /** What the verifier knows of a node: the commitment, the position and the claimed value. */
  datatype Claim = Claim(commitment: int, index: nat, leaf: nat, factor: nat)

  ghost predicate GoodSteps(steps: seq<Step>, st: Setup) {
    && |st.powers| == st.width > 0
    && forall k :: 0 <= k < |steps| ==> |steps[k].values| == st.width && steps[k].index < st.width
  }

  ghost predicate Quotients(qs: seq<seq<int>>, steps: seq<Step>, st: Setup, p: Prime)
    requires GoodSteps(steps, st)
  {
    |qs| == |steps| && forall k :: 0 <= k < |steps| ==> QuotientOf(qs[k], steps[k].values, steps[k].index, st, p)
  }

  /** The committed quotients, each times its factor. */
  ghost function WitnessOf(steps: seq<Step>, qs: seq<seq<int>>, st: Setup, s: int, p: Prime): int
    requires |qs| == |steps| && st.width > 0 && forall k :: 0 <= k < |qs| ==> |qs[k]| == st.width
  {
    if steps == [] then 0
    else
      var last := |steps| - 1;
      WitnessOf(steps[..last], qs[..last], st, s, p) + steps[last].factor * Committed(qs[last], st, s, p)
  }

  lemma {:induction false} TotalAdds(basis: seq<int>, total: seq<int>, q: seq<int>, factor: int, total': seq<int>, p: Prime)
    requires |basis| <= |total| == |q| == |total'|
    requires forall j :: 0 <= j < |total| ==> total'[j] == (total[j] + q[j] * factor) % p
    ensures Cong(p, WeightedTotal(basis, total'), WeightedTotal(basis, total) + factor * WeightedTotal(basis, q))
  {
    if basis != [] {
      var last := |basis| - 1;
      TotalAdds(basis[..last], total, q, factor, total', p);
      hide Cong;
      var b, a, c := basis[last], total[last], q[last];
      CongMod(p, a + c * factor);
      CongMul(p, total'[last], a + c * factor, b, b);
      var x, y := WeightedTotal(basis[..last], total), WeightedTotal(basis[..last], q);
      CongAdd(p, WeightedTotal(basis[..last], total'), x + factor * y, total'[last] * b, (a + c * factor) * b);
      assert (a + c * factor) * b == a * b + factor * (c * b);
      assert factor * (y + c * b) == factor * y + factor * (c * b);
    }
  }

  lemma {:induction false} TotalOfZeros(basis: seq<int>, total: seq<int>)
    requires |basis| <= |total| && forall j :: 0 <= j < |total| ==> total[j] == 0
    ensures WeightedTotal(basis, total) == 0
  {
    if basis != [] {
      TotalOfZeros(basis[..|basis| - 1], total);
      assert 0 * basis[|basis| - 1] == 0;
    }
  }

  /** One step of the prover adds one committed quotient. */
  lemma WitnessStep(steps: seq<Step>, qs: seq<seq<int>>, q: seq<int>, k: nat, total: seq<int>, total': seq<int>,
                    st: Setup, sec: Secret, s: int, p: Prime)
    requires ValidSetup(st, p) && ValidSecret(sec, s, st, p) && st.width > 0
    requires k < |steps| && |qs| == k && (forall i :: 0 <= i < k ==> |qs[i]| == st.width) && |q| == st.width
    requires |total| == |total'| == st.width
    requires forall j :: 0 <= j < |total| ==> total'[j] == (total[j] + q[j] * steps[k].factor) % p
    requires Cong(p, WeightedTotal(sec.basis, total), WitnessOf(steps[..k], qs, st, s, p))
    ensures Cong(p, WeightedTotal(sec.basis, total'), WitnessOf(steps[..k + 1], qs + [q], st, s, p))
  {
    var f := steps[k].factor;
    assert steps[..k + 1][..k] == steps[..k] && (qs + [q])[..k] == qs;
    TotalAdds(sec.basis, total, q, f, total', p);
    BasisCommits(q, st, sec, s, p);
    assert WitnessOf(steps[..k + 1], qs + [q], st, s, p) == WitnessOf(steps[..k], qs, st, s, p) + f * Committed(q, st, s, p);
    hide Cong, ValidSetup, ValidSecret, Committed, WeightedTotal, WitnessOf;
    CongTimes(p, f, WeightedTotal(sec.basis, q), Committed(q, st, s, p));
    CongAdd(p, WeightedTotal(sec.basis, total), WitnessOf(steps[..k], qs, st, s, p),
            f * WeightedTotal(sec.basis, q), f * Committed(q, st, s, p));
    CongTrans(p, WeightedTotal(sec.basis, total'), WeightedTotal(sec.basis, total) + f * WeightedTotal(sec.basis, q),
              WitnessOf(steps[..k], qs, st, s, p) + f * Committed(q, st, s, p));
  }

  method GenerateProof(steps: seq<Step>, st: Setup, sec: Secret, ghost s: int, partitionSize: nat, p: Prime)
    returns (opening: int, ghost qs: seq<seq<int>>)
    requires partitionSize > 0 && ValidSetup(st, p) && ValidSecret(sec, s, st, p) && GoodSteps(steps, st)
    ensures Quotients(qs, steps, st, p) && forall i :: 0 <= i < |qs| ==> |qs[i]| == st.width
    ensures Cong(p, opening, WitnessOf(steps, qs, st, s, p))
  {
    hide Cong, ValidSetup, WeightedTotal, WitnessOf, QuotientOf;
    var n := st.width;
    var total := seq(n, _ => 0);
    qs := [];
    TotalOfZeros(sec.basis, total);
    NoWitness(steps, st, s, p);
    SmallRemainder(0, p);
    for k := 0 to |steps|
      invariant |total| == n && ReducedList(total, p)
      invariant |qs| == k && forall i :: 0 <= i < k ==> |qs[i]| == n
      invariant forall i :: 0 <= i < k ==> QuotientOf(qs[i], steps[i].values, steps[i].index, st, p)
      invariant Cong(p, WeightedTotal(sec.basis, total), WitnessOf(steps[..k], qs, st, s, p))
    {
      var q := QuotientFor(steps[k], st, p);
      ghost var before := total;
      for j := 0 to n
        invariant |total| == n && ReducedList(total, p)
        invariant forall i :: 0 <= i < j ==> total[i] == (before[i] + q[i] * steps[k].factor) % p
        invariant forall i :: j <= i < n ==> total[i] == before[i]
      {
        total := total[j := (total[j] + q[j] * steps[k].factor) % p];
      }
      WitnessStep(steps, qs, q, k, before, total, st, sec, s, p);
      qs := qs + [q];
    }
    assert steps[..|steps|] == steps;
    opening := LincombExponents(sec.basis, total, partitionSize, p);
  }

  method QuotientFor(step: Step, st: Setup, p: Prime) returns (q: seq<int>)
    requires ValidSetup(st, p) && |step.values| == |st.powers| == st.width && step.index < st.width
    ensures |q| == st.width && QuotientOf(q, step.values, step.index, st, p)
  {
    q := GenerateQuotient(step.values, step.index, st, p);
  }

  lemma NoWitness(steps: seq<Step>, st: Setup, s: int, p: Prime)
    requires st.width > 0
    ensures Cong(p, 0, WitnessOf(steps[..0], [], st, s, p))
  {
  }

  // ----- verification

  /** What the verifier pairs with the distance of a claim. */
  ghost function ZComm(i: nat, st: Setup, s: int, p: Prime): int
    requires ValidSetup(st, p) && i < st.width
  {
    BasisTop(st, i, p);
    ShapeOf(st, p);
    Ev(st.lagrangePolys[i], s) * Inverse(st.lagrangePolys[i][st.width - 1], p)
  }

  ghost predicate GoodClaims(claims: seq<Claim>, st: Setup) {
    forall k :: 0 <= k < |claims| ==> claims[k].index < st.width
  }

  /** The exponent of the product of the pairings over the claims. */
  ghost function CheckOf(claims: seq<Claim>, st: Setup, s: int, p: Prime): int
    requires ValidSetup(st, p) && GoodClaims(claims, st)
  {
    if claims == [] then 0
    else
      var last := |claims| - 1;
      var c := claims[last];
      CheckOf(claims[..last], st, s, p) + c.factor * (ZComm(c.index, st, s, p) * (c.commitment - c.leaf))
  }

  lemma CheckStep(p: Prime, check: int, sum: int, z: int, z': int, commitment: int, leaf: int, factor: int)
    requires Cong(p, check, sum) && Cong(p, z', z)
    ensures Cong(p, check + z' * ((commitment + (p - leaf)) * factor), sum + factor * (z * (commitment - leaf)))
  {
    hide *;
    var d, shifted := commitment - leaf, commitment + (p - leaf);
    CongIntro(p, shifted, d, 1);
    CongTimes(p, factor, shifted, d);
    FactorsCommute(factor, shifted);
    CongMul(p, z', z, shifted * factor, factor * d);
    FactorsExchange(z, factor, d);
    CongAdd(p, check, sum, z' * (shifted * factor), factor * (z * d));
  }

  method ZCommFor(i: nat, st: Setup, sec: Secret, ghost s: int, p: Prime) returns (z: int)
    requires ValidSetup(st, p) && ValidSecret(sec, s, st, p) && i < st.width
    ensures Cong(p, z, ZComm(i, st, s, p))
  {
    BasisTop(st, i, p);
    ShapeOf(st, p);
    var top := st.lagrangePolys[i][st.width - 1];
    var inverse := Inv(top, p);
    SameInverse(p, top, inverse);
    z := sec.basis[i] * inverse;
    CongMul(p, sec.basis[i], Ev(st.lagrangePolys[i], s), inverse, Inverse(top, p));
  }

  lemma SameInverse(p: Prime, a: int, r: int)
    requires a % p != 0 && Cong(p, a * r, 1)
    ensures Cong(p, r, Inverse(a, p))
  {
    CongSymmetric(p, a * Inverse(a, p), 1);
    CongTrans(p, a * r, 1, a * Inverse(a, p));
    CongCancel(p, a, r, Inverse(a, p));
  }

  /** A claimed value above the modulus makes the verifier multiply by a negative scalar. */
  ghost predicate InField(claims: seq<Claim>, p: Prime) {
    forall k :: 0 <= k < |claims| ==> claims[k].leaf <= p
  }

  /** Multiplication of a group element by a scalar; a negative scalar is an error. */
  function Multiply(g: int, k: int): Option<int> {
    if k < 0 then None else Some(k * g)
  }

  /** The product of the pairings over the claims, unless a scalar is negative. */
  method PairClaims(claims: seq<Claim>, st: Setup, sec: Secret, ghost s: int, p: Prime) returns (r: Option<int>)
    requires ValidSetup(st, p) && ValidSecret(sec, s, st, p) && GoodClaims(claims, st)
    ensures r.Some? <==> InField(claims, p)
    ensures r.Some? ==> Cong(p, r.value, CheckOf(claims, st, s, p))
  {
    hide Cong, ZComm, ValidSetup, ValidSecret;
    var check := 0;
    CheckStart(claims, st, s, p);
    for k := 0 to |claims|
      invariant Cong(p, check, CheckOf(claims[..k], st, s, p))
      invariant InField(claims[..k], p)
    {
      var c := claims[k];
      var negated := Multiply(1, p - c.leaf);
      if negated.None? {
        return None;
      }
      var z := ZCommFor(c.index, st, sec, s, p);
      assert claims[..k + 1][..k] == claims[..k];
      CheckStep(p, check, CheckOf(claims[..k], st, s, p), ZComm(c.index, st, s, p), z, c.commitment, c.leaf, c.factor);
      check := check + z * ((c.commitment + negated.value) * c.factor);
    }
    assert claims[..|claims|] == claims;
    r := Some(check);
  }

  /** What comes out of a verification: an error, or whether the equation of exponents holds. */
  ghost function Outcome(claims: seq<Claim>, opening: int, st: Setup, s: int, p: Prime): Option<bool>
    requires ValidSetup(st, p) && GoodClaims(claims, st)
  {
    if InField(claims, p) then Some(Cong(p, CheckOf(claims, st, s, p) - (Pow(s, st.width) - 1) * opening, 0)) else None
  }

  method VerifyProof(claims: seq<Claim>, opening: int, st: Setup, sec: Secret, ghost s: int, p: Prime) returns (r: Option<bool>)
    requires ValidSetup(st, p) && ValidSecret(sec, s, st, p) && GoodClaims(claims, st)
    ensures r == Outcome(claims, opening, st, s, p)
  {
    hide Cong, CheckOf, ValidSetup, Pow, GoodClaims, InField;
    var product := PairClaims(claims, st, sec, s, p);
    if product.None? {
      return None;
    }
    var check, globalZComm := product.value, sec.monomials[st.width] - sec.monomials[0];
    r := Some((check + -globalZComm * opening) % p == 0);
    GlobalStep(p, check, CheckOf(claims, st, s, p), sec.monomials[st.width], sec.monomials[0],
               Pow(s, st.width), Pow(s, 0), opening);
    OneIsFirst(s);
    ZeroOrNot(p, check + -globalZComm * opening, CheckOf(claims, st, s, p) - (Pow(s, st.width) - 1) * opening);
  }

  lemma OneIsFirst(s: int)
    ensures Pow(s, 0) == 1
  {
  }

  lemma ZeroOrNot(p: Prime, check: int, e: int)
    requires Cong(p, check, e)
    ensures check % p == 0 <==> Cong(p, e, 0)
  {
  }

  lemma CheckStart(claims: seq<Claim>, st: Setup, s: int, p: Prime)
    requires ValidSetup(st, p) && GoodClaims(claims, st)
    ensures Cong(p, 0, CheckOf(claims[..0], st, s, p))
  {
  }

  lemma GlobalStep(p: Prime, check: int, sum: int, high: int, low: int, high': int, low': int, opening: int)
    requires Cong(p, check, sum) && Cong(p, high, high') && Cong(p, low, low')
    ensures Cong(p, check + -(high - low) * opening, sum - (high' - low') * opening)
  {
    hide Cong;
    CongSub(p, high, high', low, low');
    CongMul(p, high - low, high' - low', opening, opening);
    CongSub(p, check, sum, (high - low) * opening, (high' - low') * opening);
    assert -(high - low) * opening == -((high - low) * opening);
  }

  // ----- what verification decides

  /** Honest commitments at the opened positions; the claimed values are free. */
  ghost predicate ClaimsAbout(claims: seq<Claim>, steps: seq<Step>, st: Setup, s: int, p: Prime)
    requires GoodSteps(steps, st)
  {
    |claims| == |steps| && forall k :: 0 <= k < |steps| ==>
      && claims[k].index == steps[k].index && claims[k].factor == steps[k].factor
      && Cong(p, claims[k].commitment, Committed(steps[k].values, st, s, p))
  }

  /** The claimed values against the committed ones. */
  ghost function Discrepancy(claims: seq<Claim>, steps: seq<Step>, st: Setup, s: int, p: Prime): int
    requires ValidSetup(st, p) && GoodClaims(claims, st) && GoodSteps(steps, st) && |claims| == |steps|
    requires forall k :: 0 <= k < |steps| ==> claims[k].index == steps[k].index
  {
    if claims == [] then 0
    else
      var last := |claims| - 1;
      var c := claims[last];
      Discrepancy(claims[..last], steps[..last], st, s, p)
      + c.factor * (ZComm(c.index, st, s, p) * (steps[last].values[c.index] - c.leaf))
  }

  lemma ZTimesDistance(i: nat, st: Setup, s: int, p: Prime)
    requires ValidSetup(st, p) && i < st.width
    ensures Cong(p, ZComm(i, st, s, p) * (s - st.powers[i]), Pow(s, st.width) - 1)
  {
    BasisTop(st, i, p);
    ShapeOf(st, p);
    BasisTimesDistance(st, i, s, p);
    var top := st.lagrangePolys[i][st.width - 1];
    hide Cong, Ev, Pow, ValidSetup;
    DivideTop(p, Ev(st.lagrangePolys[i], s), top, Inverse(top, p), s - st.powers[i], Pow(s, st.width) - 1);
  }

  lemma DivideTop(p: Prime, l: int, top: int, r: int, d: int, g: int)
    requires Cong(p, d * l, top * g) && Cong(p, top * r, 1)
    ensures Cong(p, (l * r) * d, g)
  {
    hide Cong;
    CongTimes(p, r, d * l, top * g);
    CongTimes(p, g, top * r, 1);
    assert r * (d * l) == (l * r) * d && r * (top * g) == g * (top * r) && g * 1 == g;
    CongTrans(p, (l * r) * d, g * (top * r), g);
  }

  /** One claim: a multiple of the domain polynomial plus what is wrong about the value. */
  lemma ClaimSplit(p: Prime, f: int, z: int, d: int, g: int, Q: int, commitment: int, v: int, leaf: int)
    requires Cong(p, z * d, g) && Cong(p, commitment, d * Q + v)
    ensures Cong(p, f * (z * (commitment - leaf)), f * (z * (v - leaf)) + g * (f * Q))
  {
    hide Cong;
    CongEqual(p, leaf, leaf);
    CongSub(p, commitment, d * Q + v, leaf, leaf);
    CongTimes(p, z, commitment - leaf, d * Q + v - leaf);
    CongTimes(p, f, z * (commitment - leaf), z * (d * Q + v - leaf));
    CongTimes(p, f * Q, z * d, g);
    CongEqual(p, f * (z * (v - leaf)), f * (z * (v - leaf)));
    CongAdd(p, f * (z * (v - leaf)), f * (z * (v - leaf)), f * Q * (z * d), f * Q * g);
    SplitProduct(f, z, d, Q, v - leaf, g);
    CongTrans(p, f * (z * (commitment - leaf)), f * (z * (d * Q + v - leaf)), f * (z * (v - leaf)) + g * (f * Q));
  }

  lemma SplitProduct(f: int, z: int, d: int, Q: int, e: int, g: int)
    ensures f * (z * (d * Q + e)) == f * (z * e) + f * Q * (z * d)
    ensures f * Q * g == g * (f * Q)
  {
    assert z * (d * Q + e) == z * (d * Q) + z * e;
    assert f * (z * (d * Q)) == f * Q * (z * d);
  }

  lemma FrontOfProof(claims: seq<Claim>, steps: seq<Step>, qs: seq<seq<int>>, st: Setup, s: int, p: Prime)
    requires GoodSteps(steps, st) && Quotients(qs, steps, st, p) && ClaimsAbout(claims, steps, st, s, p) && steps != []
    ensures var last := |steps| - 1;
      && GoodSteps(steps[..last], st) && Quotients(qs[..last], steps[..last], st, p)
      && ClaimsAbout(claims[..last], steps[..last], st, s, p)
  {
    hide QuotientOf, Committed;
  }

  lemma {:induction false} CheckIsDiscrepancy(claims: seq<Claim>, steps: seq<Step>, qs: seq<seq<int>>, st: Setup, s: int, p: Prime)
    requires ValidSetup(st, p) && GoodClaims(claims, st) && GoodSteps(steps, st)
    requires Quotients(qs, steps, st, p) && ClaimsAbout(claims, steps, st, s, p)
    requires |qs| == |steps| && forall k :: 0 <= k < |qs| ==> |qs[k]| == st.width
    ensures Cong(p, CheckOf(claims, st, s, p),
                 Discrepancy(claims, steps, st, s, p) + (Pow(s, st.width) - 1) * WitnessOf(steps, qs, st, s, p))
  {
    hide Cong, Pow, ZComm, Committed, ValidSetup, QuotientOf, CheckOf, Discrepancy, WitnessOf;
    if steps == [] {
      NoClaims(claims, steps, qs, st, s, p);
    } else {
      var last := |steps| - 1;
      FrontOfProof(claims, steps, qs, st, s, p);
      CheckIsDiscrepancy(claims[..last], steps[..last], qs[..last], st, s, p);
      LastClaim(claims, steps, qs, st, s, p);
    }
  }

  lemma NoClaims(claims: seq<Claim>, steps: seq<Step>, qs: seq<seq<int>>, st: Setup, s: int, p: Prime)
    requires ValidSetup(st, p) && st.width > 0 && claims == [] && steps == [] && qs == []
    ensures Cong(p, CheckOf(claims, st, s, p),
                 Discrepancy(claims, steps, st, s, p) + (Pow(s, st.width) - 1) * WitnessOf(steps, qs, st, s, p))
  {
    assert (Pow(s, st.width) - 1) * 0 == 0;
  }

  lemma LastClaim(claims: seq<Claim>, steps: seq<Step>, qs: seq<seq<int>>, st: Setup, s: int, p: Prime)
    requires ValidSetup(st, p) && GoodClaims(claims, st) && GoodSteps(steps, st) && steps != []
    requires Quotients(qs, steps, st, p) && ClaimsAbout(claims, steps, st, s, p)
    requires |qs| == |steps| && forall k :: 0 <= k < |qs| ==> |qs[k]| == st.width
    requires Cong(p, CheckOf(claims[..|steps| - 1], st, s, p),
                  Discrepancy(claims[..|steps| - 1], steps[..|steps| - 1], st, s, p)
                  + (Pow(s, st.width) - 1) * WitnessOf(steps[..|steps| - 1], qs[..|steps| - 1], st, s, p))
    ensures Cong(p, CheckOf(claims, st, s, p),
                 Discrepancy(claims, steps, st, s, p) + (Pow(s, st.width) - 1) * WitnessOf(steps, qs, st, s, p))
  {
    hide Cong, Pow, ZComm, Committed, ValidSetup, QuotientOf, CheckOf, Discrepancy, WitnessOf;
    var last := |steps| - 1;
    ClaimIs(claims[last], steps[last], qs[last], st, s, p);
    UnfoldSums(claims, steps, qs, st, s, p);
    var c, z, v := claims[last], ZComm(claims[last].index, st, s, p), steps[last].values[claims[last].index];
    AddClaim(p, CheckOf(claims[..last], st, s, p), Discrepancy(claims[..last], steps[..last], st, s, p), Pow(s, st.width) - 1,
             WitnessOf(steps[..last], qs[..last], st, s, p), c.factor * (z * (c.commitment - c.leaf)),
             c.factor * (z * (v - c.leaf)), c.factor * Committed(qs[last], st, s, p));
  }

  lemma UnfoldSums(claims: seq<Claim>, steps: seq<Step>, qs: seq<seq<int>>, st: Setup, s: int, p: Prime)
    requires ValidSetup(st, p) && GoodClaims(claims, st) && GoodSteps(steps, st) && |claims| == |steps| > 0
    requires forall k :: 0 <= k < |steps| ==> claims[k].index == steps[k].index && claims[k].factor == steps[k].factor
    requires |qs| == |steps| && forall k :: 0 <= k < |qs| ==> |qs[k]| == st.width
    ensures CheckOf(claims, st, s, p) == CheckOf(claims[..|claims| - 1], st, s, p) + claims[|claims| - 1].factor
      * (ZComm(claims[|claims| - 1].index, st, s, p) * (claims[|claims| - 1].commitment - claims[|claims| - 1].leaf))
    ensures Discrepancy(claims, steps, st, s, p)
      == Discrepancy(claims[..|claims| - 1], steps[..|claims| - 1], st, s, p) + claims[|claims| - 1].factor
      * (ZComm(claims[|claims| - 1].index, st, s, p)
        * (steps[|claims| - 1].values[claims[|claims| - 1].index] - claims[|claims| - 1].leaf))
    ensures WitnessOf(steps, qs, st, s, p) == WitnessOf(steps[..|claims| - 1], qs[..|claims| - 1], st, s, p)
      + claims[|claims| - 1].factor * Committed(qs[|claims| - 1], st, s, p)
  {
    hide ZComm, Committed, ValidSetup;
  }

  lemma AddClaim(p: Prime, sum: int, disc: int, g: int, w: int, claim: int, wrong: int, quotient: int)
    requires Cong(p, sum, disc + g * w) && Cong(p, claim, wrong + g * quotient)
    ensures Cong(p, sum + claim, disc + wrong + g * (w + quotient))
  {
    hide Cong;
    CongAdd(p, sum, disc + g * w, claim, wrong + g * quotient);
    assert g * (w + quotient) == g * w + g * quotient;
  }

  lemma ClaimIs(c: Claim, step: Step, q: seq<int>, st: Setup, s: int, p: Prime)
    requires ValidSetup(st, p) && |step.values| == st.width > 0 && step.index == c.index < st.width
    requires QuotientOf(q, step.values, step.index, st, p) && Cong(p, c.commitment, Committed(step.values, st, s, p))
    ensures var z := ZComm(c.index, st, s, p);
      Cong(p, c.factor * (z * (c.commitment - c.leaf)),
           c.factor * (z * (step.values[c.index] - c.leaf)) + (Pow(s, st.width) - 1) * (c.factor * Committed(q, st, s, p)))
  {
    var z, d := ZComm(c.index, st, s, p), s - st.powers[c.index];
    ZTimesDistance(c.index, st, s, p);
    QuotientAnywhere(q, step.values, step.index, st, s, p);
    CongTrans(p, c.commitment, Committed(step.values, st, s, p), d * Committed(q, st, s, p) + step.values[c.index]);
    hide Cong, Pow, ZComm, Committed, ValidSetup;
    ClaimSplit(p, c.factor, z, d, Pow(s, st.width) - 1, Committed(q, st, s, p), c.commitment, step.values[c.index], c.leaf);
  }

  /** With an honest opening the verifier accepts exactly when no value is above the modulus and
      the weighted differences between committed and claimed values add up to zero. */
  lemma VerifierExact(claims: seq<Claim>, steps: seq<Step>, qs: seq<seq<int>>, opening: int, st: Setup, s: int, p: Prime)
    requires ValidSetup(st, p) && GoodClaims(claims, st) && GoodSteps(steps, st)
    requires Quotients(qs, steps, st, p) && ClaimsAbout(claims, steps, st, s, p)
    requires |qs| == |steps| && forall k :: 0 <= k < |qs| ==> |qs[k]| == st.width
    requires Cong(p, opening, WitnessOf(steps, qs, st, s, p))
    ensures Outcome(claims, opening, st, s, p)
      == if InField(claims, p) then Some(Cong(p, Discrepancy(claims, steps, st, s, p), 0)) else None
  {
    hide Cong, Pow, ZComm, Committed, ValidSetup, QuotientOf, CheckOf, Discrepancy, WitnessOf, InField;
    CheckIsDiscrepancy(claims, steps, qs, st, s, p);
    CancelOpening(p, CheckOf(claims, st, s, p), Discrepancy(claims, steps, st, s, p), Pow(s, st.width) - 1,
                  WitnessOf(steps, qs, st, s, p), opening);
  }

  lemma CancelOpening(p: Prime, check: int, disc: int, g: int, w: int, opening: int)
    requires Cong(p, check, disc + g * w) && Cong(p, opening, w)
    ensures Cong(p, check - g * opening, 0) <==> Cong(p, disc, 0)
  {
    CongTimes(p, g, opening, w);
    CongSub(p, check, disc + g * w, g * opening, g * w);
  }

  /** Claims that are true: the commitments and the values of the steps. */
  ghost predicate TrueClaims(claims: seq<Claim>, steps: seq<Step>, st: Setup, s: int, p: Prime)
    requires GoodSteps(steps, st)
  {
    && ClaimsAbout(claims, steps, st, s, p)
    && forall k :: 0 <= k < |claims| ==> claims[k].leaf == steps[k].values[steps[k].index]
  }

  /** True values leave no discrepancy. */
  lemma {:induction false} NoDiscrepancy(claims: seq<Claim>, steps: seq<Step>, st: Setup, s: int, p: Prime)
    requires ValidSetup(st, p) && GoodClaims(claims, st) && GoodSteps(steps, st) && |claims| == |steps|
    requires forall k :: 0 <= k < |steps| ==> claims[k].index == steps[k].index
    requires forall k :: 0 <= k < |steps| ==> claims[k].leaf == steps[k].values[steps[k].index]
    ensures Discrepancy(claims, steps, st, s, p) == 0
  {
    if claims != [] {
      var last := |claims| - 1;
      NoDiscrepancy(claims[..last], steps[..last], st, s, p);
      assert claims[last].factor * (ZComm(claims[last].index, st, s, p) * 0) == 0;
    }
  }

  /** An honest proof is accepted exactly if no value is above the modulus; otherwise it is an error. */
  lemma HonestAccepted(claims: seq<Claim>, steps: seq<Step>, qs: seq<seq<int>>, opening: int, st: Setup, s: int, p: Prime)
    requires ValidSetup(st, p) && GoodSteps(steps, st) && GoodClaims(claims, st) && TrueClaims(claims, steps, st, s, p)
    requires Quotients(qs, steps, st, p) && forall k :: 0 <= k < |qs| ==> |qs[k]| == st.width
    requires Cong(p, opening, WitnessOf(steps, qs, st, s, p))
    ensures Outcome(claims, opening, st, s, p)
      == if forall k :: 0 <= k < |steps| ==> steps[k].values[steps[k].index] <= p then Some(true) else None
  {
    hide ZComm, Committed, ValidSetup, QuotientOf, CheckOf, Discrepancy, WitnessOf;
    VerifierExact(claims, steps, qs, opening, st, s, p);
    NoDiscrepancy(claims, steps, st, s, p);
    assert Cong(p, 0, 0);
    if InField(claims, p) {
      forall k | 0 <= k < |steps|
        ensures steps[k].values[steps[k].index] <= p
      {
        assert claims[k].leaf <= p;
      }
    } else {
      var k :| 0 <= k < |claims| && claims[k].leaf > p;
      assert steps[k].values[steps[k].index] > p;
    }
  }

  /** Proving and verifying: true claims are accepted exactly if no value is above the modulus. */
  method ProveAndVerify(claims: seq<Claim>, steps: seq<Step>, st: Setup, sec: Secret, ghost s: int, partitionSize: nat, p: Prime)
    returns (r: Option<bool>)
    requires partitionSize > 0 && ValidSetup(st, p) && ValidSecret(sec, s, st, p)
    requires GoodSteps(steps, st) && GoodClaims(claims, st) && TrueClaims(claims, steps, st, s, p)
    ensures r == if forall k :: 0 <= k < |steps| ==> steps[k].values[steps[k].index] <= p then Some(true) else None
  {
    hide Cong, ValidSetup, ValidSecret, WitnessOf, QuotientOf, Outcome, TrueClaims;
    var opening;
    ghost var qs;
    opening, qs := GenerateProof(steps, st, sec, s, partitionSize, p);
    HonestAccepted(claims, steps, qs, opening, st, s, p);
    r := VerifyProof(claims, opening, st, sec, s, p);
  }

  /** One node in which the value p + 1 is stored at position zero. */
  function LargeStep(n: nat, p: Prime): Step
    requires n > 0
  {
    Step([p + 1] + seq(n - 1, _ => 0), 0, 1)
  }

  /** Its true claim is refused with an error, whatever the opening. */
  lemma LargeValueRefused(opening: int, st: Setup, s: int, p: Prime)
    requires ValidSetup(st, p) && st.width > 0
    ensures var step := LargeStep(st.width, p);
      var claim := Claim(Committed(step.values, st, s, p), 0, p + 1, 1);
      && GoodSteps([step], st) && GoodClaims([claim], st) && TrueClaims([claim], [step], st, s, p)
      && Outcome([claim], opening, st, s, p) == None
  {
    hide Committed, ZComm;
    PowersLength(st, p);
    var step := LargeStep(st.width, p);
    var claim := Claim(Committed(step.values, st, s, p), 0, p + 1, 1);
    assert [claim][0].leaf > p;
  }

  /** If only the last claim is in doubt, it is accepted exactly when its value is the
      committed one, unless its factor or its pairing exponent is zero. */
  lemma OneClaimDecides(claims: seq<Claim>, steps: seq<Step>, st: Setup, s: int, p: Prime)
    requires ValidSetup(st, p) && GoodClaims(claims, st) && GoodSteps(steps, st) && |claims| == |steps| > 0
    requires forall k :: 0 <= k < |steps| ==> claims[k].index == steps[k].index
    requires forall k :: 0 <= k < |steps| - 1 ==> claims[k].leaf == steps[k].values[steps[k].index]
    ensures var c := claims[|claims| - 1];
      Cong(p, Discrepancy(claims, steps, st, s, p), 0) <==>
      c.factor % p == 0 || ZComm(c.index, st, s, p) % p == 0 || Cong(p, c.leaf, steps[|claims| - 1].values[c.index])
  {
    var last := |claims| - 1;
    var c := claims[last];
    NoDiscrepancy(claims[..last], steps[..last], st, s, p);
    var z, d := ZComm(c.index, st, s, p), steps[last].values[c.index] - c.leaf;
    assert Discrepancy(claims, steps, st, s, p) == 0 + c.factor * (z * d);
    hide ZComm, Discrepancy, ValidSetup;
    ProductZero(p, c.factor, z * d);
    ProductZero(p, z, d);
    CongDiff(p, steps[last].values[c.index], c.leaf);
  }

  // ----- the random factors

  function WithFactor(claims: seq<Claim>, j: nat, f: nat): seq<Claim>
    requires j < |claims|
  {
    claims[j := Claim(claims[j].commitment, claims[j].index, claims[j].leaf, f)]
  }

  function StepsWithFactor(steps: seq<Step>, j: nat, f: nat): seq<Step>
    requires j < |steps|
  {
    steps[j := Step(steps[j].values, steps[j].index, f)]
  }

  /** What a claim adds to the discrepancy for each unit of its factor. */
  ghost function Weight(c: Claim, step: Step, st: Setup, s: int, p: Prime): int
    requires ValidSetup(st, p) && c.index < st.width && c.index < |step.values|
  {
    ZComm(c.index, st, s, p) * (step.values[c.index] - c.leaf)
  }

  /** A claim has no weight exactly if it is true or its pairing exponent is zero. */
  lemma WeightZero(c: Claim, step: Step, st: Setup, s: int, p: Prime)
    requires ValidSetup(st, p) && c.index < st.width && c.index < |step.values|
    ensures Weight(c, step, st, s, p) % p == 0 <==>
      ZComm(c.index, st, s, p) % p == 0 || Cong(p, c.leaf, step.values[c.index])
  {
    var z, v := ZComm(c.index, st, s, p), step.values[c.index];
    hide ZComm, ValidSetup;
    ProductZero(p, z, v - c.leaf);
    CongDiff(p, v, c.leaf);
  }

  lemma LastWeight(claims: seq<Claim>, steps: seq<Step>, st: Setup, s: int, p: Prime)
    requires ValidSetup(st, p) && GoodClaims(claims, st) && GoodSteps(steps, st) && 0 < |claims| == |steps|
    requires forall k :: 0 <= k < |steps| ==> claims[k].index == steps[k].index
    ensures var last := |claims| - 1;
      Discrepancy(claims, steps, st, s, p)
        == Discrepancy(claims[..last], steps[..last], st, s, p) + claims[last].factor * Weight(claims[last], steps[last], st, s, p)
  {
    hide ZComm, ValidSetup;
  }

  lemma SameWeight(c: Claim, step: Step, f: nat, st: Setup, s: int, p: Prime)
    requires ValidSetup(st, p) && c.index < st.width && c.index < |step.values|
    ensures Weight(Claim(c.commitment, c.index, c.leaf, f), Step(step.values, step.index, f), st, s, p) == Weight(c, step, st, s, p)
    ensures Weight(Claim(c.commitment, c.index, c.leaf, 0), Step(step.values, step.index, 0), st, s, p) == Weight(c, step, st, s, p)
  {
    hide ZComm, ValidSetup;
  }

  /** The discrepancy is linear in every factor. */
  lemma {:induction false} FactorMoves(claims: seq<Claim>, steps: seq<Step>, j: nat, f: nat, st: Setup, s: int, p: Prime)
    requires ValidSetup(st, p) && GoodClaims(claims, st) && GoodSteps(steps, st) && j < |claims| == |steps|
    requires forall k :: 0 <= k < |steps| ==> claims[k].index == steps[k].index
    ensures Discrepancy(WithFactor(claims, j, f), StepsWithFactor(steps, j, f), st, s, p)
      == Discrepancy(WithFactor(claims, j, 0), StepsWithFactor(steps, j, 0), st, s, p) + f * Weight(claims[j], steps[j], st, s, p)
  {
    hide ZComm, ValidSetup, Weight, Discrepancy;
    var last := |claims| - 1;
    LastWeight(WithFactor(claims, j, f), StepsWithFactor(steps, j, f), st, s, p);
    LastWeight(WithFactor(claims, j, 0), StepsWithFactor(steps, j, 0), st, s, p);
    SameWeight(claims[last], steps[last], f, st, s, p);
    if j == last {
      assert WithFactor(claims, j, f)[..last] == WithFactor(claims, j, 0)[..last];
      assert StepsWithFactor(steps, j, f)[..last] == StepsWithFactor(steps, j, 0)[..last];
    } else {
      FactorMoves(claims[..last], steps[..last], j, f, st, s, p);
      assert WithFactor(claims, j, f)[..last] == WithFactor(claims[..last], j, f);
      assert WithFactor(claims, j, 0)[..last] == WithFactor(claims[..last], j, 0);
      assert StepsWithFactor(steps, j, f)[..last] == StepsWithFactor(steps[..last], j, f);
      assert StepsWithFactor(steps, j, 0)[..last] == StepsWithFactor(steps[..last], j, 0);
    }
  }

  ghost predicate Solves(p: Prime, w: int, d: int, f: int) {
    Cong(p, d + f * w, 0)
  }

  /** A linear equation with a nonzero coefficient has exactly one solution. */
  lemma OneSolution(p: Prime, w: int, d: int) returns (r: nat)
    requires w % p != 0
    ensures r < p && forall f: int :: Solves(p, w, d, f) <==> f % p == r
  {
    r := Mul(-d, Inverse(w, p), p);
    Solution(p, w, d, Inverse(w, p), r);
    forall f: int
      ensures Solves(p, w, d, f) <==> f % p == r
    {
      SolutionUnique(p, w, d, r, f);
    }
  }

  lemma Solution(p: Prime, w: int, d: int, i: int, r: int)
    requires Cong(p, w * i, 1) && r == Mul(-d, i, p)
    ensures Solves(p, w, d, r)
  {
    CongMod(p, -d * i);
    hide Cong;
    CongTimes(p, w, r, -d * i);
    CongTimes(p, -d, w * i, 1);
    FactorsExchange(w, -d, i);
    FactorsCommute(w, r);
    CongTrans(p, r * w, w * (-d * i), -d);
    CongAdd(p, d, d, r * w, -d);
  }

  lemma SolutionUnique(p: Prime, w: int, d: int, r: nat, f: int)
    requires w % p != 0 && r < p && Solves(p, w, d, r)
    ensures Solves(p, w, d, f) <==> f % p == r
  {
    Subtracted(p, d + f * w, d + r * w);
    assert (d + f * w) - (d + r * w) == (f - r) * w;
    ProductZero(p, f - r, w);
    CongDiff(p, f, r);
    SmallRemainder(r, p);
  }

  lemma Subtracted(p: Prime, a: int, b: int)
    requires Cong(p, b, 0)
    ensures Cong(p, a, 0) <==> (a - b) % p == 0
  {
    CongDiff(p, a, b);
  }

  /** Whatever the other claims are, a false claim whose pairing exponent is not zero passes
      with the honest opening for exactly one residue of its random factor. */
  lemma FalseClaimCaught(claims: seq<Claim>, steps: seq<Step>, qs: seq<seq<int>>, j: nat, st: Setup, s: int, p: Prime) returns (r: nat)
    requires ValidSetup(st, p) && GoodClaims(claims, st) && GoodSteps(steps, st)
    requires Quotients(qs, steps, st, p) && ClaimsAbout(claims, steps, st, s, p) && InField(claims, p)
    requires |qs| == |steps| && forall k :: 0 <= k < |qs| ==> |qs[k]| == st.width
    requires j < |claims| && !Cong(p, claims[j].leaf, steps[j].values[claims[j].index])
    requires ZComm(claims[j].index, st, s, p) % p != 0
    ensures r < p
    ensures forall f: nat, opening: int :: Cong(p, opening, WitnessOf(StepsWithFactor(steps, j, f), qs, st, s, p)) ==>
      (Outcome(WithFactor(claims, j, f), opening, st, s, p) == Some(true) <==> f % p == r)
  {
    hide Cong, ValidSetup, QuotientOf, Committed, Weight, Discrepancy, Outcome, WitnessOf, ZComm, Solves, InField;
    WeightZero(claims[j], steps[j], st, s, p);
    r := OneSolution(p, Weight(claims[j], steps[j], st, s, p),
                     Discrepancy(WithFactor(claims, j, 0), StepsWithFactor(steps, j, 0), st, s, p));
    forall f: nat, opening: int | Cong(p, opening, WitnessOf(StepsWithFactor(steps, j, f), qs, st, s, p))
      ensures Outcome(WithFactor(claims, j, f), opening, st, s, p) == Some(true) <==> f % p == r
    {
      OutcomeWithFactor(claims, steps, qs, j, f, opening, st, s, p);
    }
  }

  /** The verifier solves a linear equation for the factor. */
  lemma OutcomeWithFactor(claims: seq<Claim>, steps: seq<Step>, qs: seq<seq<int>>, j: nat, f: nat, opening: int, st: Setup, s: int, p: Prime)
    requires ValidSetup(st, p) && GoodClaims(claims, st) && GoodSteps(steps, st)
    requires Quotients(qs, steps, st, p) && ClaimsAbout(claims, steps, st, s, p) && InField(claims, p)
    requires |qs| == |steps| && forall k :: 0 <= k < |qs| ==> |qs[k]| == st.width
    requires j < |claims| && Cong(p, opening, WitnessOf(StepsWithFactor(steps, j, f), qs, st, s, p))
    ensures Outcome(WithFactor(claims, j, f), opening, st, s, p) == Some(Solves(p, Weight(claims[j], steps[j], st, s, p),
      Discrepancy(WithFactor(claims, j, 0), StepsWithFactor(steps, j, 0), st, s, p), f))
  {
    hide Cong, ValidSetup, QuotientOf, Committed, Weight, Discrepancy, Outcome, WitnessOf;
    FactorMoves(claims, steps, j, f, st, s, p);
    VerifierExact(WithFactor(claims, j, f), StepsWithFactor(steps, j, f), qs, opening, st, s, p);
  }

  lemma ProductZero(p: Prime, a: int, b: int)
    ensures (a * b) % p == 0 <==> a % p == 0 || b % p == 0
  {
    if a % p != 0 && b % p != 0 {
      NonzeroProduct(p, a, b);
    }
    NonzeroFactor(p, a, b);
    NonzeroFactor(p, b, a);
    assert a * b == b * a;
  }

  /** The exponent of the pairing of a claim is zero only if the secret is another domain point. */
  lemma PairingExponentZero(i: nat, st: Setup, s: int, p: Prime)
    requires ValidSetup(st, p) && i < st.width && ZComm(i, st, s, p) % p == 0
    ensures Cong(p, Pow(s, st.width), 1)
  {
    ZTimesDistance(i, st, s, p);
    var z, d := ZComm(i, st, s, p), s - st.powers[i];
    NonzeroFactor(p, d, z);
    assert d * z == z * d;
    CongDiff(p, Pow(s, st.width), 1);
  }
}
