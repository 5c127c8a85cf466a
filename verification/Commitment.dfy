/** Tables of a setup and quotients in evaluation form: setups/verkle_kzg_setup.py and
    verkle/commitment_scheme.py.  Group elements are represented by their exponents. */
module Commitment {
  import opened Field
  import opened Powers
  import opened Evaluation
  import opened Fourier
  import opened Polynomials
  import opened Interpolation

  datatype Setup = Setup(
    width: nat,
    root: int,
    powers: seq<int>,
    inverses: seq<seq<int>>,
    lagrangePolys: seq<seq<int>>)

  function Unit(i: nat, n: nat): (r: seq<int>)
    requires i < n
    ensures |r| == n && forall j :: 0 <= j < n ==> r[j] == if j == i then 1 else 0
  {
    seq(i, _ => 0) + [1] + seq(n - 1 - i, _ => 0)
  }

  /** The inverses of the distances from the point i, zero for the point itself. */
  ghost predicate InversesOf(row: seq<int>, powers: seq<int>, i: nat, p: Prime)
    requires i < |powers|
  {
    && |row| == |powers| && row[i] == 0
    && forall j :: 0 <= j < |row| && j != i ==> Cong(p, (powers[j] - powers[i]) * row[j], 1)
  }

  ghost predicate ValidSetup(st: Setup, p: Prime) {
    && RootOfUnity(st.root, st.width, p) && PowerOfTwo(st.width)
    && |st.powers| == |st.inverses| == |st.lagrangePolys| == st.width
    && (forall i :: 0 <= i < st.width ==> st.powers[i] == Exp(st.root, i, p))
    && (forall i :: 0 <= i < st.width ==> InversesOf(st.inverses[i], st.powers, i, p))
    && (forall i :: 0 <= i < st.width ==> st.lagrangePolys[i] == InverseTransform(Unit(i, st.width), st.root, p))
  }

  // ----- what the assertions of the source amount to

  /** Every number below a power of two has a multiple that is an odd multiple of the half. */
  lemma {:induction false} OddMultiple(m: nat, k: nat) returns (c: nat, b: nat)
    requires m >= 1 && 0 < k < Pow(2, m)
    ensures b % 2 == 1 && Pow(2, m - 1) * b == c * k
  {
    PowPositive(m - 1);
    if k % 2 == 1 {
      c, b := Pow(2, m - 1), k;
    } else {
      assert Pow(2, 1) == 2 * Pow(2, 0) == 2;
      c, b := OddMultiple(m - 1, k / 2);
      DoubleBoth(Pow(2, m - 2), b, c, k / 2);
    }
  }

  lemma DoubleBoth(x: int, b: int, c: int, h: int)
    requires x * b == c * h
    ensures (2 * x) * b == c * (2 * h)
  {
    assert (2 * x) * b == 2 * (x * b);
  }

  /** If the power at the width is one and the power at half the width is not, the
      order of the root is exactly the width. */
  lemma ExactOrder(w: int, n: nat, p: Prime)
    requires PowerOfTwo(n) && n >= 2 && 0 <= w < p
    requires Cong(p, Pow(w, n), 1) && !Cong(p, Pow(w, n / 2), 1)
    ensures RootOfUnity(w, n, p)
  {
    var m: nat :| n == Pow(2, m);
    forall k | 0 < k < n
      ensures !Cong(p, Pow(w, k), 1)
    {
      var c, b := OddMultiple(m, k);
      if Cong(p, Pow(w, k), 1) {
        MultiplePower(w, k, c, p);
        assert k * c == c * k == (n / 2) * b;
        OddPower(w, n, b, p);
      }
    }
  }

  lemma OddPower(w: int, n: nat, b: nat, p: Prime)
    requires n % 2 == 0 && b % 2 == 1 && Cong(p, Pow(w, n), 1) && Cong(p, Pow(w, (n / 2) * b), 1)
    ensures Cong(p, Pow(w, n / 2), 1)
  {
    var h := n / 2;
    assert h * b == n * (b / 2) + h by {
      assert b == 2 * (b / 2) + 1;
      assert n == 2 * h;
      assert h * b == h * (2 * (b / 2)) + h;
      assert h * (2 * (b / 2)) == (2 * h) * (b / 2);
    }
    MultiplePower(w, n, b / 2, p);
    PowAdd(w, n * (b / 2), h);
    CongMul(p, Pow(w, n * (b / 2)), 1, Pow(w, h), Pow(w, h));
  }

  lemma DistancesReady(powers: seq<int>, row: seq<int>, w: int, i: nat, p: Prime)
    requires RootOfUnity(w, |powers|, p) && |row| == |powers| && i < |powers|
    requires forall j :: 0 <= j < |powers| ==> powers[j] == Exp(w, j, p)
    requires forall j :: 0 <= j < |row| ==> row[j] == Sub(powers[j], powers[i], p)
    ensures NoHiddenZero(row, p) && row[i] == 0
    ensures forall j :: 0 <= j < |row| && j != i ==> row[j] != 0
  {
    forall j | 0 <= j < |row|
      ensures OrOne(row[j]) % p != 0 && (row[j] == 0 <==> j == i)
    {
      DistanceZero(powers, w, i, j, p);
      SmallRemainder(row[j], p);
      SmallRemainder(1, p);
    }
  }

  lemma DistanceZero(powers: seq<int>, w: int, i: nat, j: nat, p: Prime)
    requires RootOfUnity(w, |powers|, p) && i < |powers| && j < |powers|
    requires forall j :: 0 <= j < |powers| ==> powers[j] == Exp(w, j, p)
    ensures Sub(powers[j], powers[i], p) == 0 <==> j == i
    ensures Cong(p, powers[j], powers[i]) <==> j == i
  {
    CongDiff(p, powers[j], powers[i]);
    if i < j {
      PowersApart(w, |powers|, i, j, p);
    } else if j < i {
      PowersApart(w, |powers|, j, i, p);
    }
  }

  lemma RowCorrect(powers: seq<int>, distances: seq<int>, row: seq<int>, i: nat, p: Prime)
    requires i < |powers| == |distances| == |row| && row[i] == 0
    requires forall j :: 0 <= j < |powers| ==> distances[j] == Sub(powers[j], powers[i], p)
    requires forall j :: 0 <= j < |powers| && j != i ==> Cong(p, distances[j] * row[j], 1)
    ensures InversesOf(row, powers, i, p)
  {
    forall j | 0 <= j < |row| && j != i
      ensures Cong(p, (powers[j] - powers[i]) * row[j], 1)
    {
      CongMul(p, distances[j], powers[j] - powers[i], row[j], row[j]);
    }
  }

  /** The tables of the constructor, one comprehension after another. */
  method NewSetup(width: nat, root: int, p: Prime) returns (st: Setup)
    requires PowerOfTwo(width) && width >= 2 && 0 <= root < p
    requires Exp(root, width / 2, p) != 1 && Exp(root, width, p) == 1
    ensures ValidSetup(st, p) && st.width == width && st.root == root
  {
    hide Cong, Pow, RootOfUnity, InversesOf, PowerOfTwo, NoHiddenZero, InverseTransform, Unit;
    AssertionsHold(root, width, p);
    var powers := seq(width, i requires 0 <= i < width => Exp(root, i, p));
    var inverses: seq<seq<int>> := [];
    var lagrangePolys: seq<seq<int>> := [];
    for i := 0 to width
      invariant |inverses| == |lagrangePolys| == i
      invariant forall k :: 0 <= k < i ==> InversesOf(inverses[k], powers, k, p)
      invariant forall k :: 0 <= k < i ==> lagrangePolys[k] == InverseTransform(Unit(k, width), root, p)
    {
      var distances := seq(width, j requires 0 <= j < width => Sub(powers[j], powers[i], p));
      DistancesReady(powers, distances, root, i, p);
      var row := Polynomials.MultiInv(distances, p);
      RowCorrect(powers, distances, row, i, p);
      inverses := inverses + [row];
      var poly := FftInto(Unit(i, width), p, root, true, width);
      assert Padded(Unit(i, width), width) == Unit(i, width);
      lagrangePolys := lagrangePolys + [poly];
    }
    st := Setup(width, root, powers, inverses, lagrangePolys);
  }

  lemma AssertionsHold(root: int, width: nat, p: Prime)
    requires PowerOfTwo(width) && width >= 2 && 0 <= root < p
    requires Exp(root, width / 2, p) != 1 && Exp(root, width, p) == 1
    ensures RootOfUnity(root, width, p)
  {
    SmallRemainder(1, p);
    SmallRemainder(Exp(root, width / 2, p), p);
    ExactOrder(root, width, p);
  }

  // ----- the top coefficient

  lemma {:induction false} EvReplaced(v: seq<int>, i: nat, c: int, x: int)
    requires i < |v|
    ensures Ev(v[i := c], x) == Ev(v, x) + (c - v[i]) * Pow(x, i)
  {
    if i == 0 {
      assert v[0 := c][1..] == v[1..];
    } else {
      EvReplaced(v[1..], i - 1, c, x);
      assert v[i := c][1..] == v[1..][i - 1 := c];
      Distribute(x, Ev(v[1..], x), c - v[i], Pow(x, i - 1));
    }
  }

  /** The top coefficient of the recovered polynomial. */
  lemma TopCoefficient(v: seq<int>, w: int, p: Prime)
    requires v != [] && RootOfUnity(w, |v|, p) && PowerOfTwo(|v|)
    ensures 0 <= InverseTransform(v, w, p)[|v| - 1] < p
    ensures Cong(p, |v| * InverseTransform(v, w, p)[|v| - 1], Ev(v, w))
  {
    hide Transform, InverseTransform, Ev, RootOfUnity, PowerOfTwo, Cong, Exp;
    var n := |v|;
    TopTransform(v, w, p);
    PowerOfTwoInvertible(w, n, p);
    TopScaled(v, w, p);
    var t := Transform(v, Exp(w, n - 1, p), p)[n - 1];
    Rescale(p, n, t);
    CongTrans(p, n * InverseTransform(v, w, p)[n - 1], t, Ev(v, w));
  }

  lemma TopScaled(v: seq<int>, w: int, p: Prime)
    requires v != []
    ensures InverseTransform(v, w, p)[|v| - 1] == (Transform(v, Exp(w, |v| - 1, p), p)[|v| - 1] * Exp(|v|, p - 2, p)) % p
    ensures 0 <= InverseTransform(v, w, p)[|v| - 1] < p
  {
  }

  lemma TopTransform(v: seq<int>, w: int, p: Prime)
    requires RootOfUnity(w, |v|, p)
    ensures Cong(p, Transform(v, Exp(w, |v| - 1, p), p)[|v| - 1], Ev(v, w))
  {
    var n := |v|;
    var u := Exp(w, n - 1, p);
    InverseRoot(w, n, p);
    InversePower(w, u, n, n - 1, p);
    assert Pow(w, 1) == w * Pow(w, 0) == w;
    hide Transform, Ev, Pow, RootOfUnity, PowerOfTwo, Cong, Exp;
    EvCong(p, v, Pow(u, n - 1), w);
    CongTrans(p, Transform(v, u, p)[n - 1], Ev(v, Pow(u, n - 1)), Ev(v, w));
  }

  lemma Rescale(p: Prime, n: int, t: int)
    requires n % p != 0
    ensures Cong(p, n * ((t * Exp(n, p - 2, p)) % p), t)
  {
    hide Cong, Exp;
    var i := Exp(n, p - 2, p);
    ExpInverts(n, p);
    CongMod(p, t * i);
    CongTimes(p, n, (t * i) % p, t * i);
    CongTimes(p, t, n * i, 1);
    FactorsExchange(n, t, i);
    CongTrans(p, n * ((t * i) % p), t * (n * i), t);
  }

  lemma UnitValue(i: nat, n: nat, x: int)
    requires i < n
    ensures Ev(Unit(i, n), x) == Pow(x, i)
  {
    var zeros := seq(n, _ => 0);
    assert Unit(i, n) == zeros[i := 1];
    EvZeros(zeros, x);
    EvReplaced(zeros, i, 1, x);
  }

  /** The top coefficient of a basis polynomial is never zero. */
  lemma BasisTop(st: Setup, i: nat, p: Prime)
    requires ValidSetup(st, p) && i < st.width
    ensures var top := st.lagrangePolys[i][st.width - 1];
      top % p != 0 && Cong(p, st.width * top, Pow(st.root, i))
  {
    TopCoefficient(Unit(i, st.width), st.root, p);
    UnitValue(i, st.width, st.root);
    RootNonzero(st.root, st.width, i, p);
    NonzeroFactor(p, st.width, st.lagrangePolys[i][st.width - 1]);
  }

  lemma NonzeroFactor(p: Prime, n: int, top: int)
    ensures top % p == 0 ==> (n * top) % p == 0
  {
    if top % p == 0 {
      assert Cong(p, top, 0);
      CongTimes(p, n, top, 0);
      assert n * 0 == 0;
    }
  }

  // ----- the quotient

  /** q holds the values of the quotient of the polynomial by its distance from point i. */
  ghost predicate QuotientOf(q: seq<int>, values: seq<int>, i: nat, st: Setup, p: Prime)
    requires |st.powers| == |values| && i < |values|
  {
    && |q| == |values|
    && (forall j :: 0 <= j < |q| ==> Cong(p, (st.powers[j] - st.powers[i]) * q[j], values[j] - values[i]))
    && Cong(p, Ev(q, st.root), 0)
  }

  lemma QuotientAway(p: Prime, d: int, inverse: int, v: int, q: int)
    requires Cong(p, d * inverse, 1) && q == Mul(Sub(v, 0, p), inverse, p)
    ensures Cong(p, d * q, v)
  {
    var s := Sub(v, 0, p);
    QuotientTimes(s, d, inverse, p);
    assert q * d == d * q;
  }

  /** The last value is chosen so that the top coefficient vanishes. */
  lemma TopVanishes(p: Prime, n: int, e: int, total: int, top: int, lag: int, basis: int, x: int)
    requires Cong(p, total, e) && Cong(p, top * n, total) && Cong(p, lag * basis, top) && Cong(p, n * basis, x)
    ensures Cong(p, e + (p - lag) * x, 0)
  {
    hide Cong;
    CongTimes(p, lag, n * basis, x);
    CongTimes(p, n, lag * basis, top);
    assert n * (lag * basis) == lag * (n * basis) && n * top == top * n;
    CongSymmetric(p, lag * (n * basis), lag * x);
    CongTrans(p, lag * x, lag * (n * basis), top * n);
    CongTrans(p, lag * x, top * n, total);
    CongTrans(p, lag * x, total, e);
    CongDiff(p, lag * x, e);
    CongTimes(p, -1, lag * x - e, 0);
    assert -1 * (lag * x - e) == e - lag * x && -1 * 0 == 0;
    CongIntro(p, (p - lag) * x, -(lag * x), x);
    assert (p - lag) * x == p * x - lag * x;
    CongEqual(p, e, e);
    CongAdd(p, e, e, (p - lag) * x, -(lag * x));
    CongTrans(p, e + (p - lag) * x, e - lag * x, 0);
  }

  /** The sum of the products with the powers of the root. */
  method WeightedSum(values: seq<int>, st: Setup, p: Prime) returns (total: int)
    requires ValidSetup(st, p) && |values| == st.width
    ensures Cong(p, total, Ev(values, st.root))
  {
    hide Cong, Ev, Pow, RootOfUnity, PowerOfTwo;
    total := 0;
    EvalStart(p, values, st.root);
    for j := 0 to |values|
      invariant Cong(p, total, Ev(values[..j], st.root))
    {
      EvPrefix(values, j, st.root);
      CongMod(p, values[j] * st.powers[j]);
      CongTimes(p, values[j], st.powers[j], Pow(st.root, j));
      CongTrans(p, Mul(values[j], st.powers[j], p), values[j] * st.powers[j], values[j] * Pow(st.root, j));
      CongAdd(p, total, Ev(values[..j], st.root), Mul(values[j], st.powers[j], p), values[j] * Pow(st.root, j));
      total := total + Mul(values[j], st.powers[j], p);
    }
    assert values[..|values|] == values;
  }

  method GenerateQuotient(values: seq<int>, index: nat, st: Setup, p: Prime) returns (q: seq<int>)
    requires ValidSetup(st, p) && |values| == st.width && index < st.width
    ensures QuotientOf(q, values, index, st, p)
    ensures forall j :: 0 <= j < |q| ==> 0 <= q[j] <= p
  {
    hide Cong, Ev, Pow, RootOfUnity, PowerOfTwo, InverseTransform;
    var n := st.width;
    var P := seq(n, j requires 0 <= j < n => Sub(values[j], values[index], p));
    P := P[index := 0];
    var invQ := st.inverses[index];
    var pOverQ := seq(n, j requires 0 <= j < n => Mul(P[j], invQ[j], p));
    ZeroSticks(p, invQ[index]);
    var total := WeightedSum(pOverQ, st, p);
    var topCoeff := Div(total, n, p);
    WidthInvertible(st, p);
    BasisTop(st, index, p);
    var top := st.lagrangePolys[index][n - 1];
    var lagrangeCoefficient := Div(topCoeff, top, p);
    q := pOverQ[index := p - lagrangeCoefficient];
    EvReplaced(pOverQ, index, p - lagrangeCoefficient, st.root);
    TopVanishes(p, n, Ev(pOverQ, st.root), total, topCoeff, lagrangeCoefficient, top, Pow(st.root, index));
    forall j | 0 <= j < n
      ensures Cong(p, (st.powers[j] - st.powers[index]) * q[j], values[j] - values[index])
    {
      if j == index {
        CongEqual(p, (st.powers[j] - st.powers[index]) * q[j], 0);
      } else {
        SubAgain(p, values[j], values[index]);
        QuotientAway(p, st.powers[j] - st.powers[index], invQ[j], values[j] - values[index], q[j]);
      }
    }
  }

  lemma SubAgain(p: Prime, x: int, y: int)
    ensures Sub(x, y, p) == Sub(x - y, 0, p)
  {
  }

  lemma WidthInvertible(st: Setup, p: Prime)
    requires ValidSetup(st, p)
    ensures st.width % p != 0
  {
    PowerOfTwoInvertible(st.root, st.width, p);
  }

  /** The recovered quotient has no top coefficient. */
  lemma QuotientTop(q: seq<int>, values: seq<int>, i: nat, st: Setup, p: Prime)
    requires ValidSetup(st, p) && |values| == st.width && i < st.width && QuotientOf(q, values, i, st, p)
    ensures InverseTransform(q, st.root, p)[st.width - 1] == 0
  {
    TopCoefficient(q, st.root, p);
    WidthInvertible(st, p);
    var c := InverseTransform(q, st.root, p)[st.width - 1];
    CongTrans(p, st.width * c, Ev(q, st.root), 0);
    Cancel(p, st.width, c);
    SmallRemainder(c, p);
  }

  // ----- polynomials that agree on the domain

  lemma DomainDistinct(st: Setup, p: Prime)
    requires ValidSetup(st, p)
    ensures Distinct(st.powers, p)
  {
    forall i, j | 0 <= i < j < st.width
      ensures !Cong(p, st.powers[i], st.powers[j])
    {
      DistanceZero(st.powers, st.root, j, i, p);
    }
  }

  /** Coefficients are determined by the values on the domain. */
  lemma SameOnDomain(a: seq<int>, b: seq<int>, st: Setup, p: Prime)
    requires ValidSetup(st, p) && |a| == |b| == st.width
    requires forall j :: 0 <= j < st.width ==> Cong(p, Ev(a, st.powers[j]), Ev(b, st.powers[j]))
    ensures forall k :: 0 <= k < st.width ==> Cong(p, a[k], b[k])
  {
    var d := Plus(a, b, -1);
    forall j | 0 <= j < st.width
      ensures Cong(p, Ev(d, st.powers[j]), 0)
    {
      DifferenceValue(a, b, st.powers[j], p);
    }
    DomainDistinct(st, p);
    hide Ev, Distinct, ValidSetup, Plus;
    TooManyRoots(d, st.powers, p);
    forall k | 0 <= k < st.width
      ensures Cong(p, a[k], b[k])
    {
      DifferenceCong(a, b, k, p);
    }
  }

  lemma DifferenceCong(a: seq<int>, b: seq<int>, k: nat, p: Prime)
    requires |a| == |b| && k < |a| && ZeroModulo(Plus(a, b, -1), p)
    ensures Cong(p, a[k], b[k])
  {
    var d := Plus(a, b, -1);
    assert Cong(p, d[k], 0) && d[k] == a[k] + -1 * b[k] == a[k] - b[k];
    CongDiff(p, a[k], b[k]);
  }

  lemma RecoveredValue(v: seq<int>, st: Setup, j: nat, p: Prime)
    requires ValidSetup(st, p) && |v| == st.width && j < st.width
    ensures Cong(p, Ev(InverseTransform(v, st.root, p), st.powers[j]), v[j])
  {
    InverseInterpolates(v, st.root, p);
    var c := InverseTransform(v, st.root, p);
    assert Cong(p, v[j], Ev(c, Pow(st.root, j)));
    EvCong(p, c, st.powers[j], Pow(st.root, j));
    CongTrans(p, Ev(c, st.powers[j]), Ev(c, Pow(st.root, j)), v[j]);
  }

  /** The committed polynomial as quotient times distance plus value. */
  ghost function Rebuilt(Q: seq<int>, x: int, v: int): (r: seq<int>)
    requires Q != []
    ensures |r| == |Q|
  {
    var t := TimesLinear(Q[..|Q| - 1], x);
    t[0 := t[0] + v]
  }

  lemma RebuiltValue(Q: seq<int>, x: int, v: int, y: int)
    requires Q != [] && Q[|Q| - 1] == 0
    ensures Ev(Rebuilt(Q, x, v), y) == (y - x) * Ev(Q, y) + v
  {
    var front := Q[..|Q| - 1];
    var t := TimesLinear(front, x);
    EvTimesLinear(front, x, y);
    EvReplaced(t, 0, t[0] + v, y);
    EvPrefix(Q, |Q| - 1, y);
    assert Q[..|Q| - 1 + 1] == Q && 0 * Pow(y, |Q| - 1) == 0;
    assert v * Pow(y, 0) == v;
  }

  /** (X - w^i) Q(X) + v_i is the committed polynomial, coefficient by coefficient. */
  lemma QuotientIdentity(q: seq<int>, values: seq<int>, i: nat, st: Setup, p: Prime)
    requires ValidSetup(st, p) && |values| == st.width && i < st.width && QuotientOf(q, values, i, st, p)
    ensures var c, Q := InverseTransform(values, st.root, p), InverseTransform(q, st.root, p);
      && Q[st.width - 1] == 0
      && forall k :: 0 <= k < st.width ==> Cong(p, c[k], Rebuilt(Q, st.powers[i], values[i])[k])
  {
    var c, Q := InverseTransform(values, st.root, p), InverseTransform(q, st.root, p);
    QuotientTop(q, values, i, st, p);
    var r := Rebuilt(Q, st.powers[i], values[i]);
    forall j | 0 <= j < st.width
      ensures Cong(p, Ev(c, st.powers[j]), Ev(r, st.powers[j]))
    {
      RebuiltAtDomain(q, values, i, j, st, p);
    }
    SameOnDomain(c, r, st, p);
  }

  lemma RebuiltAtDomain(q: seq<int>, values: seq<int>, i: nat, j: nat, st: Setup, p: Prime)
    requires ValidSetup(st, p) && |values| == st.width && i < st.width && j < st.width && QuotientOf(q, values, i, st, p)
    requires InverseTransform(q, st.root, p)[st.width - 1] == 0
    ensures Cong(p, Ev(InverseTransform(values, st.root, p), st.powers[j]),
                 Ev(Rebuilt(InverseTransform(q, st.root, p), st.powers[i], values[i]), st.powers[j]))
  {
    hide Cong, Ev, Rebuilt, InverseTransform, RootOfUnity, PowerOfTwo;
    var x, y := st.powers[i], st.powers[j];
    var Q := InverseTransform(q, st.root, p);
    RecoveredValue(values, st, j, p);
    RecoveredValue(q, st, j, p);
    RebuiltValue(Q, x, values[i], y);
    CongTimes(p, y - x, Ev(Q, y), q[j]);
    CongTrans(p, (y - x) * Ev(Q, y), (y - x) * q[j], values[j] - values[i]);
    CongEqual(p, values[i], values[i]);
    CongAdd(p, (y - x) * Ev(Q, y), values[j] - values[i], values[i], values[i]);
    CongSymmetric(p, (y - x) * Ev(Q, y) + values[i], values[j]);
    CongTrans(p, Ev(InverseTransform(values, st.root, p), y), values[j], (y - x) * Ev(Q, y) + values[i]);
  }

  /** The same identity at any point. */
  lemma QuotientAnywhere(q: seq<int>, values: seq<int>, i: nat, st: Setup, s: int, p: Prime)
    requires ValidSetup(st, p) && |values| == st.width && i < st.width && QuotientOf(q, values, i, st, p)
    ensures Cong(p, Ev(InverseTransform(values, st.root, p), s),
                 (s - st.powers[i]) * Ev(InverseTransform(q, st.root, p), s) + values[i])
  {
    hide Cong, Ev, Rebuilt, InverseTransform, RootOfUnity, PowerOfTwo;
    var c, Q := InverseTransform(values, st.root, p), InverseTransform(q, st.root, p);
    QuotientIdentity(q, values, i, st, p);
    EvCoefficients(p, c, Rebuilt(Q, st.powers[i], values[i]), s);
    RebuiltValue(Q, st.powers[i], values[i], s);
  }
}
