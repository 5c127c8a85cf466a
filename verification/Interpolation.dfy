/** zpoly and lagrange_interp: verkle/utils/poly_utils.py. */
module Interpolation {
  import opened Field
  import opened Powers
  import opened Evaluation
  import opened Polynomials

  // ----- polynomials that vanish at given points

  /** r times (X - x). */
  ghost function TimesLinear(r: seq<int>, x: int): (t: seq<int>)
    ensures |t| == |r| + 1
    ensures forall k :: 0 <= k < |t| ==> t[k] == Coef(r, k - 1) - x * Coef(r, k)
  {
    seq(|r| + 1, k requires 0 <= k <= |r| => Coef(r, k - 1) - x * Coef(r, k))
  }

  /** The product of X - x over a list of points. */
  ghost function Vanishing(xs: seq<int>): (r: seq<int>)
    ensures |r| == |xs| + 1
  {
    if xs == [] then [1] else TimesLinear(Vanishing(xs[..|xs| - 1]), xs[|xs| - 1])
  }

  lemma CoefTimesLinear(r: seq<int>, x: int, k: int)
    ensures Coef(TimesLinear(r, x), k) == Coef(r, k - 1) - x * Coef(r, k)
  {
    assert x * 0 == 0;
  }

  lemma EvShifted(r: seq<int>, y: int)
    ensures Ev([0] + r, y) == y * Ev(r, y) && Ev(r + [0], y) == Ev(r, y)
  {
    assert ([0] + r)[1..] == r;
    EvSnoc(r, 0, y);
    assert 0 * Pow(y, |r|) == 0;
  }

  lemma EvTimesLinear(r: seq<int>, x: int, y: int)
    ensures Ev(TimesLinear(r, x), y) == (y - x) * Ev(r, y)
  {
    hide Ev;
    var up, down := [0] + r, r + [0];
    forall k | 0 <= k <= |r|
      ensures TimesLinear(r, x)[k] == Plus(up, down, -x)[k]
    {
      assert -x * Coef(r, k) == -(x * Coef(r, k));
    }
    assert TimesLinear(r, x) == Plus(up, down, -x);
    EvPlus(up, down, -x, y);
    EvShifted(r, y);
    assert (y - x) * Ev(r, y) == y * Ev(r, y) + -x * Ev(r, y);
  }

  lemma TimesLinearCommutes(r: seq<int>, x: int, y: int)
    ensures TimesLinear(TimesLinear(r, x), y) == TimesLinear(TimesLinear(r, y), x)
  {
    var s, t := TimesLinear(r, x), TimesLinear(r, y);
    var u, v := TimesLinear(s, y), TimesLinear(t, x);
    hide TimesLinear;
    forall k | 0 <= k < |u|
      ensures u[k] == v[k]
    {
      CommutesAt(r, x, y, k);
      assert u[k] == Coef(u, k) && v[k] == Coef(v, k);
    }
  }

  lemma CommutesAt(r: seq<int>, x: int, y: int, k: int)
    ensures Coef(TimesLinear(TimesLinear(r, x), y), k) == Coef(TimesLinear(TimesLinear(r, y), x), k)
  {
    hide *;
    CoefTwice(r, x, y, k);
    CoefTwice(r, y, x, k);
    CrossTerms(Coef(r, k - 2), Coef(r, k - 1), Coef(r, k), x, y);
  }

  lemma CoefTwice(r: seq<int>, x: int, y: int, k: int)
    ensures Coef(TimesLinear(TimesLinear(r, x), y), k)
      == (Coef(r, k - 2) - x * Coef(r, k - 1)) - y * (Coef(r, k - 1) - x * Coef(r, k))
  {
    hide Coef, TimesLinear;
    CoefTimesLinear(TimesLinear(r, x), y, k);
    CoefTimesLinear(r, x, k - 1);
    CoefTimesLinear(r, x, k);
  }

  lemma CrossTerms(a: int, b: int, c: int, x: int, y: int)
    ensures (a - x * b) - y * (b - x * c) == (a - y * b) - x * (b - y * c)
  {
  }

  /** All points but one. */
  ghost function Without(xs: seq<int>, i: nat): (r: seq<int>)
    requires i < |xs|
    ensures |r| == |xs| - 1
    ensures forall j :: 0 <= j < |r| ==> r[j] == if j < i then xs[j] else xs[j + 1]
  {
    xs[..i] + xs[i + 1..]
  }

  /** Any point may be taken out as the last factor. */
  lemma {:induction false} VanishingWithout(xs: seq<int>, i: nat)
    requires i < |xs|
    ensures Vanishing(xs) == TimesLinear(Vanishing(Without(xs, i)), xs[i])
  {
    var last := |xs| - 1;
    if i == last {
      assert Without(xs, i) == xs[..last];
    } else {
      var front := xs[..last];
      VanishingWithout(front, i);
      assert Without(xs, i) == Without(front, i) + [xs[last]];
      assert Without(xs, i)[..last - 1] == Without(front, i);
      TimesLinearCommutes(Vanishing(Without(front, i)), xs[i], xs[last]);
    }
  }

  lemma {:induction false} VanishingAt(xs: seq<int>, y: int)
    ensures y in xs ==> Ev(Vanishing(xs), y) == 0
  {
    hide *;
    if xs != [] {
      var last := |xs| - 1;
      VanishingAt(xs[..last], y);
      VanishingMore(xs, y);
      assert xs == xs[..last] + [xs[last]];
      ZeroFactor(y - xs[last], Ev(Vanishing(xs[..last]), y));
    }
  }

  lemma VanishingMore(xs: seq<int>, y: int)
    requires xs != []
    ensures Ev(Vanishing(xs), y) == (y - xs[|xs| - 1]) * Ev(Vanishing(xs[..|xs| - 1]), y)
  {
    hide Ev;
    EvTimesLinear(Vanishing(xs[..|xs| - 1]), xs[|xs| - 1], y);
  }

  lemma ZeroFactor(a: int, b: int)
    ensures a == 0 || b == 0 ==> a * b == 0
  {
  }

  lemma {:induction false} VanishingElsewhere(xs: seq<int>, y: int, p: Prime)
    requires forall i :: 0 <= i < |xs| ==> !Cong(p, xs[i], y)
    ensures Ev(Vanishing(xs), y) % p != 0
  {
    if xs == [] {
      assert Ev([1], y) == 1 + y * Ev([], y);
      SmallRemainder(1, p);
    } else {
      var last := |xs| - 1;
      VanishingElsewhere(xs[..last], y, p);
      EvTimesLinear(Vanishing(xs[..last]), xs[last], y);
      CongDiff(p, y, xs[last]);
      NonzeroProduct(p, y - xs[last], Ev(Vanishing(xs[..last]), y));
    }
  }

  lemma VanishingCong(xs: seq<int>, k: nat, y: int, p: Prime)
    requires k < |xs| && Cong(p, xs[k], y)
    ensures Cong(p, Ev(Vanishing(xs), y), 0)
  {
    hide *;
    VanishingWithout(xs, k);
    EvTimesLinear(Vanishing(Without(xs, k)), xs[k], y);
    ZeroDistance(p, y, xs[k], Ev(Vanishing(Without(xs, k)), y));
  }

  /** A product with a distance that is zero modulo p. */
  lemma ZeroDistance(p: Prime, y: int, x: int, rest: int)
    requires Cong(p, x, y)
    ensures Cong(p, (y - x) * rest, 0)
  {
    hide *;
    CongSymmetric(p, x, y);
    CongDiff(p, y, x);
    CongTimes(p, rest, y - x, 0);
    SwapFactors(rest, y - x);
  }

  lemma SwapFactors(a: int, b: int)
    ensures a * b == b * a && a * 0 == 0
  {
  }

  method ZPoly(xs: seq<int>, p: Prime) returns (r: seq<int>)
    ensures |r| == |xs| + 1
    ensures forall k :: 0 <= k < |r| ==> r[k] == Vanishing(xs)[k] % p
  {
    var root := [1];
    for i := 0 to |xs|
      invariant root == Vanishing(xs[..i])
    {
      assert xs[..i + 1][..i] == xs[..i];
      root := MultiplyByLinear(root, xs[i]);
    }
    assert xs[..|xs|] == xs;
    r := seq(|root|, k requires 0 <= k < |root| => root[k] % p);
  }

  /** The inner loop: a zero is put in front, then every coefficient takes its share of the next. */
  method MultiplyByLinear(before: seq<int>, x: int) returns (root: seq<int>)
    ensures root == TimesLinear(before, x)
  {
    root := [0] + before;
    for j := 0 to |root| - 1
      invariant |root| == |before| + 1
      invariant forall k :: j <= k < |root| ==> root[k] == Coef(before, k - 1)
      invariant forall k :: 0 <= k < j ==> root[k] == TimesLinear(before, x)[k]
    {
      hide TimesLinear;
      LinearAt(before, x, j, root[j], root[j + 1]);
      root := root[j := root[j] - root[j + 1] * x];
    }
    assert x * Coef(before, |before|) == 0;
  }

  lemma LinearAt(r: seq<int>, x: int, k: nat, here: int, next: int)
    requires k < |r| + 1 && here == Coef(r, k - 1) && next == Coef(r, k)
    ensures TimesLinear(r, x)[k] == here - next * x
  {
    assert next * x == x * next;
  }

  // ----- exact division by a linear factor

  lemma ConvLinear(x: int, o: seq<int>, k: int)
    ensures Conv([-x, 1], o, k) == Coef(o, k - 1) - x * Coef(o, k)
  {
    ConvCons([-x, 1], o, k);
    assert [-x, 1][1..] == [1];
    ConvCons([1], o, k - 1);
    assert [1][1..] == [];
    ConvNone(o, k - 2);
  }

  /** A quotient by X - x is the exact one. */
  lemma {:induction false} QuotientUnique(root: seq<int>, o: seq<int>, rem: seq<int>, z: seq<int>, x: int, k: nat, p: Prime)
    requires |root| == |o| + 1 == |z| + 1 && k < |z|
    requires Decomposed(root, [-x, 1], o, rem, 0)
    requires forall j :: 1 <= j < |root| ==> Cong(p, rem[j], 0)
    requires forall j :: 0 <= j < |root| ==> Cong(p, root[j], TimesLinear(z, x)[j])
    ensures Cong(p, o[k], z[k])
    decreases |z| - k
  {
    hide Cong;
    ConvLinear(x, o, k + 1);
    var next, next' := Coef(o, k + 1), Coef(z, k + 1);
    if k + 1 < |z| {
      QuotientUnique(root, o, rem, z, x, k + 1, p);
    } else {
      CongEqual(p, next, next');
    }
    assert root[k + 1] == rem[k + 1] + Conv([-x, 1], o, k + 1);
    QuotientStep(p, root[k + 1], rem[k + 1], o[k], z[k], x, next, next');
  }

  lemma QuotientStep(p: Prime, root: int, rem: int, o: int, z: int, x: int, next: int, next': int)
    requires root == rem + (o - x * next) && Cong(p, rem, 0) && Cong(p, root, z - x * next') && Cong(p, next, next')
    ensures Cong(p, o, z)
  {
    hide Cong;
    CongTimes(p, x, next, next');
    CongSub(p, root, z - x * next', rem, 0);
    CongAdd(p, root - rem, z - x * next', x * next, x * next');
  }

  // ----- interpolation

  ghost predicate Distinct(xs: seq<int>, p: Prime) {
    forall i, j :: 0 <= i < j < |xs| ==> !Cong(p, xs[i], xs[j])
  }

  /** No other point is the same field element. */
  ghost predicate Alone(xs: seq<int>, i: nat, p: Prime)
    requires i < |xs|
  {
    forall j :: 0 <= j < |xs| && j != i ==> !Cong(p, xs[j], xs[i])
  }

  /** The numerator for point i and its values at all points. */
  lemma Numerator(xs: seq<int>, root: seq<int>, num: seq<int>, rem: seq<int>, i: nat, p: Prime)
    requires i < |xs| && |root| == |xs| + 1 && |num| == |xs|
    requires forall k :: 0 <= k < |root| ==> root[k] == Vanishing(xs)[k] % p
    requires Decomposed(root, [-xs[i], 1], num, rem, 0)
    requires forall k :: 1 <= k < |root| ==> Cong(p, rem[k], 0)
    ensures Ev(num, xs[i]) % p != 0 <==> Alone(xs, i, p)
    ensures forall j :: 0 <= j < |xs| && j != i ==> Cong(p, Ev(num, xs[j]), 0)
  {
    hide Ev, Vanishing, Cong, Decomposed, TimesLinear, Alone;
    var z := Vanishing(Without(xs, i));
    NumeratorIs(xs, root, num, rem, i, p);
    EvCoefficients(p, num, z, xs[i]);
    OwnDenominator(xs, i, p);
    SameRemainder(p, Ev(num, xs[i]), Ev(z, xs[i]));
    forall j | 0 <= j < |xs| && j != i
      ensures Cong(p, Ev(num, xs[j]), 0)
    {
      assert Without(xs, i)[if j < i then j else j - 1] == xs[j];
      VanishingAt(Without(xs, i), xs[j]);
      EvCoefficients(p, num, z, xs[j]);
    }
  }

  /** The numerator for point i has the coefficients of the product over all other points. */
  lemma NumeratorIs(xs: seq<int>, root: seq<int>, num: seq<int>, rem: seq<int>, i: nat, p: Prime)
    requires i < |xs| && |root| == |xs| + 1 && |num| == |xs|
    requires forall k :: 0 <= k < |root| ==> root[k] == Vanishing(xs)[k] % p
    requires Decomposed(root, [-xs[i], 1], num, rem, 0)
    requires forall k :: 1 <= k < |root| ==> Cong(p, rem[k], 0)
    ensures forall k :: 0 <= k < |num| ==> Cong(p, num[k], Vanishing(Without(xs, i))[k])
  {
    hide *;
    var z := Vanishing(Without(xs, i));
    VanishingWithout(xs, i);
    forall k | 0 <= k < |root|
      ensures Cong(p, root[k], TimesLinear(z, xs[i])[k])
    {
      CongMod(p, Vanishing(xs)[k]);
    }
    forall k | 0 <= k < |num|
      ensures Cong(p, num[k], z[k])
    {
      QuotientUnique(root, num, rem, z, xs[i], k, p);
    }
  }

  lemma SameRemainder(p: Prime, a: int, b: int)
    requires Cong(p, a, b)
    ensures a % p == b % p
  {
  }

  /** The product of the distances to all other points is zero only if there is one of them. */
  lemma OwnDenominator(xs: seq<int>, i: nat, p: Prime)
    requires i < |xs|
    ensures Ev(Vanishing(Without(xs, i)), xs[i]) % p != 0 <==> Alone(xs, i, p)
  {
    hide Ev, Vanishing, Cong;
    var others := Without(xs, i);
    if Alone(xs, i, p) {
      VanishingElsewhere(others, xs[i], p);
    } else {
      var j :| 0 <= j < |xs| && j != i && Cong(p, xs[j], xs[i]);
      VanishingCong(others, if j < i then j else j - 1, xs[i], p);
      NotZero(p, Ev(Vanishing(others), xs[i]));
    }
  }

  lemma NotZero(p: Prime, e: int)
    requires Cong(p, e, 0)
    ensures e % p == 0
  {
    SmallRemainder(0, p);
  }

  /** The value of the result at a point: the given one, or zero if the point is repeated. */
  ghost function Interpolated(xs: seq<int>, ys: seq<int>, i: nat, p: Prime): int
    requires i < |xs| == |ys|
  {
    if Alone(xs, i, p) then ys[i] else 0
  }

  /** What the loop over the points has reached after i of them. */
  ghost predicate ValuesUpTo(b: seq<int>, xs: seq<int>, ys: seq<int>, i: nat, p: Prime)
    requires |xs| == |ys|
  {
    forall j :: 0 <= j < |xs| ==> Cong(p, Ev(b, xs[j]), if j < i then Interpolated(xs, ys, j, p) else 0)
  }

  lemma ValuesStep(b: seq<int>, b': seq<int>, num: seq<int>, scale: int, xs: seq<int>, ys: seq<int>, i: nat, inverse: int, p: Prime)
    requires |xs| == |ys| && i < |xs| && ValuesUpTo(b, xs, ys, i, p)
    requires |b| == |num| && b' == Plus(b, num, scale)
    requires if Alone(xs, i, p) then Cong(p, Ev(num, xs[i]) * inverse, 1) else inverse == 0
    requires scale == Mul(ys[i], inverse, p)
    requires forall j :: 0 <= j < |xs| && j != i ==> Cong(p, Ev(num, xs[j]), 0)
    ensures ValuesUpTo(b', xs, ys, i + 1, p)
  {
    hide Cong, Ev, Plus, Interpolated;
    forall j | 0 <= j < |xs|
      ensures Cong(p, Ev(b', xs[j]), if j < i + 1 then Interpolated(xs, ys, j, p) else 0)
    {
      assert Cong(p, Ev(b, xs[j]), if j < i then Interpolated(xs, ys, j, p) else 0);
      if j != i {
        OtherTerm(b, num, scale, xs[j], if j < i then Interpolated(xs, ys, j, p) else 0, p);
      } else {
        InterpolatedIs(xs, ys, j, p);
        if Alone(xs, i, p) {
          OwnTerm(b, num, scale, xs[j], ys[j], inverse, p);
        } else {
          ZeroSticks(p, ys[i]);
          NoTerm(b, num, xs[j]);
        }
      }
    }
  }

  lemma InterpolatedIs(xs: seq<int>, ys: seq<int>, i: nat, p: Prime)
    requires i < |xs| == |ys|
    ensures Interpolated(xs, ys, i, p) == if Alone(xs, i, p) then ys[i] else 0
  {
  }

  lemma NoTerm(b: seq<int>, num: seq<int>, x: int)
    requires |b| == |num|
    ensures Ev(Plus(b, num, 0), x) == Ev(b, x)
  {
    EvPlus(b, num, 0, x);
    assert 0 * Ev(num, x) == 0;
  }

  lemma OwnTerm(b: seq<int>, num: seq<int>, scale: int, x: int, y: int, inverse: int, p: Prime)
    requires |b| == |num| && Cong(p, Ev(b, x), 0)
    requires Cong(p, Ev(num, x) * inverse, 1) && scale == Mul(y, inverse, p)
    ensures Cong(p, Ev(Plus(b, num, scale), x), y)
  {
    hide *;
    EvPlus(b, num, scale, x);
    ScaledToValue(p, scale, y, inverse, Ev(num, x));
    CongAdd(p, Ev(b, x), 0, scale * Ev(num, x), y);
  }

  lemma OtherTerm(b: seq<int>, num: seq<int>, scale: int, x: int, v: int, p: Prime)
    requires |b| == |num| && Cong(p, Ev(b, x), v) && Cong(p, Ev(num, x), 0)
    ensures Cong(p, Ev(Plus(b, num, scale), x), v)
  {
    hide *;
    EvPlus(b, num, scale, x);
    AddZero(p, Ev(b, x), v, scale, Ev(num, x));
  }

  lemma AddZero(p: Prime, e: int, v: int, scale: int, zero: int)
    requires Cong(p, e, v) && Cong(p, zero, 0)
    ensures Cong(p, e + scale * zero, v)
  {
    hide Cong;
    CongTimes(p, scale, zero, 0);
    assert scale * 0 == 0;
    CongAdd(p, e, v, scale * zero, 0);
  }

  lemma ScaledToValue(p: Prime, scale: int, y: int, inverse: int, d: int)
    requires Cong(p, d * inverse, 1) && scale == Mul(y, inverse, p)
    ensures Cong(p, scale * d, y)
  {
    QuotientTimes(y, d, inverse, p);
  }

  /** A repeated point has the inverse zero. */
  ghost predicate PreparedAt(xs: seq<int>, num: seq<int>, inverse: int, i: nat, p: Prime)
    requires i < |xs|
  {
    if Alone(xs, i, p) then Cong(p, Ev(num, xs[i]) * inverse, 1) else inverse == 0
  }

  /** The numerators and the inverses of their values at their own points. */
  ghost predicate Prepared(xs: seq<int>, nums: seq<seq<int>>, invdenoms: seq<int>, p: Prime) {
    && |nums| == |invdenoms| == |xs|
    && (forall i :: 0 <= i < |xs| ==> |nums[i]| == |xs| && PreparedAt(xs, nums[i], invdenoms[i], i, p))
    && (forall i, j :: 0 <= i < |xs| && 0 <= j < |xs| && j != i ==> Cong(p, Ev(nums[i], xs[j]), 0))
  }

  method Prepare(xs: seq<int>, root: seq<int>, p: Prime) returns (nums: seq<seq<int>>, invdenoms: seq<int>)
    requires |root| == |xs| + 1
    requires forall k :: 0 <= k < |root| ==> root[k] == Vanishing(xs)[k] % p
    ensures Prepared(xs, nums, invdenoms, p)
  {
    hide Cong, Ev, Alone, Vanishing;
    nums := [];
    SmallRemainder(1, p);
    for i := 0 to |xs|
      invariant |nums| == i
      invariant forall k :: 0 <= k < i ==> |nums[k]| == |xs| && (Ev(nums[k], xs[k]) % p != 0 <==> Alone(xs, k, p))
      invariant forall k, j :: 0 <= k < i && 0 <= j < |xs| && j != k ==> Cong(p, Ev(nums[k], xs[j]), 0)
    {
      var num;
      ghost var rem;
      num, rem := DivPolys(root, [-xs[i], 1], p);
      Numerator(xs, root, num, rem, i, p);
      nums := nums + [num];
    }
    var denoms := [];
    for i := 0 to |xs|
      invariant |denoms| == i
      invariant forall k :: 0 <= k < i ==> 0 <= denoms[k] < p && Cong(p, denoms[k], Ev(nums[k], xs[k]))
    {
      var d := EvalPolyAt(nums[i], xs[i], p);
      denoms := denoms + [d];
    }
    Denominators(xs, nums, denoms, p);
    invdenoms := Polynomials.MultiInv(denoms, p);
    forall i | 0 <= i < |xs|
      ensures PreparedAt(xs, nums[i], invdenoms[i], i, p)
    {
      if Alone(xs, i, p) {
        InverseOfCong(p, denoms[i], Ev(nums[i], xs[i]), invdenoms[i]);
      }
    }
  }

  /** Reduced denominators are zero exactly for repeated points. */
  lemma Denominators(xs: seq<int>, nums: seq<seq<int>>, denoms: seq<int>, p: Prime)
    requires |nums| == |denoms| == |xs|
    requires forall k :: 0 <= k < |xs| ==> (Ev(nums[k], xs[k]) % p != 0 <==> Alone(xs, k, p))
    requires forall k :: 0 <= k < |xs| ==> 0 <= denoms[k] < p && Cong(p, denoms[k], Ev(nums[k], xs[k]))
    ensures NoHiddenZero(denoms, p) && forall k :: 0 <= k < |xs| ==> (denoms[k] != 0 <==> Alone(xs, k, p))
  {
    hide Ev, Alone;
    SmallRemainder(1, p);
    forall k | 0 <= k < |xs|
      ensures OrOne(denoms[k]) % p != 0 && (denoms[k] != 0 <==> Alone(xs, k, p))
    {
      SmallRemainder(denoms[k], p);
    }
  }

  lemma InverseOfCong(p: Prime, d: int, e: int, i: int)
    requires Cong(p, d, e) && Cong(p, d * i, 1)
    ensures Cong(p, e * i, 1)
  {
    CongMul(p, d, e, i, i);
  }

  /** The polynomial through the given points, for points that are not repeated; at
      repeated points it is zero.  The source asserts that there are as many values as points. */
  method LagrangeInterp(xs: seq<int>, ys: seq<int>, p: Prime) returns (r: seq<int>)
    requires |xs| == |ys|
    ensures |r| == |xs| && forall k :: 0 <= k < |r| ==> 0 <= r[k] < p
    ensures forall i :: 0 <= i < |xs| ==> Cong(p, Ev(r, xs[i]), Interpolated(xs, ys, i, p))
  {
    hide Cong, Ev, Vanishing, Prepared, ValuesUpTo, Alone, Interpolated;
    var root := ZPoly(xs, p);
    var nums, invdenoms := Prepare(xs, root, p);
    var b := seq(|ys|, _ => 0);
    InterpStart(b, xs, ys, p);
    PreparedShape(xs, nums, invdenoms, p);
    for i := 0 to |xs|
      invariant |b| == |xs| && ValuesUpTo(b, xs, ys, i, p)
    {
      var yslice := Mul(ys[i], invdenoms[i], p);
      ghost var before := b;
      for j := 0 to |ys|
        invariant |b| == |xs|
        invariant forall k :: 0 <= k < |b| ==> b[k] == before[k] + if k < j then yslice * nums[i][k] else 0
      {
        SkippedTerm(nums[i][j], ys[i], invdenoms[i], p);
        if nums[i][j] != 0 && ys[i] != 0 {
          b := b[j := b[j] + nums[i][j] * yslice];
        }
      }
      assert b == Plus(before, nums[i], yslice);
      PreparedFor(xs, nums, invdenoms, i, p);
      ValuesStep(before, b, nums[i], yslice, xs, ys, i, invdenoms[i], p);
    }
    r := seq(|b|, k requires 0 <= k < |b| => b[k] % p);
    InterpEnd(b, r, xs, ys, p);
  }

  lemma PreparedShape(xs: seq<int>, nums: seq<seq<int>>, invdenoms: seq<int>, p: Prime)
    requires Prepared(xs, nums, invdenoms, p)
    ensures |nums| == |invdenoms| == |xs| && forall i :: 0 <= i < |xs| ==> |nums[i]| == |xs|
  {
  }

  lemma PreparedFor(xs: seq<int>, nums: seq<seq<int>>, invdenoms: seq<int>, i: nat, p: Prime)
    requires Prepared(xs, nums, invdenoms, p) && i < |xs|
    ensures PreparedAt(xs, nums[i], invdenoms[i], i, p)
    ensures forall j :: 0 <= j < |xs| && j != i ==> Cong(p, Ev(nums[i], xs[j]), 0)
  {
  }

  lemma SkippedTerm(n: int, y: int, inverse: int, p: Prime)
    ensures n == 0 || y == 0 ==> Mul(y, inverse, p) * n == 0
    ensures n * Mul(y, inverse, p) == Mul(y, inverse, p) * n
  {
    if y == 0 {
      ZeroSticks(p, inverse);
    }
  }

  lemma InterpStart(b: seq<int>, xs: seq<int>, ys: seq<int>, p: Prime)
    requires |xs| == |ys| && forall k :: 0 <= k < |b| ==> b[k] == 0
    ensures ValuesUpTo(b, xs, ys, 0, p)
  {
    forall j | 0 <= j < |xs|
      ensures Ev(b, xs[j]) == 0
    {
      EvZeros(b, xs[j]);
    }
  }

  lemma InterpEnd(b: seq<int>, r: seq<int>, xs: seq<int>, ys: seq<int>, p: Prime)
    requires |xs| == |ys| == |b| == |r| && ValuesUpTo(b, xs, ys, |xs|, p)
    requires forall k :: 0 <= k < |b| ==> r[k] == b[k] % p
    ensures forall i :: 0 <= i < |xs| ==> Cong(p, Ev(r, xs[i]), Interpolated(xs, ys, i, p))
  {
    forall k | 0 <= k < |b|
      ensures Cong(p, r[k], b[k])
    {
      CongMod(p, b[k]);
    }
    forall i | 0 <= i < |xs|
      ensures Cong(p, Ev(r, xs[i]), Interpolated(xs, ys, i, p))
    {
      EvCoefficients(p, r, b, xs[i]);
    }
  }

  /** The result has the given value at a point exactly if no other point is the same field
      element or the value is zero. */
  lemma ValueExactly(xs: seq<int>, ys: seq<int>, r: seq<int>, i: nat, p: Prime)
    requires i < |xs| == |ys| && Cong(p, Ev(r, xs[i]), Interpolated(xs, ys, i, p))
    ensures Cong(p, Ev(r, xs[i]), ys[i]) <==> Alone(xs, i, p) || Cong(p, ys[i], 0)
  {
    hide Ev, Alone;
  }

  /** The same point twice with the value one: the result does not have this value there. */
  lemma RepeatedPoint(r: seq<int>, p: Prime)
    requires Cong(p, Ev(r, 0), Interpolated([0, 0], [1, 1], 0, p))
    ensures !Cong(p, Ev(r, 0), 1)
  {
    assert !Alone([0, 0], 0, p) by { assert Cong(p, [0, 0][1], [0, 0][0]); }
    SmallRemainder(1, p);
    SmallRemainder(0, p);
  }

  /** With distinct points all values are the given ones. */
  lemma DistinctValues(xs: seq<int>, ys: seq<int>, r: seq<int>, p: Prime)
    requires |xs| == |ys| && Distinct(xs, p)
    requires forall i :: 0 <= i < |xs| ==> Cong(p, Ev(r, xs[i]), Interpolated(xs, ys, i, p))
    ensures forall i :: 0 <= i < |xs| ==> Cong(p, Ev(r, xs[i]), ys[i])
  {
    hide Ev;
    forall i | 0 <= i < |xs|
      ensures Alone(xs, i, p)
    {
      DistinctAlone(xs, i, p);
    }
  }

  lemma DistinctAlone(xs: seq<int>, i: nat, p: Prime)
    requires Distinct(xs, p) && i < |xs|
    ensures Alone(xs, i, p)
  {
    forall j | 0 <= j < |xs| && j != i
      ensures !Cong(p, xs[j], xs[i])
    {
      if j < i {
      } else {
        assert !Cong(p, xs[i], xs[j]);
      }
    }
  }

  // ----- no other polynomial of that length has these values

  /** Synthetic division: the quotient of v by X - x. */
  ghost function Quotient(v: seq<int>, x: int): (q: seq<int>)
    ensures |q| == if v == [] then 0 else |v| - 1
  {
    if |v| <= 1 then [] else [Ev(v[1..], x)] + Quotient(v[1..], x)
  }

  lemma {:induction false} QuotientValue(v: seq<int>, x: int, y: int)
    requires v != []
    ensures Ev(v, y) == Ev(v, x) + (y - x) * Ev(Quotient(v, x), y)
  {
    hide *;
    if |v| == 1 {
      ConstantQuotient(v, x, y);
      ZeroFactor(y - x, 0);
    } else {
      QuotientValue(v[1..], x, y);
      EvStep(v, x);
      EvStep(v, y);
      QuotientMore(v, x, y);
      SyntheticStep(x, y, Ev(v[1..], x), Ev(Quotient(v[1..], x), y));
    }
  }

  lemma EvStep(v: seq<int>, x: int)
    requires v != []
    ensures Ev(v, x) == v[0] + x * Ev(v[1..], x)
  {
  }

  lemma ConstantQuotient(v: seq<int>, x: int, y: int)
    requires |v| == 1
    ensures Ev(v, x) == v[0] && Ev(v, y) == v[0] && Ev(Quotient(v, x), y) == 0
  {
    EvStep(v, x);
    EvStep(v, y);
    ZeroFactor(x, Ev(v[1..], x));
    ZeroFactor(y, Ev(v[1..], y));
  }

  lemma QuotientMore(v: seq<int>, x: int, y: int)
    requires |v| > 1
    ensures Ev(Quotient(v, x), y) == Ev(v[1..], x) + y * Ev(Quotient(v[1..], x), y)
  {
    hide Ev;
    var q := Quotient(v, x);
    assert q[1..] == Quotient(v[1..], x);
    EvStep(q, y);
  }

  lemma SyntheticStep(x: int, y: int, e: int, q: int)
    ensures y * (e + (y - x) * q) == x * e + (y - x) * (e + y * q)
  {
  }

  ghost predicate ZeroModulo(v: seq<int>, p: Prime) {
    forall k :: 0 <= k < |v| ==> Cong(p, v[k], 0)
  }

  /** A polynomial with as many roots as coefficients is zero. */
  lemma {:induction false} TooManyRoots(v: seq<int>, xs: seq<int>, p: Prime)
    requires Distinct(xs, p) && |xs| == |v|
    requires forall i :: 0 <= i < |xs| ==> Cong(p, Ev(v, xs[i]), 0)
    ensures ZeroModulo(v, p)
    decreases |v|
  {
    if v != [] {
      var x, q := xs[0], Quotient(v, xs[0]);
      forall i | 0 <= i < |xs| - 1
        ensures Cong(p, Ev(q, xs[1..][i]), 0)
      {
        var y := xs[i + 1];
        QuotientValue(v, x, y);
        CongSub(p, Ev(v, y), 0, Ev(v, x), 0);
        CongDiff(p, y, x);
        Cancel(p, y - x, Ev(q, y));
      }
      TooManyRoots(q, xs[1..], p);
      QuotientZero(v, x, p);
    }
  }

  /** Only the zero polynomial has a zero quotient and a root. */
  lemma {:induction false} QuotientZero(v: seq<int>, x: int, p: Prime)
    requires v != [] && ZeroModulo(Quotient(v, x), p) && Cong(p, Ev(v, x), 0)
    ensures ZeroModulo(v, p)
  {
    var e := Ev(v[1..], x);
    if |v| == 1 {
      assert v[1..] == [] && x * 0 == 0;
    } else {
      assert Quotient(v, x)[0] == e && Quotient(v, x)[1..] == Quotient(v[1..], x);
      assert ZeroModulo(Quotient(v[1..], x), p);
      QuotientZero(v[1..], x, p);
      CongTimes(p, x, e, 0);
      assert x * 0 == 0;
      CongSub(p, Ev(v, x), 0, x * e, 0);
      assert forall k :: 1 <= k < |v| ==> v[k] == v[1..][k - 1];
    }
  }

  lemma InterpolantUnique(xs: seq<int>, r: seq<int>, c: seq<int>, p: Prime)
    requires Distinct(xs, p) && |r| == |c| == |xs|
    requires forall k :: 0 <= k < |xs| ==> 0 <= r[k] < p && 0 <= c[k] < p
    requires forall i :: 0 <= i < |xs| ==> Cong(p, Ev(r, xs[i]), Ev(c, xs[i]))
    ensures r == c
  {
    var d := Plus(r, c, -1);
    forall i | 0 <= i < |xs|
      ensures Cong(p, Ev(d, xs[i]), 0)
    {
      DifferenceValue(r, c, xs[i], p);
    }
    hide Distinct, Ev;
    TooManyRoots(d, xs, p);
    forall k | 0 <= k < |xs|
      ensures r[k] == c[k]
    {
      DifferenceZero(r, c, k, p);
    }
  }

  lemma DifferenceValue(r: seq<int>, c: seq<int>, x: int, p: Prime)
    requires |r| == |c| && Cong(p, Ev(r, x), Ev(c, x))
    ensures Cong(p, Ev(Plus(r, c, -1), x), 0)
  {
    hide *;
    EvPlus(r, c, -1, x);
    CongDiff(p, Ev(r, x), Ev(c, x));
  }

  lemma DifferenceZero(r: seq<int>, c: seq<int>, k: nat, p: Prime)
    requires |r| == |c| && k < |r| && ZeroModulo(Plus(r, c, -1), p) && 0 <= r[k] < p && 0 <= c[k] < p
    ensures r[k] == c[k]
  {
    assert Plus(r, c, -1)[k] == r[k] + -1 * c[k] == r[k] - c[k];
    SameElement(p, r[k], c[k]);
  }

  lemma SameElement(p: Prime, r: int, c: int)
    requires Cong(p, r - c, 0) && 0 <= r < p && 0 <= c < p
    ensures r == c
  {
    CongDiff(p, r, c);
    SmallRemainder(r, p);
    SmallRemainder(c, p);
  }
}
