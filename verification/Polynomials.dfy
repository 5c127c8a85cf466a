/** Inverses, division and interpolation over a prime field: PrimeField in
    verkle/utils/poly_utils.py. */
module Polynomials {
  import opened Field
  import opened Powers
  import opened Evaluation

  function Sub(x: int, y: int, p: Prime): (r: int)
    ensures 0 <= r < p && Cong(p, r, x - y)
  {
    CongMod(p, x - y);
    (x - y) % p
  }

  // ----- inverses

  lemma EuclidStep(p: Prime, a: int, lm: int, low: int, hm: int, high: int, r: int)
    requires Cong(p, lm * a, low) && Cong(p, hm * a, high)
    ensures Cong(p, (hm - lm * r) * a, high - low * r)
  {
    hide Cong;
    CongTimes(p, r, lm * a, low);
    assert r * (lm * a) == (lm * r) * a && r * low == low * r;
    CongSub(p, hm * a, high, r * (lm * a), r * low);
    assert (hm - lm * r) * a == hm * a - (lm * r) * a;
  }

  lemma BezoutStep(s: int, t: int, low: int, high: int, r: int)
    requires s * low + t * high == 1
    ensures t * (high - low * r) + (s + t * r) * low == 1
  {
    assert t * (high - low * r) == t * high - t * (low * r);
    assert (s + t * r) * low == s * low + (t * r) * low;
    assert t * (low * r) == (t * r) * low;
  }

  lemma EuclidBounds(low: int, high: int)
    requires 1 < low < high
    ensures 0 <= high - low * (high / low) < low
  {
    assert high == low * (high / low) + high % low;
  }

  lemma NoUnit(s: int, low: int, t: int, high: int)
    requires s * low + t * high == 1 && high > 1
    ensures low != 0
  {
    MulAtLeast(t, high);
  }

  /** What the loop of the extended Euclid keeps, for an invertible a. */
  ghost predicate Euclid(p: Prime, a: int, lm: int, low: int, hm: int, high: int, s: int, t: int) {
    && 0 <= low < high && 1 < high
    && Cong(p, lm * a, low) && Cong(p, hm * a, high)
    && s * low + t * high == 1
  }

  lemma EuclidStart(p: Prime, a: int) returns (s: int, t: int)
    requires a % p != 0
    ensures Euclid(p, a, 1, a % p, 0, p, s, t)
  {
    var low := a % p;
    CongMod(p, a);
    CongIntro(p, 0 * a, p, -1);
    PrimeGcd(p, low);
    var _, _ := EgcdCorrect(low, p);
    s, t := Egcd(low, p).1, Egcd(low, p).2;
  }

  lemma EuclidNext(p: Prime, a: int, lm: int, low: int, hm: int, high: int, s: int, t: int)
    requires Euclid(p, a, lm, low, hm, high, s, t) && low > 1
    ensures var r := high / low;
      Euclid(p, a, hm - lm * r, high - low * r, lm, low, t, s + t * r)
  {
    var r := high / low;
    EuclidBounds(low, high);
    EuclidStep(p, a, lm, low, hm, high, r);
    BezoutStep(s, t, low, high, r);
  }

  lemma EuclidEnd(p: Prime, a: int, lm: int, low: int, hm: int, high: int, s: int, t: int)
    requires Euclid(p, a, lm, low, hm, high, s, t) && low <= 1
    ensures Cong(p, a * (lm % p), 1)
  {
    hide Cong;
    NoUnit(s, low, t, high);
    CongMod(p, lm);
    CongTimes(p, a, lm % p, lm);
    assert a * lm == lm * a;
    CongTrans(p, a * (lm % p), lm * a, 1);
  }

  /** Extended Euclid.  A multiple of the modulus has no inverse: zero gives zero,
      the others give one. */
  method Inv(a: int, p: Prime) returns (r: int)
    ensures 0 <= r < p
    ensures a % p != 0 ==> Cong(p, a * r, 1)
    ensures a % p == 0 ==> r == if a == 0 then 0 else 1
  {
    hide Cong, Euclid;
    if a == 0 {
      return 0;
    }
    var lm, hm := 1, 0;
    var low, high := a % p, p;
    ghost var s, t := 0, 0;
    if a % p != 0 {
      s, t := EuclidStart(p, a);
    }
    while low > 1
      invariant 0 <= low
      invariant a % p != 0 ==> Euclid(p, a, lm, low, hm, high, s, t)
      invariant a % p == 0 ==> low == 0 && lm == 1
      decreases low
    {
      EuclidNext(p, a, lm, low, hm, high, s, t);
      EuclidShrinks(p, a, lm, low, hm, high, s, t);
      var r := high / low;
      s, t := t, s + t * r;
      lm, low, hm, high := hm - lm * r, high - low * r, lm, low;
    }
    SmallRemainder(1, p);
    if a % p != 0 {
      EuclidEnd(p, a, lm, low, hm, high, s, t);
    }
    r := lm % p;
  }

  lemma EuclidShrinks(p: Prime, a: int, lm: int, low: int, hm: int, high: int, s: int, t: int)
    requires Euclid(p, a, lm, low, hm, high, s, t) && low > 1
    ensures 0 <= high - low * (high / low) < low
  {
    EuclidBounds(low, high);
  }

  method Div(x: int, y: int, p: Prime) returns (r: int)
    ensures 0 <= r < p
    ensures y % p != 0 ==> Cong(p, r * y, x)
  {
    var i := Inv(y, p);
    r := Mul(x, i, p);
    if y % p != 0 {
      QuotientTimes(x, y, i, p);
    }
  }

  lemma QuotientTimes(x: int, y: int, i: int, p: Prime)
    requires Cong(p, y * i, 1)
    ensures Cong(p, Mul(x, i, p) * y, x)
  {
    hide Cong;
    CongMod(p, x * i);
    CongTimes(p, y, Mul(x, i, p), x * i);
    CongTimes(p, x, y * i, 1);
    assert y * (x * i) == x * (y * i) && y * Mul(x, i, p) == Mul(x, i, p) * y && x * 1 == x;
    CongTrans(p, Mul(x, i, p) * y, x * (y * i), x);
  }

  /** values[i] or 1 */
  function OrOne(v: int): int {
    if v == 0 then 1 else v
  }

  /** No value is zero modulo p without being zero. */
  ghost predicate NoHiddenZero(values: seq<int>, p: Prime) {
    forall i :: 0 <= i < |values| ==> OrOne(values[i]) % p != 0
  }

  lemma ZeroSticks(p: Prime, v: int)
    ensures Mul(0, v, p) == 0 && Mul(v, 0, p) == 0
  {
    assert 0 * v == 0 && v * 0 == 0;
  }

  lemma HiddenZero(p: Prime, partial: int, v: int)
    requires v % p == 0
    ensures Mul(partial, v, p) == 0
  {
    assert Cong(p, v, 0);
    CongTimes(p, partial, v, 0);
  }

  /** All inverses with one inversion; zeros stay zero.  A nonzero multiple of the
      modulus spoils the whole batch. */
  method MultiInv(values: seq<int>, p: Prime) returns (outputs: seq<int>)
    ensures |outputs| == |values|
    ensures forall i :: 0 <= i < |values| && values[i] == 0 ==> outputs[i] == 0
    ensures NoHiddenZero(values, p) ==> forall i :: 0 <= i < |values| && values[i] != 0 ==>
      0 <= outputs[i] < p && Cong(p, values[i] * outputs[i], 1)
    ensures !NoHiddenZero(values, p) ==> forall i :: 0 <= i < |values| ==> outputs[i] == 0
  {
    hide *;
    var partials := PartialProducts(values, p);
    var inv := Inv(partials[|values|], p);
    outputs := seq(|values|, _ => 0);
    var i := |values|;
    while i > 0
      invariant 0 <= i <= |values| == |outputs|
      invariant NoHiddenZero(values, p) ==> Cong(p, partials[i] * inv, 1)
      invariant !NoHiddenZero(values, p) ==> inv == 0
      invariant forall j :: 0 <= j < |values| && values[j] == 0 ==> outputs[j] == 0
      invariant NoHiddenZero(values, p) ==> forall j :: i <= j < |values| && values[j] != 0 ==>
        0 <= outputs[j] < p && Cong(p, values[j] * outputs[j], 1)
      invariant !NoHiddenZero(values, p) ==> forall j :: 0 <= j < |values| ==> outputs[j] == 0
    {
      InverseStep(values, partials[i - 1], partials[i], inv, i, p);
      outputs := outputs[i - 1 := if values[i - 1] != 0 then Mul(partials[i - 1], inv, p) else 0];
      inv := Mul(inv, OrOne(values[i - 1]), p);
      i := i - 1;
    }
  }

  /** The products of the first values, zeros left out. */
  method PartialProducts(values: seq<int>, p: Prime) returns (partials: seq<int>)
    ensures |partials| == |values| + 1
    ensures forall j :: 0 <= j < |values| ==> partials[j + 1] == Mul(partials[j], OrOne(values[j]), p)
    ensures NoHiddenZero(values, p) ==> partials[|values|] % p != 0
    ensures !NoHiddenZero(values, p) ==> partials[|values|] == 0
  {
    SmallRemainder(1, p);
    partials := [1];
    for i := 0 to |values|
      invariant |partials| == i + 1
      invariant forall j :: 0 <= j < i ==> partials[j + 1] == Mul(partials[j], OrOne(values[j]), p)
      invariant NoHiddenZero(values[..i], p) ==> partials[i] % p != 0
      invariant !NoHiddenZero(values[..i], p) ==> partials[i] == 0
    {
      hide *;
      PartialStep(values, partials[i], i, p);
      partials := partials + [Mul(partials[i], OrOne(values[i]), p)];
    }
    assert values[..|values|] == values;
  }

  /** One step back from the inverse of the product of the first i values. */
  lemma InverseStep(values: seq<int>, before: int, partial: int, inv: int, i: nat, p: Prime)
    requires 0 < i <= |values| && partial == Mul(before, OrOne(values[i - 1]), p)
    requires NoHiddenZero(values, p) ==> Cong(p, partial * inv, 1)
    requires !NoHiddenZero(values, p) ==> inv == 0
    ensures NoHiddenZero(values, p) ==> Cong(p, before * Mul(inv, OrOne(values[i - 1]), p), 1)
    ensures NoHiddenZero(values, p) && values[i - 1] != 0 ==>
      0 <= Mul(before, inv, p) < p && Cong(p, values[i - 1] * Mul(before, inv, p), 1)
    ensures !NoHiddenZero(values, p) ==> Mul(inv, OrOne(values[i - 1]), p) == 0 && Mul(before, inv, p) == 0
  {
    hide Cong, Mul;
    if NoHiddenZero(values, p) {
      BackwardStep(p, before, OrOne(values[i - 1]), partial, inv);
    } else {
      ZeroSticks(p, before);
      ZeroSticks(p, OrOne(values[i - 1]));
    }
  }

  lemma PartialStep(values: seq<int>, partial: int, i: nat, p: Prime)
    requires i < |values|
    requires NoHiddenZero(values[..i], p) ==> partial % p != 0
    requires !NoHiddenZero(values[..i], p) ==> partial == 0
    ensures NoHiddenZero(values[..i + 1], p) ==> Mul(partial, OrOne(values[i]), p) % p != 0
    ensures !NoHiddenZero(values[..i + 1], p) ==> Mul(partial, OrOne(values[i]), p) == 0
  {
    var v := OrOne(values[i]);
    assert values[..i + 1] == values[..i] + [values[i]];
    assert NoHiddenZero(values[..i + 1], p) <==> NoHiddenZero(values[..i], p) && v % p != 0;
    if v % p == 0 {
      HiddenZero(p, partial, v);
    } else if partial % p != 0 {
      ForwardStep(p, partial, v);
    } else {
      ZeroSticks(p, v);
    }
  }

  /** Evaluation, reducing only the power in every step. */
  method EvalPolyAt(poly: seq<int>, x: int, p: Prime) returns (r: int)
    ensures 0 <= r < p && Cong(p, r, Ev(poly, x))
  {
    hide Cong, Ev, Pow;
    var y, powerOfX := 0, 1;
    EvalStart(p, poly, x);
    for i := 0 to |poly|
      invariant Cong(p, y, Ev(poly[..i], x)) && Cong(p, powerOfX, Pow(x, i))
    {
      EvPrefix(poly, i, x);
      CongTimes(p, poly[i], powerOfX, Pow(x, i));
      assert powerOfX * poly[i] == poly[i] * powerOfX;
      CongAdd(p, y, Ev(poly[..i], x), powerOfX * poly[i], poly[i] * Pow(x, i));
      y := y + powerOfX * poly[i];
      NextPower(p, powerOfX, x, i);
      powerOfX := (powerOfX * x) % p;
    }
    assert poly[..|poly|] == poly;
    r := y % p;
    CongMod(p, y);
    CongTrans(p, r, y, Ev(poly, x));
  }

  lemma EvalStart(p: Prime, poly: seq<int>, x: int)
    ensures Cong(p, 0, Ev(poly[..0], x)) && Cong(p, 1, Pow(x, 0))
  {
  }

  lemma NextPower(p: Prime, power: int, x: int, i: nat)
    requires Cong(p, power, Pow(x, i))
    ensures Cong(p, (power * x) % p, Pow(x, i + 1))
  {
    CongTimes(p, x, power, Pow(x, i));
    CongMod(p, power * x);
    assert x * power == power * x;
  }

  // ----- products

  function Coef(v: seq<int>, k: int): int {
    if 0 <= k < |v| then v[k] else 0
  }

  /** The coefficient of the product of a and b at k. */
  ghost function Conv(a: seq<int>, b: seq<int>, k: int): int
    decreases |b|
  {
    if b == [] then 0 else b[0] * Coef(a, k) + Conv(a, b[1..], k - 1)
  }

  lemma {:induction false} ConvSnoc(a: seq<int>, b: seq<int>, c: int, k: int)
    ensures Conv(a, b + [c], k) == Conv(a, b, k) + c * Coef(a, k - |b|)
    decreases |b|
  {
    if b == [] {
      assert ([] + [c])[1..] == [];
    } else {
      ConvSnoc(a, b[1..], c, k - 1);
      assert (b + [c])[1..] == b[1..] + [c];
    }
  }

  lemma {:induction false} ConvNone(b: seq<int>, k: int)
    ensures Conv([], b, k) == 0
    decreases |b|
  {
    if b != [] {
      ConvNone(b[1..], k - 1);
      assert b[0] * 0 == 0;
    }
  }

  lemma {:induction false} ConvCons(a: seq<int>, b: seq<int>, k: int)
    requires a != []
    ensures Conv(a, b, k) == a[0] * Coef(b, k) + Conv(a[1..], b, k - 1)
    decreases |b|
  {
    if b != [] {
      ConvCons(a, b[1..], k - 1);
      assert Coef(a, k) == if k == 0 then a[0] else Coef(a[1..], k - 1);
      assert Coef(b, k) == if k == 0 then b[0] else Coef(b[1..], k - 1);
      ConsStep(a[0], b[0], k, Coef(a[1..], k - 1), Coef(b[1..], k - 1));
    }
  }

  lemma ConsStep(a: int, b: int, k: int, a': int, b': int)
    requires k == 0 ==> a' == 0 && b' == 0
    ensures b * (if k == 0 then a else a') + a * b' == a * (if k == 0 then b else b') + b * a'
  {
  }

  lemma {:induction false} ConvCommutes(a: seq<int>, b: seq<int>, k: int)
    ensures Conv(a, b, k) == Conv(b, a, k)
    decreases |a|
  {
    if a == [] {
      ConvNone(b, k);
    } else {
      ConvCons(a, b, k);
      ConvCommutes(a[1..], b, k - 1);
    }
  }

  /** The coefficients of a product, reduced. */
  ghost predicate IsProduct(r: seq<int>, a: seq<int>, b: seq<int>, p: Prime) {
    |r| == ProductLength(a, b) && forall k :: 0 <= k < |r| ==> r[k] == Conv(b, a, k) % p
  }

  function ProductLength(a: seq<int>, b: seq<int>): nat {
    if a == [] && b == [] then 0 else |a| + |b| - 1
  }

  method MulPolys(a: seq<int>, b: seq<int>, p: Prime) returns (r: seq<int>)
    ensures IsProduct(r, a, b, p)
  {
    hide Conv, Coef;
    var o := seq(ProductLength(a, b), _ => 0);
    ConvStart(b);
    for i := 0 to |a|
      invariant |o| == ProductLength(a, b)
      invariant forall k :: 0 <= k < |o| ==> o[k] == Conv(b, a[..i], k)
    {
      for j := 0 to |b|
        invariant |o| == ProductLength(a, b)
        invariant forall k :: 0 <= k < |o| ==>
          o[k] == Conv(b, a[..i], k) + if i <= k < i + j then a[i] * b[k - i] else 0
      {
        o := o[i + j := o[i + j] + a[i] * b[j]];
      }
      forall k | 0 <= k < |o|
        ensures o[k] == Conv(b, a[..i + 1], k)
      {
        RowDone(a, b, i, k);
      }
    }
    assert a[..|a|] == a;
    r := seq(|o|, k requires 0 <= k < |o| => o[k] % p);
  }

  lemma ConvStart(b: seq<int>)
    ensures forall k :: Conv(b, [], k) == 0
  {
  }

  lemma RowDone(a: seq<int>, b: seq<int>, i: nat, k: nat)
    requires i < |a|
    ensures Conv(b, a[..i + 1], k) == Conv(b, a[..i], k) + if i <= k < i + |b| then a[i] * b[k - i] else 0
  {
    assert a[..i + 1] == a[..i] + [a[i]];
    ConvSnoc(b, a[..i], a[i], k);
    assert a[i] * 0 == 0;
  }

  // ----- division

  /** a == b * o + rem, as lists of integers. */
  ghost predicate Decomposed(a: seq<int>, b: seq<int>, o: seq<int>, rem: seq<int>, shift: int) {
    |rem| == |a| && forall k :: 0 <= k < |a| ==> a[k] == rem[k] + Conv(b, o, k - shift)
  }

  lemma DecomposedStep(a: seq<int>, b: seq<int>, o: seq<int>, rem: seq<int>, rem': seq<int>, quot: int, d: nat)
    requires Decomposed(a, b, o, rem, d + 1) && |rem'| == |rem|
    requires forall k :: 0 <= k < |rem| ==> rem'[k] == rem[k] - (if d <= k < d + |b| then b[k - d] * quot else 0)
    ensures Decomposed(a, b, [quot] + o, rem', d)
  {
    forall k | 0 <= k < |a|
      ensures a[k] == rem'[k] + Conv(b, [quot] + o, k - d)
    {
      assert ([quot] + o)[1..] == o;
      assert Conv(b, [quot] + o, k - d) == quot * Coef(b, k - d) + Conv(b, o, k - d - 1);
      assert quot * 0 == 0;
    }
  }

  /** From that place on the entries are zero modulo p. */
  ghost predicate ZeroFrom(rem: seq<int>, from: int, p: Prime) {
    forall k :: 0 <= k < |rem| && from <= k ==> Cong(p, rem[k], 0)
  }

  lemma ZeroStep(b: seq<int>, rem: seq<int>, rem': seq<int>, quot: int, d: nat, apos: nat, p: Prime)
    requires |b| >= 1 && apos == d + |b| - 1 < |rem| == |rem'| && ZeroFrom(rem, apos + 1, p)
    requires forall k :: 0 <= k < |rem| ==> rem'[k] == rem[k] - (if d <= k < d + |b| then b[k - d] * quot else 0)
    requires Cong(p, quot * b[|b| - 1], rem[apos])
    ensures ZeroFrom(rem', apos, p)
  {
    hide Cong;
    Eliminated(p, quot, b[|b| - 1], rem[apos]);
  }

  lemma Eliminated(p: Prime, quot: int, lead: int, top: int)
    requires Cong(p, quot * lead, top)
    ensures Cong(p, top - lead * quot, 0)
  {
    hide Cong;
    assert quot * lead == lead * quot;
    CongSymmetric(p, quot * lead, top);
    CongDiff(p, top, lead * quot);
  }

  /** Long division.  The quotient is reduced; the remainder keeps its length, but
      from the degree of the divisor on it is zero modulo p. */
  method DivPolys(a: seq<int>, b: seq<int>, p: Prime) returns (o: seq<int>, ghost rem: seq<int>)
    requires |a| >= |b| >= 1
    ensures |o| == |a| - |b| + 1 && forall i :: 0 <= i < |o| ==> 0 <= o[i] < p
    ensures Decomposed(a, b, o, rem, 0)
    ensures b[|b| - 1] % p != 0 ==> forall k :: |b| - 1 <= k < |a| ==> Cong(p, rem[k], 0)
  {
    hide Cong, Conv, Decomposed, ZeroFrom;
    var current := a;
    o := [];
    var apos, bpos := |a| - 1, |b| - 1;
    var diff := apos - bpos;
    ghost var regular := b[bpos] % p != 0;
    DecomposedStart(a, b, o, diff + 1);
    NothingAbove(a, p);
    while diff >= 0
      invariant -1 <= diff && apos == diff + bpos && |current| == |a| && apos < |a|
      invariant |o| == |a| - |b| - diff
      invariant AllReduced(o, p)
      invariant Decomposed(a, b, o, current, diff + 1)
      invariant regular ==> ZeroFrom(current, apos + 1, p)
    {
      hide AllReduced;
      var quot := Div(current[apos], b[bpos], p);
      ghost var before := current;
      current := SubtractMultiple(current, b, quot, diff);
      DecomposedStep(a, b, o, before, current, quot, diff);
      if regular {
        ZeroStep(b, before, current, quot, diff, apos, p);
      }
      ReducedMore(quot, o, p);
      o := [quot] + o;
      apos, diff := apos - 1, diff - 1;
    }
    rem := current;
    ZeroAbove(rem, |b| - 1, regular, p);
    AlreadyReduced(o, p);
    o := seq(|o|, i requires 0 <= i < |o| => o[i] % p);
  }

  ghost predicate AllReduced(o: seq<int>, p: Prime) {
    forall i :: 0 <= i < |o| ==> 0 <= o[i] < p
  }

  lemma ReducedMore(quot: int, o: seq<int>, p: Prime)
    requires AllReduced(o, p) && 0 <= quot < p
    ensures AllReduced([quot] + o, p)
  {
  }

  lemma NothingAbove(a: seq<int>, p: Prime)
    ensures ZeroFrom(a, |a|, p)
  {
  }

  lemma ZeroAbove(rem: seq<int>, from: nat, regular: bool, p: Prime)
    requires regular ==> ZeroFrom(rem, from, p)
    ensures regular ==> forall k :: from <= k < |rem| ==> Cong(p, rem[k], 0)
  {
  }

  lemma AlreadyReduced(o: seq<int>, p: Prime)
    requires AllReduced(o, p)
    ensures seq(|o|, i requires 0 <= i < |o| => o[i] % p) == o
  {
    forall i | 0 <= i < |o|
      ensures o[i] % p == o[i]
    {
      SmallRemainder(o[i], p);
    }
  }

  lemma DecomposedStart(a: seq<int>, b: seq<int>, o: seq<int>, shift: int)
    requires o == []
    ensures Decomposed(a, b, o, a, shift)
  {
    assert forall j :: Conv(b, o, j) == 0;
  }

  /** The inner loop: quot times b, shifted by diff, is taken away. */
  method SubtractMultiple(a: seq<int>, b: seq<int>, quot: int, diff: nat) returns (r: seq<int>)
    requires diff + |b| <= |a|
    ensures |r| == |a|
    ensures forall k :: 0 <= k < |a| ==> r[k] == a[k] - (if diff <= k < diff + |b| then b[k - diff] * quot else 0)
  {
    r := a;
    var i := |b| - 1;
    while i >= 0
      invariant -1 <= i < |b| && |r| == |a|
      invariant forall k :: 0 <= k < |a| ==> r[k] == a[k] - (if diff + i < k < diff + |b| then b[k - diff] * quot else 0)
    {
      r := r[diff + i := r[diff + i] - b[i] * quot];
      i := i - 1;
    }
  }

  method SubPolys(a: seq<int>, b: seq<int>, p: Prime) returns (r: seq<int>)
    ensures |r| == if |a| > |b| then |a| else |b|
    ensures forall k :: 0 <= k < |r| ==> r[k] == (Coef(a, k) - Coef(b, k)) % p
  {
    var n := if |a| > |b| then |a| else |b|;
    r := seq(n, k requires 0 <= k < n => (Coef(a, k) - Coef(b, k)) % p);
  }

  /** The remainder: shorter than the divisor, and together with a quotient it gives the dividend. */
  method ModPolys(a: seq<int>, b: seq<int>, p: Prime) returns (r: seq<int>, ghost q: seq<int>)
    requires |a| >= |b| >= 1
    ensures |r| == |b| - 1 && forall k :: 0 <= k < |r| ==> 0 <= r[k] < p
    ensures b[|b| - 1] % p != 0 ==> forall k :: 0 <= k < |a| ==> Cong(p, a[k], Conv(b, q, k) + Coef(r, k))
  {
    hide Conv, Cong;
    var quotient;
    ghost var rem;
    quotient, rem := DivPolys(a, b, p);
    q := quotient;
    var product := MulPolys(b, quotient, p);
    assert |product| == |a|;
    var difference := SubPolys(a, product, p);
    r := difference[..|b| - 1];
    forall k | 0 <= k < |a| && b[|b| - 1] % p != 0
      ensures Cong(p, a[k], Conv(b, q, k) + Coef(r, k))
    {
      ConvCommutes(b, q, k);
      if k < |b| - 1 {
        RemainderAt(p, a[k], Conv(b, q, k));
      } else {
        RemainderGone(p, a[k], rem[k], Conv(b, q, k));
      }
    }
  }

  lemma RemainderAt(p: Prime, a: int, c: int)
    ensures Cong(p, a, c + (a - c % p) % p)
  {
    hide Cong;
    CongMod(p, a - c % p);
    CongMod(p, c);
    CongSymmetric(p, c % p, c);
    CongAdd(p, c, c % p, (a - c % p) % p, a - c % p);
    CongSymmetric(p, c + (a - c % p) % p, a);
  }

  lemma RemainderGone(p: Prime, a: int, rem: int, c: int)
    requires a == rem + c && Cong(p, rem, 0)
    ensures Cong(p, a, c + 0)
  {
    CongAdd(p, rem, 0, c, c);
  }
}
