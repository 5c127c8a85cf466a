/** Arithmetic modulo a prime: circom_algebra/src/modular_arithmetic.rs.

    Field elements are the integers 0 .. p-1; the operations of the source reduce
    their result.  The lemmas speak of congruence of unreduced integers, so that
    a sum or a product can be rearranged first and reduced last. */
module Field {
  ghost predicate Divides(d: int, n: int)
    requires d != 0
  {
    n % d == 0
  }

  ghost predicate IsPrime(p: int) {
    forall d :: 2 <= d < p ==> !Divides(d, p)
  }

  type Prime = p: int | 2 <= p && IsPrime(p) witness 2

  /** a and b denote the same field element. */
  ghost predicate Cong(p: Prime, a: int, b: int) {
    a % p == b % p
  }

  lemma FactorsCommute(a: int, b: int)
    ensures a * b == b * a
  {
  }

  lemma FactorsExchange(a: int, b: int, c: int)
    ensures a * (b * c) == b * (a * c) && a * (b * c) == c * (b * a)
  {
  }

  lemma NegatedFactor(a: int, b: int)
    ensures a * -b == -(a * b)
  {
  }

  // ----- the operations of the source

  function Add(left: int, right: int, p: Prime): (r: int)
    ensures 0 <= r < p
  {
    (left + right) % p
  }

  function Mul(left: int, right: int, p: Prime): (r: int)
    ensures 0 <= r < p
  {
    (left * right) % p
  }

  // ----- congruence

  lemma CongIntro(p: Prime, a: int, b: int, k: int)
    requires a == b + k * p
    ensures Cong(p, a, b)
  {
    var qa, qb := a / p, b / p;
    var ra, rb := a % p, b % p;
    assert a == qa * p + ra;
    assert b == qb * p + rb;
    assert (qa - qb - k) * p == rb - ra;
    SmallMultiple(p, qa - qb - k);
  }

  lemma SmallMultiple(d: int, k: int)
    requires 0 < d && -d < k * d < d
    ensures k == 0
  {
    MulAtLeast(k, d);
    MulAtLeast(-k, d);
    assert -k * d == -(k * d);
  }

  lemma MulAtLeast(k: int, d: int)
    requires 0 < d
    ensures 1 <= k ==> d <= k * d
    ensures k <= 0 ==> k * d <= 0
  {
  }

  lemma CongElim(p: Prime, a: int, b: int) returns (k: int)
    requires Cong(p, a, b)
    ensures a == b + k * p
  {
    k := a / p - b / p;
    assert a == (a / p) * p + a % p;
    assert b == (b / p) * p + b % p;
    assert k * p == (a / p) * p - (b / p) * p;
  }

  lemma CongEqual(p: Prime, a: int, b: int)
    requires a == b
    ensures Cong(p, a, b)
  {
  }

  lemma CongMod(p: Prime, a: int)
    ensures Cong(p, a % p, a)
  {
    CongIntro(p, a % p, a, -(a / p));
  }

  lemma CongAdd(p: Prime, a: int, b: int, c: int, d: int)
    requires Cong(p, a, b) && Cong(p, c, d)
    ensures Cong(p, a + c, b + d)
  {
    var k := CongElim(p, a, b);
    var l := CongElim(p, c, d);
    assert a + c == b + d + (k + l) * p;
    CongIntro(p, a + c, b + d, k + l);
  }

  lemma CongSub(p: Prime, a: int, b: int, c: int, d: int)
    requires Cong(p, a, b) && Cong(p, c, d)
    ensures Cong(p, a - c, b - d)
  {
    var k := CongElim(p, a, b);
    var l := CongElim(p, c, d);
    assert a - c == b - d + (k - l) * p;
    CongIntro(p, a - c, b - d, k - l);
  }

  lemma CongMul(p: Prime, a: int, b: int, c: int, d: int)
    requires Cong(p, a, b) && Cong(p, c, d)
    ensures Cong(p, a * c, b * d)
  {
    var k := CongElim(p, a, b);
    var l := CongElim(p, c, d);
    ProductOfSums(a, b, c, d, k, l, p);
    CongIntro(p, a * c, b * d, k * c + b * l);
  }

  lemma ProductOfSums(a: int, b: int, c: int, d: int, k: int, l: int, n: int)
    requires a == b + k * n && c == d + l * n
    ensures a * c == b * d + (k * c + b * l) * n
  {
    assert a * c == b * c + (k * n) * c;
    assert b * c == b * d + b * (l * n);
    assert (k * n) * c == (k * c) * n;
    assert b * (l * n) == (b * l) * n;
    assert (k * c + b * l) * n == (k * c) * n + (b * l) * n;
  }

  /** Congruence to a difference of zero, both ways. */
  lemma CongDiff(p: Prime, a: int, b: int)
    ensures Cong(p, a, b) <==> Cong(p, a - b, 0)
  {
    if Cong(p, a, b) {
      CongSub(p, a, b, b, b);
    }
    if Cong(p, a - b, 0) {
      CongAdd(p, a - b, 0, b, b);
    }
  }

  // ----- inverses

  /** Extended Euclid: a gcd with its Bezout coefficients. */
  function Egcd(a: nat, b: nat): (r: (int, int, int))
    decreases b
  {
    if b == 0 then (a, 1, 0)
    else
      var (g, s, t) := Egcd(b, a % b);
      (g, t, s - (a / b) * t)
  }

  lemma {:induction false} EgcdCorrect(a: nat, b: nat) returns (u: int, v: int)
    requires 0 < a || 0 < b
    ensures Egcd(a, b).0 > 0
    ensures Egcd(a, b).0 == Egcd(a, b).1 * a + Egcd(a, b).2 * b
    ensures a == u * Egcd(a, b).0 && b == v * Egcd(a, b).0
    decreases b
  {
    if b == 0 {
      u, v := 1, 0;
    } else {
      var u', v' := EgcdCorrect(b, a % b);
      var (g, s, t) := Egcd(b, a % b);
      u, v := (a / b) * u' + v', u';
      EgcdStep(a, b, a / b, a % b, g, s, t, u', v');
    }
  }

  lemma EgcdStep(a: int, b: int, q: int, r: int, g: int, s: int, t: int, u: int, v: int)
    requires a == b * q + r && g == s * b + t * r
    requires b == u * g && r == v * g
    ensures g == t * a + (s - q * t) * b
    ensures a == (q * u + v) * g
  {
    assert t * a == t * (b * q) + t * r;
    assert (s - q * t) * b == s * b - q * t * b;
    assert (q * u + v) * g == q * (u * g) + v * g;
  }

  lemma MultipleMod(k: int, d: int)
    requires d > 0
    ensures (k * d) % d == 0
  {
    var q, r := (k * d) / d, (k * d) % d;
    assert k * d == q * d + r;
    assert r == (k - q) * d;
    SmallMultiple(d, k - q);
  }

  /** The only positive divisor of a prime below the prime is 1. */
  lemma SmallDivisor(p: Prime, g: int, v: int)
    requires 0 < g < p && p == v * g
    ensures g == 1
  {
    MultipleMod(v, g);
    assert IsPrime(p);
    assert g == 1 || !Divides(g, p);
  }

  lemma PrimeGcd(p: Prime, a: nat)
    requires 0 < a < p
    ensures Egcd(a, p).0 == 1
  {
    var u, v := EgcdCorrect(a, p);
    var g := Egcd(a, p).0;
    MulAtLeast(u, g);
    assert g <= a;
    SmallDivisor(p, g, v);
  }

  /** The inverse of a nonzero element; the source takes it from num_bigint. */
  function Inverse(a: int, p: Prime): (r: int)
    requires a % p != 0
    ensures 0 <= r < p
    ensures Cong(p, a * r, 1)
  {
    InverseCorrect(a, p);
    Egcd(a % p, p).1 % p
  }

  lemma InverseCorrect(a: int, p: Prime)
    requires a % p != 0
    ensures Cong(p, a * (Egcd(a % p, p).1 % p), 1)
  {
    var a' := a % p;
    PrimeGcd(p, a');
    var _, _ := EgcdCorrect(a', p);
    var s, t := Egcd(a', p).1, Egcd(a', p).2;
    assert 1 == s * a' + t * p;
    CongIntro(p, s * a', 1, -t);
    CongMod(p, s);
    CongMod(p, a);
    CongMul(p, a, a', s % p, s);
    assert a' * s == s * a';
  }

  /** A field has no zero divisors. */
  lemma Cancel(p: Prime, a: int, b: int)
    requires a % p != 0
    requires Cong(p, a * b, 0)
    ensures Cong(p, b, 0)
  {
    var r := Inverse(a, p);
    CongMul(p, a * b, 0, r, r);
    CongMul(p, a * r, 1, b, b);
    assert a * b * r == a * r * b;
  }

  lemma NonzeroProduct(p: Prime, a: int, b: int)
    requires a % p != 0 && b % p != 0
    ensures (a * b) % p != 0
  {
    if (a * b) % p == 0 {
      Cancel(p, a, b);
    }
  }

  // ----- batched inversion

  /** One step of the forward pass: a product of nonzero elements. */
  lemma ForwardStep(p: Prime, partial: int, value: int)
    requires partial % p != 0 && value % p != 0
    ensures Mul(partial, value, p) % p != 0
  {
    NonzeroProduct(p, partial, value);
    CongMod(p, partial * value);
  }

  /** One step of the backward pass. */
  lemma BackwardStep(p: Prime, partial: int, value: int, next: int, inverse: int)
    requires next == Mul(partial, value, p) && Cong(p, next * inverse, 1)
    ensures Cong(p, value * Mul(partial, inverse, p), 1)
    ensures Cong(p, partial * Mul(inverse, value, p), 1)
  {
    CongMod(p, partial * value);
    CongMul(p, next, partial * value, inverse, inverse);
    CongMod(p, partial * inverse);
    CongMul(p, value, value, Mul(partial, inverse, p), partial * inverse);
    CongMod(p, inverse * value);
    CongMul(p, partial, partial, Mul(inverse, value, p), inverse * value);
    assert value * (partial * inverse) == partial * value * inverse;
    assert partial * (inverse * value) == partial * value * inverse;
  }

  /** Inverts a vector with one field inversion.  The source panics when the
      product is zero and leaves one trailing zero in its result. */
  method MultiInv(values: seq<int>, p: Prime) returns (outputs: seq<int>)
    requires forall i :: 0 <= i < |values| ==> values[i] % p != 0
    ensures |outputs| == |values| + 1 && outputs[|values|] == 0
    ensures forall i :: 0 <= i < |values| ==> 0 <= outputs[i] < p && Cong(p, values[i] * outputs[i], 1)
  {
    hide Cong;
    var partials := [1];
    for i := 0 to |values|
      invariant |partials| == i + 1
      invariant forall j :: 0 <= j <= i ==> partials[j] % p != 0
      invariant forall j :: 0 <= j < i ==> partials[j + 1] == Mul(partials[j], values[j], p)
    {
      ForwardStep(p, partials[i], values[i]);
      partials := partials + [Mul(partials[i], values[i], p)];
    }
    var inverse := Inverse(partials[|values|], p);
    outputs := seq(|partials|, _ => 0);
    var i := |values|;
    while i > 0
      invariant 0 <= i <= |values| && |outputs| == |partials| == |values| + 1
      invariant outputs[|values|] == 0
      invariant Cong(p, partials[i] * inverse, 1)
      invariant forall j :: i <= j < |values| ==> 0 <= outputs[j] < p && Cong(p, values[j] * outputs[j], 1)
    {
      BackwardStep(p, partials[i - 1], values[i - 1], partials[i], inverse);
      outputs := outputs[i - 1 := Mul(partials[i - 1], inverse, p)];
      inverse := Mul(inverse, values[i - 1], p);
      i := i - 1;
    }
  }
}
