/** Powers modulo a prime, roots of unity, and Fermat's theorem behind the modular
    inverses that the Verkle code takes with pow(x, p - 2, p). */
module Powers {
  import opened Field
  import opened Products

  function Pow(x: int, k: nat): int {
    if k == 0 then 1 else x * Pow(x, k - 1)
  }

  /** The three-argument pow. */
  function Exp(x: int, k: nat, p: Prime): (r: int)
    ensures 0 <= r < p && Cong(p, r, Pow(x, k))
  {
    CongMod(p, Pow(x, k));
    Pow(x, k) % p
  }

  lemma {:induction false} PowAdd(x: int, j: nat, k: nat)
    ensures Pow(x, j + k) == Pow(x, j) * Pow(x, k)
  {
    if j != 0 {
      PowAdd(x, j - 1, k);
      assert x * (Pow(x, j - 1) * Pow(x, k)) == x * Pow(x, j - 1) * Pow(x, k);
    }
  }

  lemma {:induction false} PowPow(x: int, j: nat, k: nat)
    ensures 0 <= j * k && Pow(Pow(x, j), k) == Pow(x, j * k)
  {
    if k != 0 {
      PowPow(x, j, k - 1);
      assert j * k == j + j * (k - 1);
      PowAdd(x, j, j * (k - 1));
    }
  }

  lemma {:induction false} PowProduct(x: int, y: int, k: nat)
    ensures Pow(x * y, k) == Pow(x, k) * Pow(y, k)
  {
    if k != 0 {
      PowProduct(x, y, k - 1);
      FourFactors(x, y, Pow(x, k - 1), Pow(y, k - 1));
    }
  }

  lemma Associate(a: int, b: int, c: int)
    ensures (a * b) * c == a * (b * c)
  {
  }

  lemma FourFactors(x: int, y: int, a: int, b: int)
    ensures (x * y) * (a * b) == (x * a) * (y * b)
  {
    Associate(x, y, a * b);
    Swap(y, a, b);
    Associate(x, a, y * b);
  }

  lemma {:induction false} PowOne(k: nat)
    ensures Pow(1, k) == 1
  {
    if k != 0 {
      PowOne(k - 1);
    }
  }

  lemma {:induction false} PowCong(p: Prime, x: int, y: int, k: nat)
    requires Cong(p, x, y)
    ensures Cong(p, Pow(x, k), Pow(y, k))
  {
    hide Cong;
    if k == 0 {
      CongEqual(p, Pow(x, k), Pow(y, k));
    } else {
      PowCong(p, x, y, k - 1);
      CongMul(p, x, y, Pow(x, k - 1), Pow(y, k - 1));
    }
  }

  lemma CongTrans(p: Prime, a: int, b: int, c: int)
    requires Cong(p, a, b) && Cong(p, b, c)
    ensures Cong(p, a, c)
  {
  }

  lemma CongSymmetric(p: Prime, a: int, b: int)
    requires Cong(p, a, b)
    ensures Cong(p, b, a)
  {
  }

  /** Multiplying both sides by the same number. */
  lemma CongTimes(p: Prime, c: int, a: int, b: int)
    requires Cong(p, a, b)
    ensures Cong(p, c * a, c * b)
  {
    CongMul(p, c, c, a, b);
  }

  /** Canceling a nonzero factor. */
  lemma CongCancel(p: Prime, c: int, a: int, b: int)
    requires c % p != 0 && Cong(p, c * a, c * b)
    ensures Cong(p, a, b)
  {
    CongDiff(p, c * a, c * b);
    assert c * a - c * b == c * (a - b);
    Cancel(p, c, a - b);
    CongDiff(p, a, b);
  }

  // ----- Fermat

  ghost function Residues(n: nat): (r: set<nat>)
    ensures forall x :: x in r <==> 1 <= x < n
  {
    if n <= 1 then {} else Residues(n - 1) + {n - 1}
  }

  ghost function Multiples(s: set<nat>, a: int, p: Prime): set<nat> {
    set x | x in s :: (a * x) % p
  }

  lemma {:induction false} ResiduesSize(n: nat)
    requires n >= 1
    ensures |Residues(n)| == n - 1
  {
    if n != 1 {
      ResiduesSize(n - 1);
    }
  }

  lemma MultiplesApart(p: Prime, a: int, x: int, y: int)
    requires a % p != 0 && 0 <= x < p && 0 <= y < p && (a * x) % p == (a * y) % p
    ensures x == y
  {
    CongCancel(p, a, x, y);
    assert x % p == x && y % p == y by {
      SmallRemainder(x, p);
      SmallRemainder(y, p);
    }
  }

  lemma SmallRemainder(x: int, n: int)
    requires 0 <= x < n
    ensures x % n == x
  {
  }

  lemma {:induction false} MultiplesProduct(s: set<nat>, a: int, p: Prime)
    requires a % p != 0 && s <= Residues(p)
    ensures |Multiples(s, a, p)| == |s|
    ensures Cong(p, Product(Multiples(s, a, p)), Pow(a, |s|) * Product(s))
  {
    if s == {} {
      assert Multiples(s, a, p) == {};
    } else {
      var k :| k in s;
      MultiplesProduct(s - {k}, a, p);
      MultiplesRest(s, k, a, p);
      MultiplesStep(s, k, a, p);
    }
  }

  lemma MultiplesRest(s: set<nat>, k: int, a: int, p: Prime)
    requires a % p != 0 && s <= Residues(p) && k in s
    ensures (a * k) % p in Multiples(s, a, p)
    ensures Multiples(s, a, p) - {(a * k) % p} == Multiples(s - {k}, a, p)
  {
    var m := (a * k) % p;
    forall y | y in s - {k}
      ensures (a * y) % p != m
    {
      if (a * y) % p == m {
        MultiplesApart(p, a, k, y);
      }
    }
    MultiplesOne(s, k, a, p);
  }

  lemma MultiplesOne(s: set<nat>, k: int, a: int, p: Prime)
    requires k in s && forall y :: y in s - {k} ==> (a * y) % p != (a * k) % p
    ensures (a * k) % p in Multiples(s, a, p)
    ensures Multiples(s, a, p) - {(a * k) % p} == Multiples(s - {k}, a, p)
  {
    var f := (x: int) => (a * x) % p;
    assert Multiples(s, a, p) == set x | x in s :: f(x);
    assert Multiples(s - {k}, a, p) == set x | x in s - {k} :: f(x);
    ImageRest(s, k, f);
  }

  lemma ImageRest(s: set<nat>, k: int, f: int -> int)
    requires k in s && forall y :: y in s - {k} ==> f(y) != f(k)
    ensures f(k) in (set x | x in s :: f(x))
    ensures (set x | x in s :: f(x)) - {f(k)} == set x | x in s - {k} :: f(x)
  {
  }

  lemma MultiplesStep(s: set<nat>, k: int, a: int, p: Prime)
    requires k in s
    requires (a * k) % p in Multiples(s, a, p)
    requires Multiples(s, a, p) - {(a * k) % p} == Multiples(s - {k}, a, p)
    requires Cong(p, Product(Multiples(s - {k}, a, p)), Pow(a, |s - {k}|) * Product(s - {k}))
    ensures Cong(p, Product(Multiples(s, a, p)), Pow(a, |s|) * Product(s))
  {
    hide Cong, Multiples, Product;
    var rest, m := s - {k}, (a * k) % p;
    ProductSplit(Multiples(s, a, p), m);
    ProductSplit(s, k);
    CongMod(p, a * k);
    var u, v := Pow(a, |rest|), Product(rest);
    CongMul(p, m, a * k, Product(Multiples(rest, a, p)), u * v);
    assert Pow(a, |s|) == a * u;
    FourFactors(a, k, u, v);
  }

  lemma {:induction false} ProductNonzero(s: set<nat>, p: Prime)
    requires s <= Residues(p)
    ensures Product(s) % p != 0
  {
    if s == {} {
      SmallRemainder(1, p);
    } else {
      var k :| k in s;
      ProductNonzero(s - {k}, p);
      ProductSplit(s, k);
      SmallRemainder(k, p);
      NonzeroProduct(p, k, Product(s - {k}));
    }
  }

  lemma MultiplesResidues(a: int, p: Prime)
    requires a % p != 0
    ensures Multiples(Residues(p), a, p) == Residues(p)
  {
    var all := Residues(p);
    forall y | y in Multiples(all, a, p)
      ensures y in all
    {
      var x :| x in all && y == (a * x) % p;
      SmallRemainder(x, p);
      NonzeroProduct(p, a, x);
    }
    MultiplesProduct(all, a, p);
    SubsetOfSameSize(Multiples(all, a, p), all);
  }

  lemma SubsetOfSameSize<T>(s: set<T>, t: set<T>)
    requires s <= t && |s| == |t|
    ensures s == t
  {
    assert |t - s| == 0;
  }

  /** Fermat's little theorem. */
  lemma Fermat(a: int, p: Prime)
    requires a % p != 0
    ensures Cong(p, Pow(a, p - 1), 1)
  {
    hide *;
    var all := Residues(p);
    ResiduesSize(p);
    MultiplesResidues(a, p);
    MultiplesProduct(all, a, p);
    ProductNonzero(all, p);
    FermatStep(a, Product(all), p);
  }

  lemma FermatStep(a: int, f: int, p: Prime)
    requires f % p != 0 && Cong(p, f, Pow(a, p - 1) * f)
    ensures Cong(p, Pow(a, p - 1), 1)
  {
    hide Cong, Pow;
    assert Pow(a, p - 1) * f == f * Pow(a, p - 1) && f == f * 1;
    CongSymmetric(p, f, Pow(a, p - 1) * f);
    CongCancel(p, f, Pow(a, p - 1), 1);
  }

  /** So pow(a, p - 2, p) is an inverse. */
  lemma ExpInverts(a: int, p: Prime)
    requires a % p != 0
    ensures Cong(p, a * Exp(a, p - 2, p), 1)
  {
    hide Cong;
    Fermat(a, p);
    CongTimes(p, a, Exp(a, p - 2, p), Pow(a, p - 2));
    CongTrans(p, a * Exp(a, p - 2, p), Pow(a, p - 1), 1);
  }

  // ----- roots of unity

  /** w has exact order n. */
  ghost predicate RootOfUnity(w: int, n: nat, p: Prime) {
    && n >= 1 && 0 <= w < p && Cong(p, Pow(w, n), 1)
    && forall k :: 0 < k < n ==> !Cong(p, Pow(w, k), 1)
  }

  lemma MultiplePower(w: int, n: nat, q: nat, p: Prime)
    requires Cong(p, Pow(w, n), 1)
    ensures 0 <= n * q && Cong(p, Pow(w, n * q), 1)
  {
    PowPow(w, n, q);
    PowCong(p, Pow(w, n), 1, q);
    PowOne(q);
  }

  /** Exponents count modulo the order. */
  lemma PowReduce(w: int, n: nat, k: nat, p: Prime)
    requires n >= 1 && Cong(p, Pow(w, n), 1)
    ensures Cong(p, Pow(w, k), Pow(w, k % n))
  {
    hide Cong;
    var q, r := k / n, k % n;
    assert k == n * q + r;
    PowAdd(w, n * q, r);
    MultiplePower(w, n, q, p);
    CongEqual(p, Pow(w, r), Pow(w, r));
    CongMul(p, Pow(w, n * q), 1, Pow(w, r), Pow(w, r));
  }

  lemma PowIsOne(w: int, n: nat, k: nat, p: Prime)
    requires RootOfUnity(w, n, p)
    ensures Cong(p, Pow(w, k), 1) <==> k % n == 0
  {
    PowReduce(w, n, k, p);
    if k % n == 0 {
      assert Pow(w, k % n) == 1;
    }
  }

  lemma RootNonzero(w: int, n: nat, k: nat, p: Prime)
    requires RootOfUnity(w, n, p)
    ensures Pow(w, k) % p != 0
  {
    if Pow(w, k) % p == 0 {
      assert Cong(p, Pow(w, k), 0);
      PowCong(p, Pow(w, k), 0, n);
      PowPow(w, k, n);
      MultiplePower(w, n, k, p);
      assert n * k == k * n;
      assert Pow(0, n) == 0;
      SmallRemainder(1, p);
    }
  }

  /** Different powers are different elements. */
  lemma PowersApart(w: int, n: nat, i: nat, j: nat, p: Prime)
    requires RootOfUnity(w, n, p) && i < j < n
    ensures !Cong(p, Pow(w, i), Pow(w, j))
  {
    if Cong(p, Pow(w, i), Pow(w, j)) {
      PowAdd(w, i, j - i);
      RootNonzero(w, n, i, p);
      CongSymmetric(p, Pow(w, i) * 1, Pow(w, j));
      CongCancel(p, Pow(w, i), Pow(w, j - i), 1);
    }
  }

  /** Half way round lies minus one. */
  lemma HalfPower(w: int, n: nat, p: Prime)
    requires RootOfUnity(w, n, p) && n % 2 == 0
    ensures Cong(p, Pow(w, n / 2), -1)
  {
    var h := Pow(w, n / 2);
    PowAdd(w, n / 2, n / 2);
    assert n / 2 + n / 2 == n;
    CongDiff(p, Pow(w, n), 1);
    assert h * h - 1 == (h - 1) * (h + 1);
    CongDiff(p, h, 1);
    assert (h - 1) % p != 0;
    Cancel(p, h - 1, h + 1);
    CongDiff(p, h, -1);
  }

  lemma SquareRoot(w: int, n: nat, p: Prime)
    requires RootOfUnity(w, n, p) && n % 2 == 0
    ensures RootOfUnity((w * w) % p, n / 2, p)
    ensures forall k: nat :: Cong(p, Pow((w * w) % p, k), Pow(w, 2 * k))
  {
    var v := (w * w) % p;
    forall k: nat
      ensures Cong(p, Pow(v, k), Pow(w, 2 * k))
    {
      SquarePower(w, k, p);
    }
    forall k | 0 < k < n / 2
      ensures !Cong(p, Pow(v, k), 1)
    {
      assert !Cong(p, Pow(w, 2 * k), 1);
    }
    assert 2 * (n / 2) == n;
  }

  lemma SquarePower(w: int, k: nat, p: Prime)
    ensures Cong(p, Pow((w * w) % p, k), Pow(w, 2 * k))
  {
    CongMod(p, w * w);
    PowCong(p, (w * w) % p, w * w, k);
    assert Pow(w, 2) == w * w by {
      assert Pow(w, 2) == w * Pow(w, 1) == w * (w * Pow(w, 0));
    }
    PowPow(w, 2, k);
  }

  /** The last power before one is the inverse root. */
  lemma InverseRoot(w: int, n: nat, p: Prime)
    requires RootOfUnity(w, n, p)
    ensures RootOfUnity(Exp(w, n - 1, p), n, p)
    ensures Cong(p, w * Exp(w, n - 1, p), 1)
  {
    var u := Exp(w, n - 1, p);
    CongTimes(p, w, u, Pow(w, n - 1));
    assert Pow(w, n) == w * Pow(w, n - 1);
    forall k | 0 < k < n
      ensures !Cong(p, Pow(u, k), 1)
    {
      InversePower(w, u, n, k, p);
      assert !Cong(p, Pow(w, n - k), 1);
    }
    InversePower(w, u, n, n, p);
    assert Pow(w, 0) == 1;
  }

  lemma InversePower(w: int, u: int, n: nat, k: nat, p: Prime)
    requires Cong(p, w * u, 1) && Cong(p, Pow(w, n), 1) && k <= n
    ensures Cong(p, Pow(u, k), Pow(w, n - k))
  {
    hide Cong;
    PowCong(p, w * u, 1, k);
    PowOne(k);
    PowProduct(w, u, k);
    PowAdd(w, n - k, k);
    var a, b, c := Pow(w, n - k), Pow(w, k), Pow(u, k);
    CongTimes(p, a, b * c, 1);
    CongTimes(p, c, a * b, 1);
    assert a * (b * c) == c * (a * b);
    CongSymmetric(p, c * (a * b), c * 1);
    CongTrans(p, c * 1, c * (a * b), a * 1);
  }

  /** Only odd primes have roots of even order. */
  lemma OddPrime(w: int, n: nat, p: Prime)
    requires RootOfUnity(w, n, p) && n >= 2
    ensures p % 2 == 1
  {
    if p % 2 == 0 {
      assert IsPrime(p) && Divides(2, p);
      assert p == 2;
      RootNonzero(w, n, 1, p);
    }
  }

  ghost predicate PowerOfTwo(n: nat) {
    exists k: nat :: n == Pow(2, k)
  }

  lemma PowerOfTwoHalf(n: nat)
    requires PowerOfTwo(n)
    ensures n == 1 || (n % 2 == 0 && n >= 2 && PowerOfTwo(n / 2))
  {
    var k: nat :| n == Pow(2, k);
    if k > 0 {
      assert n / 2 == Pow(2, k - 1);
      PowPositive(k - 1);
    }
  }

  lemma {:induction false} PowPositive(k: nat)
    ensures Pow(2, k) >= 1
  {
    if k != 0 {
      PowPositive(k - 1);
    }
  }

  /** The length of the domain is invertible. */
  lemma {:induction false} PowerOfTwoInvertible(w: int, n: nat, p: Prime)
    requires RootOfUnity(w, n, p) && PowerOfTwo(n)
    ensures n % p != 0
  {
    var k: nat :| n == Pow(2, k);
    if n == 1 {
      SmallRemainder(1, p);
    } else {
      OddPrime(w, n, p);
      TwoPowerInvertible(k, p);
    }
  }

  lemma {:induction false} TwoPowerInvertible(k: nat, p: Prime)
    requires p % 2 == 1
    ensures Pow(2, k) % p != 0
  {
    if k == 0 {
      SmallRemainder(1, p);
    } else {
      TwoPowerInvertible(k - 1, p);
      SmallRemainder(2, p);
      NonzeroProduct(p, 2, Pow(2, k - 1));
    }
  }
}
