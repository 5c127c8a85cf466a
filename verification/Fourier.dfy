/** The Fourier transform over a prime field: verkle/utils/fft.py. */
module Fourier {
  import opened Field
  import opened Powers
  import opened Evaluation

  /** The values of a polynomial at the powers of w. */
  ghost function Transform(vals: seq<int>, w: int, p: Prime): (r: seq<int>)
    ensures |r| == |vals|
    ensures forall i :: 0 <= i < |r| ==> 0 <= r[i] < p && Cong(p, r[i], Ev(vals, Pow(w, i)))
  {
    seq(|vals|, i requires 0 <= i < |vals| => ValueAt(vals, w, i, p))
  }

  ghost function ValueAt(vals: seq<int>, w: int, i: nat, p: Prime): (r: int)
    ensures 0 <= r < p && Cong(p, r, Ev(vals, Pow(w, i)))
  {
    CongMod(p, Ev(vals, Pow(w, i)));
    Ev(vals, Pow(w, i)) % p
  }

  lemma TransformUnique(o: seq<int>, vals: seq<int>, w: int, p: Prime)
    requires |o| == |vals|
    requires forall i :: 0 <= i < |o| ==> 0 <= o[i] < p && Cong(p, o[i], Ev(vals, Pow(w, i)))
    ensures o == Transform(vals, w, p)
  {
    hide Ev, Pow;
    var r := Transform(vals, w, p);
    forall i | 0 <= i < |o|
      ensures o[i] == r[i]
    {
      SmallRemainder(o[i], p);
      SmallRemainder(r[i], p);
    }
  }

  /** The powers of w, reduced. */
  ghost predicate PowersOf(roots: seq<int>, w: int, p: Prime) {
    forall i :: 0 <= i < |roots| ==> Cong(p, roots[i], Pow(w, i))
  }

  // ----- the quadratic transform

  lemma SimpleStep(vals: seq<int>, p: Prime, roots: seq<int>, w: int, i: nat, j: nat, last: int)
    requires |vals| == |roots| && RootOfUnity(w, |roots|, p) && PowersOf(roots, w, p)
    requires i < |roots| && j < |roots| && 0 <= i * j
    requires Cong(p, last, Ev(vals[..j], Pow(w, i)))
    ensures Cong(p, last + vals[j] * roots[(i * j) % |roots|], Ev(vals[..j + 1], Pow(w, i)))
  {
    var n := |roots|;
    assert Cong(p, roots[(i * j) % n], Pow(w, (i * j) % n));
    PowReduce(w, n, i * j, p);
    PowPow(w, i, j);
    EvPrefix(vals, j, Pow(w, i));
    hide Cong;
    CongSymmetric(p, Pow(w, i * j), Pow(w, (i * j) % n));
    CongTrans(p, roots[(i * j) % n], Pow(w, (i * j) % n), Pow(w, i * j));
    CongTimes(p, vals[j], roots[(i * j) % n], Pow(w, i * j));
    CongAdd(p, last, Ev(vals[..j], Pow(w, i)), vals[j] * roots[(i * j) % n], vals[j] * Pow(w, i * j));
  }

  method SimpleFt(vals: seq<int>, p: Prime, roots: seq<int>, ghost w: int) returns (o: seq<int>)
    requires |vals| == |roots| && RootOfUnity(w, |roots|, p) && PowersOf(roots, w, p)
    ensures o == Transform(vals, w, p)
  {
    hide Cong, Ev, Pow, RootOfUnity, PowersOf;
    o := [];
    for i := 0 to |roots|
      invariant |o| == i
      invariant forall k :: 0 <= k < i ==> 0 <= o[k] < p && Cong(p, o[k], Ev(vals, Pow(w, k)))
    {
      var last := 0;
      EvNone(Pow(w, i), p);
      for j := 0 to |roots|
        invariant Cong(p, last, Ev(vals[..j], Pow(w, i)))
      {
        assert 0 <= i * j;
        SimpleStep(vals, p, roots, w, i, j, last);
        last := last + vals[j] * roots[(i * j) % |roots|];
      }
      assert vals[..|roots|] == vals;
      CongMod(p, last);
      CongTrans(p, last % p, last, Ev(vals, Pow(w, i)));
      o := o + [last % p];
    }
    TransformUnique(o, vals, w, p);
  }

  lemma EvNone(x: int, p: Prime)
    ensures Cong(p, 0, Ev([], x))
  {
  }

  // ----- the recursive transform

  /** A value of the whole from the values of the halves. */
  lemma Butterfly(vals: seq<int>, p: Prime, x: int, z: int, l: int, r: int, root: int)
    requires Cong(p, z, x * x) && Cong(p, root, x)
    requires Cong(p, l, Ev(Evens(vals), z)) && Cong(p, r, Ev(Odds(vals), z))
    ensures Cong(p, l + r * root, Ev(vals, x))
  {
    hide Cong, Ev;
    EvSplit(vals, x);
    var e, o := Ev(Evens(vals), x * x), Ev(Odds(vals), x * x);
    EvCong(p, Evens(vals), z, x * x);
    EvCong(p, Odds(vals), z, x * x);
    CongTrans(p, l, Ev(Evens(vals), z), e);
    CongTrans(p, r, Ev(Odds(vals), z), o);
    CongMul(p, r, o, root, x);
    CongAdd(p, l, e, r * root, o * x);
    assert o * x == x * o;
  }

  /** The two results of one step of the loop. */
  lemma ButterflyPair(vals: seq<int>, p: Prime, roots: seq<int>, w: int, v: int, i: nat, l: int, r: int)
    requires |vals| == |roots| && |vals| % 2 == 0 && RootOfUnity(w, |roots|, p) && PowersOf(roots, w, p)
    requires i < |vals| / 2 && Cong(p, Pow(v, i), Pow(w, 2 * i))
    requires Cong(p, l, Ev(Evens(vals), Pow(v, i))) && Cong(p, r, Ev(Odds(vals), Pow(v, i)))
    ensures Cong(p, l + r * roots[i], Ev(vals, Pow(w, i)))
    ensures Cong(p, l - r * roots[i], Ev(vals, Pow(w, i + |vals| / 2)))
  {
    var x, y := Pow(w, i), Pow(w, i + |vals| / 2);
    HalfWay(w, |vals|, i, p);
    assert Cong(p, roots[i], x);
    hide Cong, Ev, Pow, RootOfUnity, PowersOf;
    Opposite(p, x, y, Pow(v, i), roots[i]);
    Butterfly(vals, p, x, Pow(v, i), l, r, roots[i]);
    Butterfly(vals, p, y, Pow(v, i), l, r, -roots[i]);
    NegatedFactor(r, roots[i]);
  }

  lemma HalfWay(w: int, n: nat, i: nat, p: Prime)
    requires RootOfUnity(w, n, p) && n % 2 == 0
    ensures Pow(w, 2 * i) == Pow(w, i) * Pow(w, i)
    ensures Cong(p, Pow(w, i + n / 2), -Pow(w, i))
  {
    PowAdd(w, i, i);
    PowAdd(w, i, n / 2);
    HalfPower(w, n, p);
    hide Cong, Pow;
    CongTimes(p, Pow(w, i), Pow(w, n / 2), -1);
    assert Pow(w, i) * -1 == -Pow(w, i);
    assert i + i == 2 * i;
  }

  lemma Opposite(p: Prime, x: int, y: int, z: int, root: int)
    requires Cong(p, y, -x) && Cong(p, z, x * x) && Cong(p, root, x)
    ensures Cong(p, z, y * y) && Cong(p, -root, y)
  {
    hide Cong;
    CongSymmetric(p, y, -x);
    CongMul(p, -x, y, -x, y);
    assert -x * -x == x * x;
    CongTrans(p, z, x * x, y * y);
    CongSub(p, 0, 0, root, x) by { CongEqual(p, 0, 0); }
    CongTrans(p, -root, -x, y);
  }

  lemma HalfRoots(roots: seq<int>, w: int, p: Prime)
    requires |roots| % 2 == 0 && RootOfUnity(w, |roots|, p) && PowersOf(roots, w, p)
    ensures RootOfUnity((w * w) % p, |roots| / 2, p) && PowersOf(Evens(roots), (w * w) % p, p)
  {
    SquareRoot(w, |roots|, p);
  }

  method Fft(vals: seq<int>, p: Prime, roots: seq<int>, ghost w: int) returns (o: seq<int>)
    requires |vals| == |roots| && PowerOfTwo(|roots|) && RootOfUnity(w, |roots|, p) && PowersOf(roots, w, p)
    ensures o == Transform(vals, w, p)
    decreases |vals|
  {
    hide Cong, Ev, Pow, RootOfUnity, PowersOf, PowerOfTwo;
    if |vals| <= 4 {
      o := SimpleFt(vals, p, roots, w);
      return;
    }
    PowerOfTwoHalf(|vals|);
    HalfRoots(roots, w, p);
    ghost var v := (w * w) % p;
    var left := Fft(Evens(vals), p, Evens(roots), v);
    var right := Fft(Odds(vals), p, Evens(roots), v);
    o := seq(|vals|, _ => 0);
    var h := |left|;
    for i := 0 to h
      invariant |o| == |vals| == 2 * h
      invariant forall k :: 0 <= k < i ==> 0 <= o[k] < p && Cong(p, o[k], Ev(vals, Pow(w, k)))
      invariant forall k :: h <= k < h + i ==> 0 <= o[k] < p && Cong(p, o[k], Ev(vals, Pow(w, k)))
    {
      SquarePower(w, i, p);
      ButterflyPair(vals, p, roots, w, v, i, left[i], right[i]);
      var x, yTimesRoot := left[i], right[i] * roots[i];
      CongMod(p, x + yTimesRoot);
      CongTrans(p, (x + yTimesRoot) % p, x + yTimesRoot, Ev(vals, Pow(w, i)));
      CongMod(p, x - yTimesRoot);
      CongTrans(p, (x - yTimesRoot) % p, x - yTimesRoot, Ev(vals, Pow(w, i + h)));
      o := o[i := (x + yTimesRoot) % p];
      o := o[i + h := (x - yTimesRoot) % p];
    }
    TransformUnique(o, vals, w, p);
  }

  // ----- the domain

  /** The powers of w up to the first that is one again. */
  method ExpandRootOfUnity(w: int, p: Prime, ghost n: nat) returns (rootz: seq<int>)
    requires RootOfUnity(w, n, p)
    ensures |rootz| == n + 1
    ensures forall i :: 0 <= i <= n ==> 0 <= rootz[i] < p && Cong(p, rootz[i], Pow(w, i))
  {
    rootz := [1, w];
    assert Pow(w, 1) == w * Pow(w, 0) == w;
    SmallRemainder(1, p);
    while rootz[|rootz| - 1] != 1
      invariant 2 <= |rootz| <= n + 1
      invariant forall i :: 0 <= i < |rootz| ==> 0 <= rootz[i] < p && Cong(p, rootz[i], Pow(w, i))
      decreases n + 1 - |rootz|
    {
      var last := |rootz| - 1;
      StillRoot(w, n, last, rootz[last], p);
      CongMod(p, rootz[last] * w);
      CongMul(p, rootz[last], Pow(w, last), w, w);
      assert Pow(w, last) * w == Pow(w, last + 1);
      rootz := rootz + [(rootz[last] * w) % p];
    }
    DomainComplete(w, n, |rootz| - 1, p);
  }

  lemma StillRoot(w: int, n: nat, k: nat, r: int, p: Prime)
    requires RootOfUnity(w, n, p) && 0 < k <= n && 0 <= r < p && Cong(p, r, Pow(w, k)) && r != 1
    ensures k < n
  {
    SmallRemainder(1, p);
    SmallRemainder(r, p);
  }

  lemma DomainComplete(w: int, n: nat, k: nat, p: Prime)
    requires RootOfUnity(w, n, p) && 0 < k <= n && Cong(p, 1, Pow(w, k))
    ensures k == n
  {
  }

  function Padded(vals: seq<int>, n: nat): (r: seq<int>)
    requires |vals| <= n
    ensures |r| == n && forall i :: 0 <= i < n ==> r[i] == if i < |vals| then vals[i] else 0
  {
    vals + seq(n - |vals|, _ => 0)
  }

  /** The scaled transform over the inverse root. */
  ghost function InverseTransform(vals: seq<int>, w: int, p: Prime): (r: seq<int>)
    requires |vals| > 0
    ensures |r| == |vals|
  {
    var t := Transform(vals, Exp(w, |vals| - 1, p), p);
    seq(|vals|, i requires 0 <= i < |vals| => (t[i] * Exp(|vals|, p - 2, p)) % p)
  }

  method FftInto(vals: seq<int>, p: Prime, w: int, inv: bool, ghost n: nat) returns (o: seq<int>)
    requires RootOfUnity(w, n, p) && PowerOfTwo(n) && |vals| <= n
    ensures inv ==> o == InverseTransform(Padded(vals, n), w, p)
    ensures !inv ==> o == Transform(Padded(vals, n), w, p)
  {
    hide Cong, Ev, Pow, RootOfUnity, PowersOf, PowerOfTwo, Transform;
    RootPositive(w, n, p);
    var rootz := ExpandRootOfUnity(w, p, n);
    var padded := vals;
    if |rootz| > |vals| + 1 {
      padded := Padded(vals, |rootz| - 1);
    }
    assert padded == Padded(vals, n);
    if inv {
      var invlen := Exp(|padded|, p - 2, p);
      var m := |rootz| - 1;
      var reversed := seq(m, i requires 0 <= i < m => rootz[m - i]);
      ReversedPowers(rootz, reversed, w, n, p);
      var t := Fft(padded, p, reversed, Exp(w, n - 1, p));
      o := seq(|t|, i requires 0 <= i < |t| => (t[i] * invlen) % p);
    } else {
      PrefixPowers(rootz, w, n, p);
      o := Fft(padded, p, rootz[..|rootz| - 1], w);
    }
  }

  lemma RootPositive(w: int, n: nat, p: Prime)
    requires RootOfUnity(w, n, p)
    ensures n >= 1
  {
  }

  lemma PrefixPowers(rootz: seq<int>, w: int, n: nat, p: Prime)
    requires |rootz| == n + 1 && forall i :: 0 <= i <= n ==> Cong(p, rootz[i], Pow(w, i))
    ensures PowersOf(rootz[..n], w, p)
  {
  }

  lemma ReversedPowers(rootz: seq<int>, reversed: seq<int>, w: int, n: nat, p: Prime)
    requires RootOfUnity(w, n, p) && |rootz| == n + 1 && |reversed| == n
    requires forall i :: 0 <= i <= n ==> Cong(p, rootz[i], Pow(w, i))
    requires forall i :: 0 <= i < n ==> reversed[i] == rootz[n - i]
    ensures RootOfUnity(Exp(w, n - 1, p), n, p) && PowersOf(reversed, Exp(w, n - 1, p), p)
  {
    InverseRoot(w, n, p);
    var u := Exp(w, n - 1, p);
    forall i | 0 <= i < n
      ensures Cong(p, reversed[i], Pow(u, i))
    {
      InversePower(w, u, n, i, p);
    }
  }

  // ----- transforms and inverse transforms undo each other

  /** 1 + z + ... + z^(n-1). */
  ghost function Geometric(z: int, n: nat): int {
    if n == 0 then 0 else Geometric(z, n - 1) + Pow(z, n - 1)
  }

  lemma {:induction false} GeometricSum(z: int, n: nat)
    ensures (z - 1) * Geometric(z, n) == Pow(z, n) - 1
  {
    if n != 0 {
      GeometricSum(z, n - 1);
      var g, q := Geometric(z, n - 1), Pow(z, n - 1);
      assert (z - 1) * (g + q) == (z - 1) * g + (z - 1) * q;
    }
  }

  lemma {:induction false} GeometricOnes(p: Prime, z: int, n: nat)
    requires Cong(p, z, 1)
    ensures Cong(p, Geometric(z, n), n)
  {
    hide Cong;
    if n == 0 {
      CongEqual(p, Geometric(z, n), 0);
    } else {
      GeometricOnes(p, z, n - 1);
      PowCong(p, z, 1, n - 1);
      PowOne(n - 1);
      CongAdd(p, Geometric(z, n - 1), n - 1, Pow(z, n - 1), 1);
    }
  }

  /** The powers of a root of unity add up to nothing, except when all are one. */
  lemma RootsCancel(w: int, n: nat, s: nat, p: Prime)
    requires RootOfUnity(w, n, p)
    ensures Cong(p, Geometric(Pow(w, s), n), if s % n == 0 then n else 0)
  {
    var z := Pow(w, s);
    PowIsOne(w, n, s, p);
    if s % n == 0 {
      GeometricOnes(p, z, n);
    } else {
      GeometricSum(z, n);
      PowPow(w, s, n);
      assert s * n == n * s;
      MultiplePower(w, n, s, p);
      CongDiff(p, z, 1);
      CongDiff(p, Pow(z, n), 1);
      Cancel(p, z - 1, Geometric(z, n));
    }
  }

  /** The sum over the domain of the values of v, each times the s-th power of the point. */
  ghost function Moment(v: seq<int>, w: int, s: nat, n: nat): int {
    if n == 0 then 0 else Moment(v, w, s, n - 1) + Ev(v, Pow(w, n - 1)) * Pow(Pow(w, n - 1), s)
  }

  lemma {:induction false} MomentNone(w: int, s: nat, n: nat)
    ensures Moment([], w, s, n) == 0
  {
    if n != 0 {
      MomentNone(w, s, n - 1);
    }
  }

  lemma {:induction false} MomentSplit(v: seq<int>, w: int, s: nat, n: nat)
    requires v != []
    ensures Moment(v, w, s, n) == v[0] * Geometric(Pow(w, s), n) + Moment(v[1..], w, s + 1, n)
  {
    if n == 0 {
      assert v[0] * 0 == 0;
    } else {
      hide *;
      MomentSplit(v, w, s, n - 1);
      var x := Pow(w, n - 1);
      PowSwap(w, n - 1, s);
      MomentStep(v, w, s, n);
      MomentStep(v[1..], w, s + 1, n);
      GeometricStep(Pow(w, s), n);
      EvFirst(v, x);
      PowStep(x, s);
      TermSplit(v[0], x, Ev(v[1..], x), Pow(x, s), Geometric(Pow(w, s), n - 1));
    }
  }

  lemma MomentStep(v: seq<int>, w: int, s: nat, n: nat)
    requires n > 0
    ensures Moment(v, w, s, n) == Moment(v, w, s, n - 1) + Ev(v, Pow(w, n - 1)) * Pow(Pow(w, n - 1), s)
  {
  }

  lemma GeometricStep(z: int, n: nat)
    requires n > 0
    ensures Geometric(z, n) == Geometric(z, n - 1) + Pow(z, n - 1)
  {
  }

  lemma EvFirst(v: seq<int>, x: int)
    requires v != []
    ensures Ev(v, x) == v[0] + x * Ev(v[1..], x)
  {
  }

  lemma PowStep(x: int, k: nat)
    ensures Pow(x, k + 1) == x * Pow(x, k)
  {
  }

  /** Exponents can be taken in either order. */
  lemma PowSwap(w: int, j: nat, k: nat)
    ensures Pow(Pow(w, j), k) == Pow(Pow(w, k), j)
  {
    hide *;
    PowPow(w, j, k);
    PowPow(w, k, j);
    assert j * k == k * j;
  }

  /** A value times a power, taken apart at the first coefficient, and added to a sum. */
  lemma TermSplit(a: int, x: int, e: int, q: int, g: int)
    ensures a * g + (a + x * e) * q == a * (g + q) + e * (x * q)
  {
  }

  /** The coefficient that a moment picks out, times the size of the domain. */
  ghost function Picked(v: seq<int>, s: nat, n: nat): int {
    if s <= n && n - s < |v| then n * v[n - s] else 0
  }

  lemma PickedSplit(v: seq<int>, s: nat, n: nat)
    requires v != [] && 1 <= s && s < 2 * n
    ensures Picked(v, s, n) == v[0] * (if s % n == 0 then n else 0) + Picked(v[1..], s + 1, n)
  {
    DividesOnce(s, n);
  }

  lemma {:induction false} MomentValue(v: seq<int>, w: int, s: nat, n: nat, p: Prime)
    requires RootOfUnity(w, n, p) && 1 <= s && s + |v| <= 2 * n
    ensures Cong(p, Moment(v, w, s, n), Picked(v, s, n))
  {
    if v == [] {
      MomentNone(w, s, n);
    } else {
      MomentValue(v[1..], w, s + 1, n, p);
      hide *;
      PickedSplit(v, s, n);
      MomentSplit(v, w, s, n);
      RootsCancel(w, n, s, p);
      var g := if s % n == 0 then n else 0;
      CongTimes(p, v[0], Geometric(Pow(w, s), n), g);
      CongAdd(p, v[0] * Geometric(Pow(w, s), n), v[0] * g, Moment(v[1..], w, s + 1, n), Picked(v[1..], s + 1, n));
    }
  }

  lemma DividesOnce(s: nat, n: nat)
    requires 1 <= s < 2 * n
    ensures s % n == 0 <==> s == n
  {
    if s < n {
      SmallRemainder(s, n);
    } else {
      SmallRemainder(s - n, n);
      assert s % n == (s - n) % n;
    }
  }

  /** Evaluating the transform at an inverse power. */
  lemma {:induction false} EvTransform(v: seq<int>, w: int, u: int, k: nat, i: nat, p: Prime)
    requires k <= |v| && i <= |v| && Cong(p, Pow(u, k), Pow(w, |v| - k))
    ensures Cong(p, Ev(Transform(v, w, p)[..i], Pow(u, k)), Moment(v, w, |v| - k, i))
  {
    hide Cong, Transform, Ev, Pow;
    var t := Transform(v, w, p);
    if i == 0 {
      assert t[..0] == [] && Moment(v, w, |v| - k, 0) == 0;
      EvNone(Pow(u, k), p);
      CongSymmetric(p, 0, Ev([], Pow(u, k)));
    } else {
      EvTransform(v, w, u, k, i - 1, p);
      EvPrefix(t, i - 1, Pow(u, k));
      EvTerm(w, u, k, |v|, i - 1, p);
      MomentTerm(v, w, |v| - k, i);
      var x, y := Pow(Pow(u, k), i - 1), Pow(Pow(w, i - 1), |v| - k);
      hide Moment;
      CongMul(p, t[i - 1], Ev(v, Pow(w, i - 1)), x, y);
      CongAdd(p, Ev(t[..i - 1], Pow(u, k)), Moment(v, w, |v| - k, i - 1), t[i - 1] * x, Ev(v, Pow(w, i - 1)) * y);
    }
  }

  lemma EvTerm(w: int, u: int, k: nat, n: nat, i: nat, p: Prime)
    requires k <= n && Cong(p, Pow(u, k), Pow(w, n - k))
    ensures Cong(p, Pow(Pow(u, k), i), Pow(Pow(w, i), n - k))
  {
    PowCong(p, Pow(u, k), Pow(w, n - k), i);
    PowPow(w, n - k, i);
    PowPow(w, i, n - k);
    assert (n - k) * i == i * (n - k);
  }

  lemma MomentTerm(v: seq<int>, w: int, s: nat, i: nat)
    requires i > 0
    ensures Moment(v, w, s, i) == Moment(v, w, s, i - 1) + Ev(v, Pow(w, i - 1)) * Pow(Pow(w, i - 1), s)
  {
  }

  /** Transforming twice, the second time over the inverse root, multiplies by the length. */
  lemma DoubleTransform(v: seq<int>, w: int, u: int, k: nat, p: Prime)
    requires RootOfUnity(w, |v|, p) && Cong(p, w * u, 1) && k < |v|
    ensures Cong(p, Ev(Transform(v, w, p), Pow(u, k)), |v| * v[k])
  {
    var n, t := |v|, Transform(v, w, p);
    InversePower(w, u, n, k, p);
    EvTransform(v, w, u, k, n, p);
    assert t[..n] == t;
    MomentValue(v, w, n - k, n, p);
    assert Picked(v, n - k, n) == n * v[k];
    CongTrans(p, Ev(t, Pow(u, k)), Moment(v, w, n - k, n), n * v[k]);
  }

  ghost predicate ReducedList(v: seq<int>, p: Prime) {
    forall i :: 0 <= i < |v| ==> 0 <= v[i] < p
  }

  lemma Unscale(p: Prime, n: int, t: int, e: int, c: int)
    requires n % p != 0 && Cong(p, t, e) && Cong(p, e, n * c) && 0 <= c < p
    ensures (t * Exp(n, p - 2, p)) % p == c
  {
    hide Cong, Exp;
    var i := Exp(n, p - 2, p);
    ExpInverts(n, p);
    CongTrans(p, t, e, n * c);
    CongTimes(p, i, t, n * c);
    CongTimes(p, c, n * i, 1);
    assert i * (n * c) == c * (n * i) && i * t == t * i && c * 1 == c;
    CongTrans(p, t * i, c * (n * i), c);
    SameRemainder(p, t * i, c);
  }

  lemma SameRemainder(p: Prime, a: int, c: int)
    requires Cong(p, a, c) && 0 <= c < p
    ensures a % p == c
  {
    SmallRemainder(c, p);
  }

  /** The inverse transform undoes the transform. */
  lemma InverseOfTransform(v: seq<int>, w: int, p: Prime)
    requires RootOfUnity(w, |v|, p) && PowerOfTwo(|v|) && ReducedList(v, p)
    ensures InverseTransform(Transform(v, w, p), w, p) == v
  {
    var n, t := |v|, Transform(v, w, p);
    var u := Exp(w, n - 1, p);
    InverseRoot(w, n, p);
    PowerOfTwoInvertible(w, n, p);
    var t' := Transform(t, u, p);
    hide Transform, Ev, Pow, Cong, RootOfUnity;
    forall k | 0 <= k < n
      ensures InverseTransform(t, w, p)[k] == v[k]
    {
      DoubleTransform(v, w, u, k, p);
      Unscale(p, n, t'[k], Ev(t, Pow(u, k)), v[k]);
    }
  }

  /** c has the given values on the domain. */
  ghost predicate Interpolates(c: seq<int>, vals: seq<int>, w: int, p: Prime) {
    |c| == |vals| && forall i :: 0 <= i < |vals| ==> Cong(p, vals[i], Ev(c, Pow(w, i)))
  }

  lemma InverseInterpolates(v: seq<int>, w: int, p: Prime)
    requires RootOfUnity(w, |v|, p) && PowerOfTwo(|v|)
    ensures Interpolates(InverseTransform(v, w, p), v, w, p)
  {
    var n, u := |v|, Exp(w, |v| - 1, p);
    InverseRoot(w, n, p);
    PowerOfTwoInvertible(w, n, p);
    var t, c := Transform(v, u, p), InverseTransform(v, w, p);
    assert u * w == w * u;
    hide Transform, Ev, Pow, Cong, RootOfUnity;
    forall k | 0 <= k < n
      ensures Cong(p, v[k], Ev(c, Pow(w, k)))
    {
      DoubleTransform(v, u, w, k, p);
      ScaledValue(c, t, n, v[k], Pow(w, k), p);
    }
  }

  /** The transform undoes the inverse transform. */
  lemma TransformOfInverse(v: seq<int>, w: int, p: Prime)
    requires RootOfUnity(w, |v|, p) && PowerOfTwo(|v|) && ReducedList(v, p)
    ensures Transform(InverseTransform(v, w, p), w, p) == v
  {
    InverseInterpolates(v, w, p);
    TransformUnique(v, InverseTransform(v, w, p), w, p);
  }

  lemma ScaledValue(c: seq<int>, t: seq<int>, n: nat, v: int, x: int, p: Prime)
    requires |c| == |t| && n % p != 0
    requires forall i :: 0 <= i < |c| ==> c[i] == (t[i] * Exp(n, p - 2, p)) % p
    requires Cong(p, Ev(t, x), n * v)
    ensures Cong(p, v, Ev(c, x))
  {
    hide Cong, Exp, Ev;
    var i := Exp(n, p - 2, p);
    var scaled := seq(|t|, k requires 0 <= k < |t| => i * t[k]);
    forall k | 0 <= k < |c|
      ensures Cong(p, c[k], scaled[k])
    {
      FactorsCommute(i, t[k]);
      CongMod(p, t[k] * i);
    }
    EvCoefficients(p, c, scaled, x);
    EvScale(t, i, scaled, x);
    ExpInverts(n, p);
    CongTimes(p, i, Ev(t, x), n * v);
    CongTimes(p, v, n * i, 1);
    FactorsExchange(i, n, v);
    CongTrans(p, Ev(c, x), i * Ev(t, x), v * (n * i));
    CongTrans(p, Ev(c, x), v * (n * i), v);
    CongSymmetric(p, Ev(c, x), v);
  }

  /** The domain points determine a polynomial of their number. */
  lemma TransformInjective(u: seq<int>, v: seq<int>, w: int, p: Prime)
    requires |u| == |v| && RootOfUnity(w, |v|, p) && PowerOfTwo(|v|) && ReducedList(u, p) && ReducedList(v, p)
    requires Transform(u, w, p) == Transform(v, w, p)
    ensures u == v
  {
    InverseOfTransform(u, w, p);
    InverseOfTransform(v, w, p);
  }

  // ----- evaluation without interpolation

  lemma HalfOf(p: Prime, a: int, e: int)
    requires p % 2 == 1 && Cong(p, a, 2 * e)
    ensures Cong(p, (a * ((p + 1) / 2)) % p, e)
  {
    var half := (p + 1) / 2;
    assert 2 * half == 1 + 1 * p;
    CongIntro(p, 2 * half, 1, 1);
    hide Cong;
    CongMod(p, a * half);
    CongTimes(p, half, a, 2 * e);
    CongTimes(p, e, 2 * half, 1);
    assert half * (2 * e) == e * (2 * half) && half * a == a * half;
    CongTrans(p, (a * half) % p, half * (2 * e), e * (2 * half));
    CongTrans(p, (a * half) % p, e * (2 * half), e * 1);
  }

  /** The even and the odd part at one point and its opposite. */
  lemma Parts(c: seq<int>, p: Prime, X: int, Y: int, Z: int, f: int, g: int)
    requires p % 2 == 1 && Cong(p, Y, -X) && Cong(p, Z, X * X)
    requires Cong(p, f, Ev(c, X)) && Cong(p, g, Ev(c, Y))
    ensures Cong(p, ((f + g) * ((p + 1) / 2)) % p, Ev(Evens(c), Z))
    ensures Cong(p, ((f - g) * ((p + 1) / 2)) % p, X * Ev(Odds(c), Z))
  {
    hide Cong, Ev;
    var e, o := Ev(Evens(c), X * X), Ev(Odds(c), X * X);
    EvSplit(c, X);
    EvSplit(c, -X);
    assert -X * -X == X * X && -X * o == -(X * o);
    EvCong(p, c, Y, -X);
    CongTrans(p, g, Ev(c, Y), Ev(c, -X));
    CongAdd(p, f, e + X * o, g, e - X * o);
    CongSub(p, f, e + X * o, g, e - X * o);
    HalfOf(p, f + g, e);
    HalfOf(p, f - g, X * o);
    EvCong(p, Evens(c), Z, X * X);
    EvCong(p, Odds(c), Z, X * X);
    CongSymmetric(p, Ev(Evens(c), Z), e);
    CongTimes(p, X, Ev(Odds(c), Z), o);
    CongSymmetric(p, X * Ev(Odds(c), Z), X * o);
    CongTrans(p, ((f + g) * ((p + 1) / 2)) % p, e, Ev(Evens(c), Z));
    CongTrans(p, ((f - g) * ((p + 1) / 2)) % p, X * o, X * Ev(Odds(c), Z));
  }

  lemma Combine(p: Prime, X: int, U: int, x: int, o: int, e: int, O: int, E: int)
    requires Cong(p, X * U, 1) && Cong(p, o, X * O) && Cong(p, e, E)
    ensures Cong(p, (o * x * U + e) % p, E + x * O)
  {
    hide Cong;
    CongMod(p, o * x * U + e);
    CongTimes(p, x * U, o, X * O);
    CongTimes(p, x * O, X * U, 1);
    FourFactors(x, U, O, X);
    assert X * O == O * X && U * X == X * U;
    Associate(o, x, U);
    assert x * U * o == o * (x * U) && x * O * 1 == x * O;
    CongTrans(p, o * x * U, x * O * (X * U), x * O);
    CongAdd(p, o * x * U, x * O, e, E);
    CongTrans(p, (o * x * U + e) % p, o * x * U + e, E + x * O);
  }

  lemma InverseAt(w: int, n: nat, i: nat, p: Prime)
    requires RootOfUnity(w, n, p)
    ensures Cong(p, Pow(w, i) * Pow(Exp(w, n - 1, p), i), 1)
  {
    var u := Exp(w, n - 1, p);
    InverseRoot(w, n, p);
    PowProduct(w, u, i);
    PowCong(p, w * u, 1, i);
    PowOne(i);
  }

  ghost function Folded(c: seq<int>, x: int): (r: seq<int>)
    requires |c| % 2 == 0
  {
    Plus(Evens(c), Odds(c), x)
  }

  lemma FoldedEv(c: seq<int>, x: int, z: int)
    requires |c| % 2 == 0
    ensures Ev(Folded(c, x), z) == Ev(Evens(c), z) + x * Ev(Odds(c), z)
  {
    EvPlus(Evens(c), Odds(c), x, z);
  }

  lemma InterpolatedAt(c: seq<int>, vals: seq<int>, w: int, i: nat, p: Prime)
    requires Interpolates(c, vals, w, p) && i < |vals|
    ensures |c| == |vals| && Cong(p, vals[i], Ev(c, Pow(w, i)))
  {
  }

  /** One value of the folded polynomial. */
  lemma FoldedValue(c: seq<int>, vals: seq<int>, w: int, x: int, i: nat, p: Prime)
    requires Interpolates(c, vals, w, p) && RootOfUnity(w, |vals|, p) && |vals| % 2 == 0 && |vals| >= 2
    requires i < |vals| / 2
    ensures var h, half := |vals| / 2, (p + 1) / 2;
      var even, odd := ((vals[i] + vals[i + h]) * half) % p, ((vals[i] - vals[i + h]) * half) % p;
      Cong(p, (odd * x * Pow(Exp(w, |vals| - 1, p), i) + even) % p, Ev(Folded(c, x), Pow((w * w) % p, i)))
  {
    var h, half := |vals| / 2, (p + 1) / 2;
    var even, odd := ((vals[i] + vals[i + h]) * half) % p, ((vals[i] - vals[i + h]) * half) % p;
    var X, Y, Z := Pow(w, i), Pow(w, i + h), Pow((w * w) % p, i);
    hide *;
    HalfWay(w, |vals|, i, p);
    SquarePower(w, i, p);
    OddPrime(w, |vals|, p);
    InterpolatedAt(c, vals, w, i, p);
    InterpolatedAt(c, vals, w, i + h, p);
    Parts(c, p, X, Y, Z, vals[i], vals[i + h]);
    InverseAt(w, |vals|, i, p);
    FoldedEv(c, x, Z);
    Combine(p, X, Pow(Exp(w, |vals| - 1, p), i), x, odd, even, Ev(Odds(c), Z), Ev(Evens(c), Z));
  }

  lemma FoldedAtSquare(c: seq<int>, x: int, r: int, p: Prime)
    requires |c| % 2 == 0 && Cong(p, r, Ev(Folded(c, x), (x * x) % p))
    ensures Cong(p, r, Ev(c, x))
  {
    hide Cong, Ev;
    CongMod(p, x * x);
    EvCong(p, Folded(c, x), (x * x) % p, x * x);
    EvPlus(Evens(c), Odds(c), x, x * x);
    EvSplit(c, x);
    CongTrans(p, r, Ev(Folded(c, x), (x * x) % p), Ev(c, x));
  }

  /** The value at x of the polynomial with the given values on the domain. */
  method InvFftAtPoint(vals: seq<int>, p: Prime, w: int, x: int) returns (r: int)
    requires RootOfUnity(w, |vals|, p) && PowerOfTwo(|vals|)
    ensures forall c: seq<int> :: Interpolates(c, vals, w, p) ==> Cong(p, r, Ev(c, x))
    decreases |vals|
  {
    hide Cong, Ev, Pow, RootOfUnity, PowerOfTwo, Interpolates, Exp, Folded;
    RootPositive(w, |vals|, p);
    PowerOfTwoHalf(|vals|);
    if |vals| == 1 {
      r := vals[0];
      ConstantValues(vals, w, x, p);
      return;
    }
    var half := (p + 1) / 2;
    var invRoot := Exp(w, |vals| - 1, p);
    var h := |vals| / 2;
    var ofMinusX := vals[h..] + vals[..h];
    var evens := seq(|vals|, i requires 0 <= i < |vals| => ((vals[i] + ofMinusX[i]) * half) % p);
    var odds := seq(|vals|, i requires 0 <= i < |vals| => ((vals[i] - ofMinusX[i]) * half) % p);
    var comb := seq(|vals|, i requires 0 <= i < |vals| => (odds[i] * x * Pow(invRoot, i) + evens[i]) % p);
    SquareRoot(w, |vals|, p);
    r := InvFftAtPoint(comb[..h], p, (w * w) % p, (x * x) % p);
    forall c: seq<int> | Interpolates(c, vals, w, p)
      ensures Cong(p, r, Ev(c, x))
    {
      FoldedInterpolates(c, vals, w, x, comb[..h], p);
      FoldedAtSquare(c, x, r, p);
    }
  }

  lemma ConstantValues(vals: seq<int>, w: int, x: int, p: Prime)
    requires |vals| == 1
    ensures forall c: seq<int> :: Interpolates(c, vals, w, p) ==> Cong(p, vals[0], Ev(c, x))
  {
    forall c: seq<int> | Interpolates(c, vals, w, p)
      ensures Cong(p, vals[0], Ev(c, x))
    {
      assert c == [c[0]] && Ev(c, x) == c[0] + x * Ev([], x) && Ev(c, Pow(w, 0)) == c[0] + Pow(w, 0) * Ev([], Pow(w, 0));
    }
  }

  lemma FoldedInterpolates(c: seq<int>, vals: seq<int>, w: int, x: int, comb: seq<int>, p: Prime)
    requires Interpolates(c, vals, w, p) && RootOfUnity(w, |vals|, p) && |vals| % 2 == 0 && |vals| >= 2
    requires |comb| == |vals| / 2
    requires forall i :: 0 <= i < |comb| ==>
      comb[i] == ((((vals[i] - vals[i + |comb|]) * ((p + 1) / 2)) % p) * x * Pow(Exp(w, |vals| - 1, p), i)
        + ((vals[i] + vals[i + |comb|]) * ((p + 1) / 2)) % p) % p
    ensures |c| % 2 == 0 && Interpolates(Folded(c, x), comb, (w * w) % p, p)
  {
    hide Cong, Ev, Pow, RootOfUnity, Exp;
    forall i | 0 <= i < |comb|
      ensures Cong(p, comb[i], Ev(Folded(c, x), Pow((w * w) % p, i)))
    {
      FoldedValue(c, vals, w, x, i, p);
    }
  }

  /** It is the value of the polynomial that the inverse transform recovers. */
  lemma AtPointOfInverse(vals: seq<int>, w: int, x: int, r: int, p: Prime)
    requires RootOfUnity(w, |vals|, p) && PowerOfTwo(|vals|)
    requires forall c: seq<int> :: Interpolates(c, vals, w, p) ==> Cong(p, r, Ev(c, x))
    ensures Cong(p, r, Ev(InverseTransform(vals, w, p), x))
  {
    InverseInterpolates(vals, w, p);
  }
}
