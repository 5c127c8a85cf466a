/** Sums of subsets and linear combinations in a commutative group:
    verkle/utils/multicombs.py. */
module Combinations {
  import Field

  ghost predicate CommutativeMonoid<T(!new)>(add: (T, T) -> T, zero: T) {
    && (forall x, y :: add(x, y) == add(y, x))
    && (forall x, y, z :: add(add(x, y), z) == add(x, add(y, z)))
    && (forall x :: add(zero, x) == x)
  }

  lemma ZeroRight<T(!new)>(add: (T, T) -> T, zero: T, x: T)
    requires CommutativeMonoid(add, zero)
    ensures add(x, zero) == x && add(zero, x) == x
  {
    assert add(x, zero) == add(zero, x);
  }

  lemma Associates<T(!new)>(add: (T, T) -> T, zero: T, x: T, y: T, z: T)
    requires CommutativeMonoid(add, zero)
    ensures add(add(x, y), z) == add(x, add(y, z))
    ensures add(add(x, y), z) == add(add(x, z), y)
  {
    assert add(add(x, z), y) == add(x, add(z, y));
  }

  lemma Exchange<T(!new)>(add: (T, T) -> T, zero: T, a: T, b: T, c: T, d: T)
    requires CommutativeMonoid(add, zero)
    ensures add(add(a, b), add(c, d)) == add(add(a, c), add(b, d))
  {
    Associates(add, zero, add(a, b), c, d);
    Associates(add, zero, a, b, c);
    Associates(add, zero, add(a, c), b, d);
  }

  /** x added up k times. */
  ghost function Times<T>(k: nat, x: T, add: (T, T) -> T, zero: T): T {
    if k == 0 then zero else add(Times(k - 1, x, add, zero), x)
  }

  /** The sum of the numbers whose indices are in the subset. */
  ghost function SubsetSum<T>(numbers: seq<T>, subset: set<nat>, add: (T, T) -> T, zero: T): T {
    if numbers == [] then zero
    else
      var last := |numbers| - 1;
      var before := SubsetSum(numbers[..last], subset, add, zero);
      if last in subset then add(before, numbers[last]) else before
  }

  /** The sum of numbers[i] taken factors[i] times. */
  ghost function Combination<T>(numbers: seq<T>, factors: seq<nat>, add: (T, T) -> T, zero: T): T
    requires |factors| >= |numbers|
  {
    if numbers == [] then zero
    else
      var last := |numbers| - 1;
      add(Combination(numbers[..last], factors, add, zero), Times(factors[last], numbers[last], add, zero))
  }

  // ----- partitions with tables of all their sums

  function Power2(k: nat): (r: nat)
    ensures r >= 1
  {
    if k == 0 then 1 else 2 * Power2(k - 1)
  }

  /** The sum of the values selected by the bits of an index. */
  ghost function BitsSum<T>(values: seq<T>, index: nat, add: (T, T) -> T, zero: T): T {
    if values == [] then zero
    else
      var last := |values| - 1;
      var before := BitsSum(values[..last], index % Power2(last), add, zero);
      if index / Power2(last) % 2 == 1 then add(before, values[last]) else before
  }

  lemma SmallIndex(index: nat, n: nat)
    requires index < n
    ensures index % n == index && index / n == 0
    ensures (index + n) % n == index && (index + n) / n == 1
  {
  }

  /** The sums of all selections, in the order of their bit patterns. */
  method PowerSet<T(!new)>(values: seq<T>, add: (T, T) -> T, zero: T) returns (sums: seq<T>)
    ensures |sums| == Power2(|values|)
    ensures forall m :: 0 <= m < |sums| ==> sums[m] == BitsSum(values, m, add, zero)
  {
    sums := [zero];
    for dimension := 0 to |values|
      invariant |sums| == Power2(dimension)
      invariant forall m :: 0 <= m < |sums| ==> sums[m] == BitsSum(values[..dimension], m, add, zero)
    {
      var value := values[dimension];
      var more := seq(|sums|, i requires 0 <= i < |sums| => add(sums[i], value));
      forall m | 0 <= m < |sums|
        ensures BitsSum(values[..dimension + 1], m, add, zero) == sums[m]
        ensures BitsSum(values[..dimension + 1], m + |sums|, add, zero) == more[m]
      {
        TableDoubles(values, dimension, m, add, zero);
      }
      hide BitsSum;
      assert forall m :: |sums| <= m < 2 * |sums| ==> (sums + more)[m] == more[m - |sums|] && m - |sums| + |sums| == m;
      sums := sums + more;
    }
    assert values[..|values|] == values;
  }

  /** The two halves of the next table. */
  lemma TableDoubles<T>(values: seq<T>, d: nat, m: nat, add: (T, T) -> T, zero: T)
    requires d < |values| && m < Power2(d)
    ensures BitsSum(values[..d + 1], m, add, zero) == BitsSum(values[..d], m, add, zero)
    ensures BitsSum(values[..d + 1], m + Power2(d), add, zero) == add(BitsSum(values[..d], m, add, zero), values[d])
  {
    hide Power2;
    var front, d2 := values[..d + 1], Power2(d);
    assert front[..d] == values[..d];
    SmallIndex(m, d2);
    assert (m + d2) / d2 % 2 == 1 && m / d2 % 2 == 0;
  }

  lemma SelectBit(index: nat, j: nat)
    requires index < Power2(j)
    ensures index < Power2(j + 1) && index + Power2(j) < Power2(j + 1)
    ensures index % Power2(j) == index && index / Power2(j) % 2 == 0
    ensures (index + Power2(j)) % Power2(j) == index && (index + Power2(j)) / Power2(j) % 2 == 1
  {
    SmallIndex(index, Power2(j));
  }

  /** One partition: the table entry adds the numbers of the subset that lie in it. */
  method IndexInPowerSet<T(!new)>(numbers: seq<T>, subset: set<nat>, start: nat, size: nat,
                            ghost add: (T, T) -> T, ghost zero: T) returns (index: nat)
    requires start + size <= |numbers| && CommutativeMonoid(add, zero)
    ensures index < Power2(size)
    ensures SubsetSum(numbers[..start + size], subset, add, zero)
      == add(SubsetSum(numbers[..start], subset, add, zero), BitsSum(numbers[start..start + size], index, add, zero))
  {
    hide CommutativeMonoid;
    index := 0;
    ghost var base := SubsetSum(numbers[..start], subset, add, zero);
    ZeroRight(add, zero, base);
    for j := 0 to size
      invariant index < Power2(j)
      invariant SubsetSum(numbers[..start + j], subset, add, zero)
        == add(base, BitsSum(numbers[start..start + j], index, add, zero))
    {
      SelectBit(index, j);
      assert numbers[..start + j + 1][..start + j] == numbers[..start + j];
      assert numbers[start..start + j + 1][..j] == numbers[start..start + j];
      Associates(add, zero, base, BitsSum(numbers[start..start + j], index, add, zero), numbers[start + j]);
      if start + j in subset {
        index := index + Power2(j);
      }
    }
  }

  method SumOfSubset<T(!new)>(numbers: seq<T>, powerSets: seq<seq<T>>, subset: set<nat>, partitionSize: nat,
                              add: (T, T) -> T, zero: T) returns (o: T)
    requires CommutativeMonoid(add, zero) && |numbers| == |powerSets| * partitionSize
    requires ArePowerSets(powerSets, numbers, partitionSize, add, zero)
    ensures o == SubsetSum(numbers, subset, add, zero)
  {
    hide CommutativeMonoid, SubsetSum, BitsSum;
    o := zero;
    SumOfNone(numbers[..0], subset, add, zero);
    for i := 0 to |powerSets|
      invariant 0 <= i * partitionSize <= |numbers|
      invariant o == SubsetSum(numbers[..i * partitionSize], subset, add, zero)
    {
      assert IsPowerSetAt(powerSets[i], numbers, i * partitionSize, partitionSize, add, zero);
      assert (i + 1) * partitionSize == i * partitionSize + partitionSize;
      var index := IndexInPowerSet(numbers, subset, i * partitionSize, partitionSize, add, zero);
      o := add(o, powerSets[i][index]);
    }
    assert numbers[..|numbers|] == numbers;
  }

  lemma SumOfNone<T>(numbers: seq<T>, subset: set<nat>, add: (T, T) -> T, zero: T)
    requires numbers == []
    ensures SubsetSum(numbers, subset, add, zero) == zero
  {
  }

  ghost predicate IsPowerSet<T>(sums: seq<T>, values: seq<T>, add: (T, T) -> T, zero: T) {
    |sums| == Power2(|values|) && forall m :: 0 <= m < |sums| ==> sums[m] == BitsSum(values, m, add, zero)
  }

  /** One table for every partition of the numbers so far. */
  ghost predicate ArePowerSets<T>(powerSets: seq<seq<T>>, numbers: seq<T>, size: nat, add: (T, T) -> T, zero: T) {
    forall i :: 0 <= i < |powerSets| ==> IsPowerSetAt(powerSets[i], numbers, i * size, size, add, zero)
  }

  ghost predicate IsPowerSetAt<T>(sums: seq<T>, numbers: seq<T>, start: int, size: nat, add: (T, T) -> T, zero: T) {
    0 <= start && start + size <= |numbers| && IsPowerSet(sums, numbers[start..start + size], add, zero)
  }

  /** Appended zeros change no sum. */
  lemma PaddingSum<T(!new)>(numbers: seq<T>, subset: set<nat>, add: (T, T) -> T, zero: T)
    requires CommutativeMonoid(add, zero)
    ensures SubsetSum(numbers + [zero], subset, add, zero) == SubsetSum(numbers, subset, add, zero)
  {
    assert (numbers + [zero])[..|numbers|] == numbers;
    ZeroRight(add, zero, SubsetSum(numbers, subset, add, zero));
  }

  lemma AlignStep(n: nat, size: nat)
    requires size > 0 && n % size != 0
    ensures (n + 1) % size == 0 || (n + 1) % size == n % size + 1
  {
    var q, r := n / size, n % size;
    assert n + 1 == q * size + (r + 1);
    if r + 1 < size {
      SmallIndex(r + 1, size);
      ModuloOffset(q, r + 1, size);
    } else {
      ModuloOffset(q + 1, 0, size);
    }
  }

  lemma ModuloOffset(q: nat, r: nat, size: nat)
    requires r < size
    ensures (q * size + r) % size == r && (q * size + r) / size == q
  {
    var a, b := (q * size + r) / size, (q * size + r) % size;
    assert q * size + r == a * size + b;
    assert (q - a) * size == b - r;
    Field.SmallMultiple(size, q - a);
  }

  method Multisubset2<T(!new)>(numbers: seq<T>, subsets: seq<set<nat>>, partitionSize: nat, add: (T, T) -> T, zero: T)
    returns (subsetSums: seq<T>)
    requires partitionSize > 0 && CommutativeMonoid(add, zero)
    ensures |subsetSums| == |subsets|
    ensures forall k :: 0 <= k < |subsets| ==> subsetSums[k] == SubsetSum(numbers, subsets[k], add, zero)
  {
    hide CommutativeMonoid, SubsetSum, BitsSum;
    var aligned := Align(numbers, partitionSize, add, zero);
    var powerSets := PowerSets(aligned, partitionSize, add, zero);
    subsetSums := [];
    for k := 0 to |subsets|
      invariant |subsetSums| == k
      invariant forall i :: 0 <= i < k ==> subsetSums[i] == SubsetSum(numbers, subsets[i], add, zero)
    {
      var o := SumOfSubset(aligned, powerSets, subsets[k], partitionSize, add, zero);
      subsetSums := subsetSums + [o];
    }
  }

  method Align<T(!new)>(numbers: seq<T>, partitionSize: nat, ghost add: (T, T) -> T, zero: T) returns (aligned: seq<T>)
    requires partitionSize > 0 && CommutativeMonoid(add, zero)
    ensures |aligned| % partitionSize == 0
    ensures forall subset :: SubsetSum(aligned, subset, add, zero) == SubsetSum(numbers, subset, add, zero)
  {
    hide CommutativeMonoid, SubsetSum;
    aligned := numbers;
    while |aligned| % partitionSize != 0
      invariant forall subset :: SubsetSum(aligned, subset, add, zero) == SubsetSum(numbers, subset, add, zero)
      decreases if |aligned| % partitionSize == 0 then 0 else partitionSize - |aligned| % partitionSize
    {
      AlignStep(|aligned|, partitionSize);
      forall subset
        ensures SubsetSum(aligned + [zero], subset, add, zero) == SubsetSum(numbers, subset, add, zero)
      {
        PaddingSum(aligned, subset, add, zero);
      }
      aligned := aligned + [zero];
    }
  }

  method PowerSets<T(!new)>(numbers: seq<T>, partitionSize: nat, add: (T, T) -> T, zero: T) returns (powerSets: seq<seq<T>>)
    requires partitionSize > 0 && |numbers| % partitionSize == 0
    ensures |numbers| == |powerSets| * partitionSize
    ensures ArePowerSets(powerSets, numbers, partitionSize, add, zero)
  {
    hide BitsSum;
    powerSets := [];
    var start := 0;
    while start < |numbers|
      invariant start == |powerSets| * partitionSize <= |numbers|
      invariant ArePowerSets(powerSets, numbers, partitionSize, add, zero)
      decreases |numbers| - start
    {
      RoomForOne(|numbers|, |powerSets|, partitionSize);
      var sums := PowerSet(numbers[start..start + partitionSize], add, zero);
      assert IsPowerSetAt(sums, numbers, start, partitionSize, add, zero);
      powerSets := powerSets + [sums];
      start := start + partitionSize;
    }
  }

  lemma RoomForOne(n: nat, k: nat, size: nat)
    requires size > 0 && n % size == 0 && k * size < n
    ensures (k + 1) * size == k * size + size <= n
  {
    var q := n / size;
    assert n == q * size;
    assert (q - k) * size == n - k * size;
    Field.MulAtLeast(q - k, size);
    assert (k + 1) * size == k * size + size;
  }

  // ----- linear combinations

  predicate Bit(f: nat, j: nat) {
    f / Power2(j) % 2 == 1
  }

  function BitLength(f: nat): (r: nat)
    ensures r >= 1 && f < Power2(r)
  {
    if f < 2 then 1 else 1 + BitLength(f / 2)
  }

  function ShiftRight(f: nat, j: nat): nat {
    DivNonnegative(f, Power2(j));
    f / Power2(j)
  }

  lemma DivNonnegative(f: nat, d: nat)
    requires d >= 1
    ensures f / d >= 0
  {
  }

  ghost function Shifted(factors: seq<nat>, j: nat): (r: seq<nat>)
    ensures |r| == |factors| && forall i :: 0 <= i < |r| ==> r[i] == ShiftRight(factors[i], j)
  {
    seq(|factors|, i requires 0 <= i < |factors| => ShiftRight(factors[i], j))
  }

  lemma ShiftOne(f: nat, j: nat)
    ensures ShiftRight(f, j) == 2 * ShiftRight(f, j + 1) + if Bit(f, j) then 1 else 0
  {
    HalfShift(f, Power2(j));
  }

  lemma HalfShift(f: nat, d: nat)
    requires d >= 1
    ensures f / d == 2 * (f / (2 * d)) + f / d % 2
  {
    var q, r := f / d, f % d;
    var h, b := q / 2, q % 2;
    assert f == q * d + r;
    HalfQuotient(f, d, q, r, h, b);
    var rest, dd := b * d + r, 2 * d;
    assert f == h * dd + rest;
    ModuloOffset(h, rest, dd);
  }

  lemma HalfQuotient(f: nat, d: nat, q: nat, r: nat, h: nat, b: nat)
    requires f == q * d + r && r < d && q == 2 * h + b && b < 2
    ensures 0 <= b * d && b * d + r < 2 * d && f == h * (2 * d) + (b * d + r)
  {
    assert q * d == 2 * h * d + b * d;
    if b == 0 {
      assert b * d == 0;
    } else {
      assert b * d == d;
    }
  }

  lemma {:induction false} TimesDouble<T(!new)>(k: nat, x: T, add: (T, T) -> T, zero: T)
    requires CommutativeMonoid(add, zero)
    ensures Times(2 * k, x, add, zero) == add(Times(k, x, add, zero), Times(k, x, add, zero))
  {
    hide CommutativeMonoid;
    if k == 0 {
      ZeroRight(add, zero, zero);
    } else {
      var t := Times(k - 1, x, add, zero);
      TimesDouble(k - 1, x, add, zero);
      assert Times(2 * k - 1, x, add, zero) == add(Times(2 * (k - 1), x, add, zero), x);
      assert Times(2 * k, x, add, zero) == add(Times(2 * k - 1, x, add, zero), x);
      Associates(add, zero, add(t, t), x, x);
      Exchange(add, zero, t, t, x, x);
    }
  }

  /** Doubling all factors and adding one to those in a subset. */
  lemma {:induction false} CombinationDouble<T(!new)>(numbers: seq<T>, factors: seq<nat>, halves: seq<nat>, subset: set<nat>,
                                                add: (T, T) -> T, zero: T)
    requires CommutativeMonoid(add, zero) && |factors| == |halves| >= |numbers|
    requires forall i :: 0 <= i < |numbers| ==> factors[i] == 2 * halves[i] + if i in subset then 1 else 0
    ensures Combination(numbers, factors, add, zero)
      == add(add(Combination(numbers, halves, add, zero), Combination(numbers, halves, add, zero)),
             SubsetSum(numbers, subset, add, zero))
  {
    hide CommutativeMonoid;
    if numbers == [] {
      ZeroRight(add, zero, zero);
    } else {
      var last := |numbers| - 1;
      CombinationDouble(numbers[..last], factors, halves, subset, add, zero);
      var c, s := Combination(numbers[..last], halves, add, zero), SubsetSum(numbers[..last], subset, add, zero);
      var x, t := numbers[last], Times(halves[last], numbers[last], add, zero);
      TimesDouble(halves[last], x, add, zero);
      Exchange(add, zero, c, c, t, t);
      if last in subset {
        assert Times(factors[last], x, add, zero) == add(add(t, t), x);
        Exchange(add, zero, add(c, c), s, add(t, t), x);
      } else {
        Associates(add, zero, add(c, c), s, add(t, t));
      }
    }
  }

  lemma {:induction false} CombinationZero<T(!new)>(numbers: seq<T>, factors: seq<nat>, add: (T, T) -> T, zero: T)
    requires CommutativeMonoid(add, zero) && |factors| >= |numbers|
    requires forall i :: 0 <= i < |numbers| ==> factors[i] == 0
    ensures Combination(numbers, factors, add, zero) == zero
  {
    if numbers != [] {
      var last := |numbers| - 1;
      ZeroRight(add, zero, zero);
      hide CommutativeMonoid;
      CombinationZero(numbers[..last], factors, add, zero);
      CombinationLast(numbers, factors, add, zero);
    }
  }

  /** A last number that is taken no times. */
  lemma CombinationLast<T(!new)>(numbers: seq<T>, factors: seq<nat>, add: (T, T) -> T, zero: T)
    requires numbers != [] && |factors| >= |numbers| && factors[|numbers| - 1] == 0
    ensures Combination(numbers, factors, add, zero) == add(Combination(numbers[..|numbers| - 1], factors, add, zero), zero)
  {
    assert Times(0, numbers[|numbers| - 1], add, zero) == zero;
  }

  method MaxBitLength(factors: seq<nat>) returns (m: nat)
    requires factors != []
    ensures forall i :: 0 <= i < |factors| ==> factors[i] < Power2(m)
  {
    m := BitLength(factors[0]);
    for i := 1 to |factors|
      invariant forall k :: 0 <= k < i ==> factors[k] < Power2(m)
    {
      if BitLength(factors[i]) > m {
        PowersGrow(m, BitLength(factors[i]));
        m := BitLength(factors[i]);
      } else {
        PowersGrow(BitLength(factors[i]), m);
      }
    }
  }

  lemma {:induction false} PowersGrow(m: nat, n: nat)
    requires m <= n
    ensures Power2(m) <= Power2(n)
  {
    if m < n {
      PowersGrow(m, n - 1);
    }
  }

  function BitSubset(numbers: nat, factors: seq<nat>, j: nat): (r: set<nat>)
    requires numbers <= |factors|
    ensures forall i: nat :: i in r <==> i < numbers && Bit(factors[i], j)
  {
    if numbers == 0 then {}
    else BitSubset(numbers - 1, factors, j) + if Bit(factors[numbers - 1], j) then {numbers - 1} else {}
  }

  /** Equals the plain sum for any positive partition size. */
  method Lincomb<T(!new)>(numbers: seq<T>, factors: seq<nat>, partitionSize: nat, add: (T, T) -> T, zero: T) returns (o: T)
    requires partitionSize > 0 && CommutativeMonoid(add, zero)
    requires factors != [] && |factors| >= |numbers|
    ensures o == Combination(numbers, factors, add, zero)
  {
    hide CommutativeMonoid, SubsetSum, Combination, Bit;
    var maxbitlen := MaxBitLength(factors);
    var subsets := seq(maxbitlen + 1, j requires 0 <= j < maxbitlen + 1 => BitSubset(|numbers|, factors, j));
    var sums := Multisubset2(numbers, subsets, partitionSize, add, zero);
    o := zero;
    var i := |subsets|;
    ShiftedOut(factors, maxbitlen);
    CombinationZero(numbers, Shifted(factors, i), add, zero);
    while i > 0
      invariant 0 <= i <= |subsets|
      invariant o == Combination(numbers, Shifted(factors, i), add, zero)
    {
      i := i - 1;
      forall k | 0 <= k < |numbers|
        ensures Shifted(factors, i)[k] == 2 * Shifted(factors, i + 1)[k] + if k in subsets[i] then 1 else 0
      {
        ShiftOne(factors[k], i);
      }
      CombinationDouble(numbers, Shifted(factors, i), Shifted(factors, i + 1), subsets[i], add, zero);
      o := add(add(o, o), sums[i]);
    }
    assert Shifted(factors, 0) == factors;
  }

  lemma ShiftedOut(factors: seq<nat>, m: nat)
    requires forall i :: 0 <= i < |factors| ==> factors[i] < Power2(m)
    ensures forall i :: 0 <= i < |factors| ==> ShiftRight(factors[i], m + 1) == 0
  {
    forall i | 0 <= i < |factors|
      ensures ShiftRight(factors[i], m + 1) == 0
    {
      SmallIndex(factors[i], Power2(m + 1));
    }
  }
}
