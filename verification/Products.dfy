/** Products of finite sets of integers. */
module Products {
  ghost function Pick(s: set<nat>): (k: nat)
    requires s != {}
    ensures k in s
  {
    var k :| k in s;
    k
  }

  ghost function Product(s: set<nat>): int {
    if s == {} then 1
    else
      var k := Pick(s);
      k * Product(s - {k})
  }

  lemma {:induction false} ProductSplit(s: set<nat>, k: nat)
    requires k in s
    ensures Product(s) == k * Product(s - {k})
  {
    var first := Pick(s);
    assert Product(s) == first * Product(s - {first});
    if first != k {
      ProductSplit(s - {first}, k);
      ProductSplit(s - {k}, first);
      hide Product;
      assert s - {first} - {k} == s - {k} - {first};
      Swap(first, k, Product(s - {k} - {first}));
    }
  }

  lemma Swap(a: int, b: int, c: int)
    ensures a * (b * c) == b * (a * c)
  {
  }
}
