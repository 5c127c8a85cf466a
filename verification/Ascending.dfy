/** Ascending iteration over the keys of a BTreeMap or BTreeSet. */
module Ascending {
  ghost predicate IsLeast(x: nat, s: set<nat>) {
    x in s && forall y :: y in s ==> x <= y
  }

  lemma LeastExists(s: set<nat>)
    requires s != {}
    ensures exists x :: IsLeast(x, s)
  {
    var x :| x in s;
    var rest := s - {x};
    assert forall y :: y in s ==> y == x || y in rest;
    if rest == {} {
      assert IsLeast(x, s);
    } else {
      LeastExists(rest);
      var z :| IsLeast(z, rest);
      assert IsLeast(if x < z then x else z, s);
    }
  }

  function Least(s: set<nat>): (x: nat)
    requires s != {}
    ensures x in s && forall y :: y in s ==> x <= y
  {
    LeastExists(s);
    assert exists x :: x in s && forall y :: y in s ==> x <= y by {
      var x :| IsLeast(x, s);
    }
    var x :| x in s && forall y :: y in s ==> x <= y;
    x
  }

  ghost predicate Increasing(q: seq<nat>) {
    forall i, j :: 0 <= i < j < |q| ==> q[i] < q[j]
  }

  /** The elements of a set in increasing order. */
  function Sorted(s: set<nat>): (q: seq<nat>)
    ensures Increasing(q)
    ensures forall x :: x in q <==> x in s
    ensures |q| == |s|
  {
    if s == {} then []
    else
      var x := Least(s);
      var rest := Sorted(s - {x});
      [x] + rest
  }
}
