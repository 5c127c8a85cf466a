/** Polynomials as lists of coefficients, lowest first, and their values. */
module Evaluation {
  import opened Field
  import opened Powers

  ghost function Ev(v: seq<int>, x: int): int {
    if v == [] then 0 else v[0] + x * Ev(v[1..], x)
  }

  lemma {:induction false} EvSnoc(v: seq<int>, c: int, x: int)
    ensures Ev(v + [c], x) == Ev(v, x) + c * Pow(x, |v|)
  {
    if v == [] {
      assert [c][1..] == [];
      assert Ev([c], x) == c + x * Ev([], x);
    } else {
      EvSnoc(v[1..], c, x);
      assert (v + [c])[1..] == v[1..] + [c];
      Distribute(x, Ev(v[1..], x), c, Pow(x, |v| - 1));
    }
  }

  lemma Distribute(x: int, e: int, c: int, q: int)
    ensures x * (e + c * q) == x * e + c * (x * q)
  {
  }

  /** One more coefficient of a prefix. */
  lemma EvPrefix(v: seq<int>, i: nat, x: int)
    requires i < |v|
    ensures Ev(v[..i + 1], x) == Ev(v[..i], x) + v[i] * Pow(x, i)
  {
    assert v[..i + 1] == v[..i] + [v[i]];
    EvSnoc(v[..i], v[i], x);
  }

  lemma {:induction false} EvCong(p: Prime, v: seq<int>, x: int, y: int)
    requires Cong(p, x, y)
    ensures Cong(p, Ev(v, x), Ev(v, y))
  {
    hide Cong;
    if v == [] {
      CongEqual(p, Ev(v, x), Ev(v, y));
    } else {
      EvCong(p, v[1..], x, y);
      CongMul(p, x, y, Ev(v[1..], x), Ev(v[1..], y));
      CongEqual(p, v[0], v[0]);
      CongAdd(p, v[0], v[0], x * Ev(v[1..], x), y * Ev(v[1..], y));
    }
  }

  /** Coefficients may be replaced by congruent ones. */
  lemma {:induction false} EvCoefficients(p: Prime, u: seq<int>, v: seq<int>, x: int)
    requires |u| == |v| && forall i :: 0 <= i < |u| ==> Cong(p, u[i], v[i])
    ensures Cong(p, Ev(u, x), Ev(v, x))
  {
    hide Cong;
    if u == [] {
      CongEqual(p, Ev(u, x), Ev(v, x));
    } else {
      EvCoefficients(p, u[1..], v[1..], x);
      CongTimes(p, x, Ev(u[1..], x), Ev(v[1..], x));
      CongAdd(p, u[0], v[0], x * Ev(u[1..], x), x * Ev(v[1..], x));
    }
  }

  // ----- sums and multiples of polynomials

  function Plus(u: seq<int>, v: seq<int>, c: int): (r: seq<int>)
    requires |u| == |v|
    ensures |r| == |u| && forall i :: 0 <= i < |r| ==> r[i] == u[i] + c * v[i]
  {
    seq(|u|, i requires 0 <= i < |u| => u[i] + c * v[i])
  }

  lemma {:induction false} EvPlus(u: seq<int>, v: seq<int>, c: int, x: int)
    requires |u| == |v|
    ensures Ev(Plus(u, v, c), x) == Ev(u, x) + c * Ev(v, x)
  {
    if u != [] {
      EvPlus(u[1..], v[1..], c, x);
      assert Plus(u, v, c)[1..] == Plus(u[1..], v[1..], c);
      var a, b := Ev(u[1..], x), Ev(v[1..], x);
      Distribute(x, a, c, b);
      assert c * (v[0] + x * b) == c * v[0] + c * (x * b);
    }
  }

  lemma {:induction false} EvZeros(v: seq<int>, x: int)
    requires forall i :: 0 <= i < |v| ==> v[i] == 0
    ensures Ev(v, x) == 0
  {
    if v != [] {
      EvZeros(v[1..], x);
    }
  }

  lemma EvScale(v: seq<int>, c: int, r: seq<int>, x: int)
    requires |r| == |v| && forall i :: 0 <= i < |v| ==> r[i] == c * v[i]
    ensures Ev(r, x) == c * Ev(v, x)
  {
    var zeros := seq(|v|, _ => 0);
    EvPlus(zeros, v, c, x);
    EvZeros(zeros, x);
    assert Plus(zeros, v, c) == r;
  }

  // ----- even and odd coefficients

  function Evens(v: seq<int>): (r: seq<int>)
    ensures |r| == (|v| + 1) / 2 && forall i :: 0 <= i < |r| ==> r[i] == v[2 * i]
  {
    seq((|v| + 1) / 2, i requires 0 <= i < (|v| + 1) / 2 => v[2 * i])
  }

  function Odds(v: seq<int>): (r: seq<int>)
    ensures |r| == |v| / 2 && forall i :: 0 <= i < |r| ==> r[i] == v[2 * i + 1]
  {
    seq(|v| / 2, i requires 0 <= i < |v| / 2 => v[2 * i + 1])
  }

  lemma {:induction false} EvSplit(v: seq<int>, x: int)
    ensures Ev(v, x) == Ev(Evens(v), x * x) + x * Ev(Odds(v), x * x)
  {
    if v == [] {
      assert Evens(v) == [] && Odds(v) == [];
    } else {
      EvSplit(v[1..], x);
      assert Evens(v[1..]) == Odds(v);
      assert Evens(v) == [v[0]] + Odds(v[1..]);
      assert Evens(v)[1..] == Odds(v[1..]);
      var y, e, o := x * x, Ev(Odds(v), x * x), Ev(Odds(v[1..]), x * x);
      SplitStep(x, e, o);
    }
  }

  lemma SplitStep(x: int, e: int, o: int)
    ensures x * (e + x * o) == (x * x) * o + x * e
  {
  }
}
