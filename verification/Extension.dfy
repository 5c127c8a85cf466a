/** What simplified systems say about the signals that are kept: every solution
    for the kept signals extends to the removed ones, in one way. */
module Extension {
  import opened Field
  import opened Coefficients
  import opened Constraints
  import opened Elimination
  import opened BackSubstitution

  /** Two assignments that differ on removed signals at most. */
  ghost predicate AgreeOnKept(v: Assignment, w: Assignment, subs: seq<Substitution>) {
    forall s :: !Removed(subs, s) ==> v(s) == w(s)
  }

  ghost function ExtendedValue(w: Assignment, subs: seq<Substitution>, p: Prime, s: Signal): int {
    if Removed(subs, s) then
      var i :| 0 <= i < |subs| && subs[i].from == s;
      Eval(subs[i].to, w) % p
    else
      w(s)
  }

  /** The assignment that gives every removed signal the value its substitution demands. */
  ghost function Extend(w: Assignment, subs: seq<Substitution>, p: Prime): Assignment
    requires !Removed(subs, CONSTANT)
  {
    (s: Signal) => ExtendedValue(w, subs, p, s)
  }

  lemma ExtensionObeys(w: Assignment, subs: seq<Substitution>, p: Prime)
    requires NonOverlapping(subs) && !Removed(subs, CONSTANT)
    ensures ObeysAll(Extend(w, subs, p), subs, p)
    ensures AgreeOnKept(Extend(w, subs, p), w, subs)
  {
    var v := Extend(w, subs, p);
    forall i | 0 <= i < |subs|
      ensures Obeys(v, subs[i], p)
    {
      assert Removed(subs, subs[i].from);
      KeptSide(v, w, subs, i);
      CongMod(p, Eval(subs[i].to, w));
    }
  }

  /** Right-hand sides are evaluated on kept signals. */
  lemma KeptSide(v: Assignment, w: Assignment, subs: seq<Substitution>, i: nat)
    requires NonOverlapping(subs) && i < |subs| && AgreeOnKept(v, w, subs)
    ensures Eval(subs[i].to, v) == Eval(subs[i].to, w)
  {
    forall k | k in subs[i].to
      ensures v(k) == w(k)
    {
      assert !Removed(subs, k);
    }
    EvalAgree(subs[i].to, v, w);
  }

  /** No other values of the removed signals obey the substitutions. */
  lemma ExtensionUnique(w: Assignment, v: Assignment, subs: seq<Substitution>, p: Prime)
    requires NonOverlapping(subs) && !Removed(subs, CONSTANT)
    requires AgreeOnKept(v, w, subs) && ObeysAll(v, subs, p)
    ensures forall s :: Cong(p, v(s), Extend(w, subs, p)(s))
  {
    ExtensionObeys(w, subs, p);
    var u := Extend(w, subs, p);
    forall s
      ensures Cong(p, v(s), u(s))
    {
      if Removed(subs, s) {
        var i :| 0 <= i < |subs| && subs[i].from == s;
        KeptSide(v, w, subs, i);
        KeptSide(u, w, subs, i);
        assert Obeys(v, subs[i], p) && Obeys(u, subs[i], p);
      }
    }
  }

  lemma ResidualAgree(cs: seq<Constraint>, forbidden: set<Signal>, universe: set<Signal>, v: Assignment, w: Assignment, p: Prime)
    requires Residual(cs, forbidden, universe, p) && forall s :: s in forbidden ==> v(s) == w(s)
    ensures AllHold(cs, v, p) <==> AllHold(cs, w, p)
  {
    forall i | 0 <= i < |cs|
      ensures Holds(cs[i], v, p) <==> Holds(cs[i], w, p)
    {
      EvalAgree(cs[i].a, v, w);
      EvalAgree(cs[i].b, v, w);
      EvalAgree(cs[i].c, v, w);
    }
  }

  /** The leftover constraints are exactly what the system demands of kept signals. */
  lemma SimplifiedProjects(all: seq<Constraint>, r: Simplified, forbidden: set<Signal>, universe: set<Signal>, w: Assignment, p: Prime)
    requires CONSTANT in forbidden
    requires WellSimplified(r, forbidden, universe, p) && SameSolutions(all, r, p)
    ensures AllHold(r.constraints, w, p) <==> exists v: Assignment :: AgreeOnKept(v, w, r.substitutions) && AllHold(all, v, p)
  {
    var subs := r.substitutions;
    assert forall s :: s in forbidden ==> !Removed(subs, s);
    if AllHold(r.constraints, w, p) {
      var v := Extend(w, subs, p);
      ExtensionObeys(w, subs, p);
      ResidualAgree(r.constraints, forbidden, universe, v, w, p);
      assert AllHold(all, v, p);
    }
    if v: Assignment :| AgreeOnKept(v, w, subs) && AllHold(all, v, p) {
      ResidualAgree(r.constraints, forbidden, universe, v, w, p);
    }
  }
}
