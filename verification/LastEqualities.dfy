/** Which equalities between a signal and a constant the pass keeps.  Substitutions are encoded
    as a map, so of several constants for one signal only the last one is substituted:
    build_encoded_fast_substitutions in circom_algebra/src/simplification_utils.rs. */
module LastEqualities {
  import opened Field
  import opened Coefficients
  import opened Constraints
  import opened Elimination
  import opened BackSubstitution
  import opened Clusters
  import opened Equalities
  import opened Stages
  import opened Frames
  import opened Log

  // ----- in terms of the input

  /** The equalities between signals make two signals equal. */
  ghost predicate Tied(equalities: seq<Constraint>, s: Signal, t: Signal, p: Prime) {
    forall w: Assignment :: AllHold(equalities, w, p) ==> Cong(p, w(s), w(t))
  }

  /** The equalities make the signal equal to none that has to stay. */
  ghost predicate Removable(equalities: seq<Constraint>, forbidden: set<Signal>, s: Signal, p: Prime) {
    forall f :: f in forbidden ==> !Tied(equalities, s, f, p)
  }

  /** A later constant for an equal signal, where a signal is removed for good. */
  ghost predicate Replaces(equalities: seq<Constraint>, cons: seq<Constraint>, forbidden: set<Signal>, i: nat, j: nat, p: Prime)
    requires ConstantEqualities(cons, p)
  {
    && i < j < |cons|
    && Removable(equalities, forbidden, SignalOf(cons[i], p), p)
    && Tied(equalities, SignalOf(cons[i], p), SignalOf(cons[j], p), p)
  }

  ghost predicate Superseded(equalities: seq<Constraint>, cons: seq<Constraint>, forbidden: set<Signal>, i: nat, p: Prime)
    requires ConstantEqualities(cons, p)
  {
    exists j: nat :: Replaces(equalities, cons, forbidden, i, j, p)
  }

  ghost function SupersededSet(equalities: seq<Constraint>, cons: seq<Constraint>, forbidden: set<Signal>, p: Prime): (r: set<nat>)
    requires ConstantEqualities(cons, p)
  {
    set i: nat | i < |cons| && Superseded(equalities, cons, forbidden, i, p)
  }

  /** The elements at all positions that are not dropped. */
  ghost function Select(xs: seq<Constraint>, dropped: set<nat>): seq<Constraint> {
    if xs == [] then []
    else
      var last := |xs| - 1;
      Select(xs[..last], dropped) + if last in dropped then [] else [xs[last]]
  }

  /** Every signal keeps its last constant only, unless it has to stay. */
  ghost function LastOnly(equalities: seq<Constraint>, cons: seq<Constraint>, forbidden: set<Signal>, p: Prime): seq<Constraint>
    requires ConstantEqualities(cons, p)
  {
    Select(cons, SupersededSet(equalities, cons, forbidden, p))
  }

  // ----- selecting

  lemma {:induction false} SelectedFrom(xs: seq<Constraint>, dropped: set<nat>)
    ensures forall c :: c in Select(xs, dropped) ==> c in xs
    ensures forall i: nat :: i < |xs| && i !in dropped ==> xs[i] in Select(xs, dropped)
  {
    if xs != [] {
      var last := |xs| - 1;
      SelectedFrom(xs[..last], dropped);
      forall i: nat | i < |xs| && i !in dropped
        ensures xs[i] in Select(xs, dropped)
      {
        if i < last {
          assert xs[..last][i] == xs[i];
        }
      }
    }
  }

  lemma {:induction false} SelectedIndex(xs: seq<Constraint>, dropped: set<nat>)
    ensures forall c :: c in Select(xs, dropped) ==> exists i: nat :: i < |xs| && i !in dropped && xs[i] == c
  {
    if xs != [] {
      var last := |xs| - 1;
      SelectedIndex(xs[..last], dropped);
      forall c | c in Select(xs, dropped)
        ensures exists i: nat :: i < |xs| && i !in dropped && xs[i] == c
      {
        if c in Select(xs[..last], dropped) {
          var i: nat :| i < last && i !in dropped && xs[..last][i] == c;
          assert xs[i] == c;
        } else {
          assert xs[last] == c;
        }
      }
    }
  }

  lemma SelectedConstants(xs: seq<Constraint>, dropped: set<nat>, p: Prime)
    requires ConstantEqualities(xs, p)
    ensures ConstantEqualities(Select(xs, dropped), p)
    ensures SignalsOfAll(Select(xs, dropped)) <= SignalsOfAll(xs)
  {
    hide IsConstantEquality, SignalsOf, Select;
    var r := Select(xs, dropped);
    SelectedFrom(xs, dropped);
    forall i | 0 <= i < |r|
      ensures IsConstantEquality(r[i], p) && SignalsOf(r[i]) <= SignalsOfAll(xs)
    {
      assert r[i] in xs;
      var j :| 0 <= j < |xs| && xs[j] == r[i];
    }
  }

  lemma SelectedHold(xs: seq<Constraint>, dropped: set<nat>, w: Assignment, p: Prime)
    requires AllHold(xs, w, p)
    ensures AllHold(Select(xs, dropped), w, p)
  {
    hide Holds, Select;
    var r := Select(xs, dropped);
    SelectedFrom(xs, dropped);
    forall i | 0 <= i < |r|
      ensures Holds(r[i], w, p)
    {
      assert r[i] in xs;
    }
  }

  /** The same positions of a list and of the rewritten list. */
  lemma {:induction false} SelectedUpdated(xs: seq<Constraint>, rs: seq<Constraint>, dropped: set<nat>, enc: Encoded, p: Prime)
    requires UpdatedAll(xs, rs, enc, p)
    ensures UpdatedAll(Select(xs, dropped), Select(rs, dropped), enc, p)
  {
    hide Updated, RewrittenSingle;
    if xs != [] {
      SelectedUpdated(xs[..|xs| - 1], rs[..|rs| - 1], dropped, enc, p);
    }
  }

  // ----- what an equality with a constant says

  lemma HoldsIs(cn: Constraint, w: Assignment, p: Prime)
    requires IsConstantEquality(cn, p)
    ensures Holds(cn, w, p) <==> Cong(p, w(SignalOf(cn, p)), Get(ConstantOf(cn, p).to, CONSTANT))
  {
    var s := SignalOf(cn, p);
    ClearCoefficient(cn, s, p);
    ConstantMeaning(cn, s, w, p);
    ObeysOne(w, ConstantOf(cn, p), p);
    ConstantIsConstant(cn, p);
    hide Holds, SignalOf, ConstantOf;
    ConstantValue(ConstantOf(cn, p), w, p);
  }

  lemma ConstantIsConstant(cn: Constraint, p: Prime)
    requires IsConstantEquality(cn, p)
    ensures IsConstant(ConstantOf(cn, p), p)
  {
    var s := SignalOf(cn, p);
    ClearCoefficient(cn, s, p);
  }

  /** If all equalities have a common solution, the last ones imply the others. */
  lemma {:induction false} LastEnough(equalities: seq<Constraint>, cons: seq<Constraint>, forbidden: set<Signal>,
                                      u: Assignment, w: Assignment, i: nat, p: Prime)
    requires ConstantEqualities(cons, p) && i < |cons|
    requires AllHold(equalities, u, p) && AllHold(cons, u, p)
    requires AllHold(equalities, w, p) && AllHold(LastOnly(equalities, cons, forbidden, p), w, p)
    ensures Holds(cons[i], w, p)
    decreases |cons| - i
  {
    hide Holds, SignalOf, ConstantOf, IsConstantEquality, Cong, Removable, Select;
    if Superseded(equalities, cons, forbidden, i, p) {
      var j: nat :| Replaces(equalities, cons, forbidden, i, j, p);
      LastEnough(equalities, cons, forbidden, u, w, j, p);
      var s, t := SignalOf(cons[i], p), SignalOf(cons[j], p);
      assert Cong(p, u(s), u(t)) && Cong(p, w(s), w(t));
      HoldsIs(cons[i], u, p);
      HoldsIs(cons[j], u, p);
      HoldsIs(cons[j], w, p);
      HoldsIs(cons[i], w, p);
      SameConstants(p, u(s), u(t), w(s), w(t), Get(ConstantOf(cons[i], p).to, CONSTANT), Get(ConstantOf(cons[j], p).to, CONSTANT));
    } else {
      SelectedFrom(cons, SupersededSet(equalities, cons, forbidden, p));
    }
  }

  lemma SameConstants(p: Prime, us: int, ut: int, ws: int, wt: int, k: int, l: int)
    requires Cong(p, us, ut) && Cong(p, ws, wt) && Cong(p, us, k) && Cong(p, ut, l) && Cong(p, wt, l)
    ensures Cong(p, ws, k)
  {
  }

  // ----- representatives

  /** What a signal is renamed to. */
  ghost function Rep(subs: seq<Substitution>, s: Signal): Signal {
    var enc := Encode(subs);
    if s in enc && enc[s].Sig? then enc[s].symbol else s
  }

  ghost predicate Renaming(subs: seq<Substitution>) {
    Renames(subs) && NonOverlapping(subs)
  }

  lemma RepTarget(subs: seq<Substitution>, i: nat)
    requires Renaming(subs) && i < |subs|
    ensures subs[i].to == map[Rep(subs, subs[i].from) := 1] && Rep(subs, subs[i].from) != CONSTANT
    ensures !Removed(subs, Rep(subs, subs[i].from))
  {
    var s := subs[i].from;
    EncodeOrigin(subs, s);
    var k :| 0 <= k < |subs| && subs[k].from == s && Encode(subs)[s] == IntoExpression(subs[k].to);
    assert k == i;
    assert IsRenaming(subs[i]);
    var t: Signal :| t != CONSTANT && subs[i].to == map[t := 1];
    assert |subs[i].to.Keys| == 1 by { assert subs[i].to.Keys == {t}; }
    assert Rep(subs, s) == t;
    assert t in subs[i].to;
  }

  lemma RepOther(subs: seq<Substitution>, s: Signal)
    requires !Removed(subs, s)
    ensures Rep(subs, s) == s
  {
    EncodeOrigin(subs, s);
  }

  lemma RepTwice(subs: seq<Substitution>, s: Signal)
    requires Renaming(subs)
    ensures Rep(subs, Rep(subs, s)) == Rep(subs, s) && (s != CONSTANT ==> Rep(subs, s) != CONSTANT)
  {
    hide Rep, Renames, NonOverlapping;
    if Removed(subs, s) {
      var i :| 0 <= i < |subs| && subs[i].from == s;
      RepTarget(subs, i);
      RepOther(subs, Rep(subs, s));
    } else {
      RepOther(subs, s);
    }
  }

  lemma RepEqual(subs: seq<Substitution>, s: Signal, w: Assignment, p: Prime)
    requires Renaming(subs) && ObeysAll(w, subs, p)
    ensures Cong(p, w(s), w(Rep(subs, s)))
  {
    hide Rep, Renaming;
    if Removed(subs, s) {
      var i :| 0 <= i < |subs| && subs[i].from == s;
      RepTarget(subs, i);
      assert Obeys(w, subs[i], p);
      EvalSingle(Rep(subs, s), 1, w);
    } else {
      RepOther(subs, s);
    }
  }

  /** One for all signals with that representative, zero for the others. */
  ghost function Indicator(subs: seq<Substitution>, r: Signal): Assignment {
    (s: Signal) => if s == CONSTANT || Rep(subs, s) == r then 1 else 0
  }

  ghost function Nothing(): Assignment {
    (s: Signal) => if s == CONSTANT then 1 else 0
  }

  lemma IndicatorObeys(subs: seq<Substitution>, r: Signal, p: Prime)
    requires Renaming(subs) && forall i :: 0 <= i < |subs| ==> subs[i].from != CONSTANT
    ensures ObeysAll(Indicator(subs, r), subs, p)
  {
    hide Rep, Renaming;
    var w := Indicator(subs, r);
    forall i | 0 <= i < |subs|
      ensures Obeys(w, subs[i], p)
    {
      var s := subs[i].from;
      RepTarget(subs, i);
      RepTwice(subs, s);
      EvalSingle(Rep(subs, s), 1, w);
    }
  }

  lemma NothingHolds(equalities: seq<Constraint>, p: Prime)
    requires EqualitySystem(equalities, p)
    ensures AllHold(equalities, Nothing(), p)
  {
    forall i | 0 <= i < |equalities|
      ensures Holds(equalities[i], Nothing(), p)
    {
      assert IsEquality(equalities[i], p);
      var s, t :| EqualityOf(equalities[i], s, t, p);
      EqualityMeaning(equalities[i], s, t, Nothing(), p);
    }
  }

  /** What the stage of equalities has delivered. */
  ghost predicate Renamed(equalities: seq<Constraint>, subs: seq<Substitution>, rest: seq<Constraint>, forbidden: set<Signal>, p: Prime) {
    && CONSTANT in forbidden && EqualitySystem(equalities, p)
    && StageResult(equalities, subs, rest, forbidden, p) && Renames(subs)
  }

  lemma RenamedFacts(equalities: seq<Constraint>, subs: seq<Substitution>, rest: seq<Constraint>, forbidden: set<Signal>, p: Prime)
    requires Renamed(equalities, subs, rest, forbidden, p)
    ensures Renaming(subs) && Equivalent(equalities, subs, rest, p)
    ensures forall i :: 0 <= i < |subs| ==> subs[i].from !in forbidden
    ensures forall f :: f in forbidden ==> Rep(subs, f) == f
    ensures SignalsOfAll(rest) <= forbidden
  {
    hide SignalsOf;
    forall f | f in forbidden
      ensures Rep(subs, f) == f
    {
      RepOther(subs, f);
    }
    forall s | s in SignalsOfAll(rest)
      ensures s in forbidden
    {
      var i :| 0 <= i < |rest| && s in SignalsOf(rest[i]);
      assert KeptConstraint(rest[i], SignalsOfAll(equalities), forbidden, p);
    }
  }

  lemma IndicatorHolds(equalities: seq<Constraint>, subs: seq<Substitution>, rest: seq<Constraint>, forbidden: set<Signal>, r: Signal, p: Prime)
    requires Renamed(equalities, subs, rest, forbidden, p) && r !in forbidden
    ensures AllHold(equalities, Indicator(subs, r), p)
  {
    RenamedFacts(equalities, subs, rest, forbidden, p);
    hide Rep, Renaming, SignalsOfAll, AllHold, ObeysAll;
    IndicatorObeys(subs, r, p);
    NothingHolds(equalities, p);
    AllHoldAgree(rest, Indicator(subs, r), Nothing(), p);
  }

  /** Signals are tied exactly if they have the same representative. */
  lemma TiedExactly(equalities: seq<Constraint>, subs: seq<Substitution>, rest: seq<Constraint>, forbidden: set<Signal>,
                    s: Signal, t: Signal, p: Prime)
    requires Renamed(equalities, subs, rest, forbidden, p) && s != CONSTANT && Rep(subs, s) !in forbidden
    ensures Tied(equalities, s, t, p) <==> Rep(subs, s) == Rep(subs, t)
  {
    RenamedFacts(equalities, subs, rest, forbidden, p);
    hide Rep, Renaming, AllHold, ObeysAll, Renamed;
    var r := Rep(subs, s);
    if r == Rep(subs, t) {
      forall w: Assignment | AllHold(equalities, w, p)
        ensures Cong(p, w(s), w(t))
      {
        RepEqual(subs, s, w, p);
        RepEqual(subs, t, w, p);
      }
    } else {
      SmallMod(p, 1);
      SmallMod(p, 0);
      var w := if t == CONSTANT then Nothing() else Indicator(subs, r);
      if t == CONSTANT {
        NothingHolds(equalities, p);
      } else {
        IndicatorHolds(equalities, subs, rest, forbidden, r, p);
      }
      assert AllHold(equalities, w, p) && !Cong(p, w(s), w(t));
    }
  }

  lemma RemovableExactly(equalities: seq<Constraint>, subs: seq<Substitution>, rest: seq<Constraint>, forbidden: set<Signal>,
                         s: Signal, p: Prime)
    requires Renamed(equalities, subs, rest, forbidden, p) && s != CONSTANT
    ensures Removable(equalities, forbidden, s, p) <==> Rep(subs, s) !in forbidden
  {
    RenamedFacts(equalities, subs, rest, forbidden, p);
    hide Rep, Renaming, AllHold, ObeysAll, Renamed;
    if Rep(subs, s) in forbidden {
      assert Tied(equalities, s, Rep(subs, s), p) by {
        forall w: Assignment | AllHold(equalities, w, p)
          ensures Cong(p, w(s), w(Rep(subs, s)))
        {
          RepEqual(subs, s, w, p);
        }
      }
    } else {
      forall f | f in forbidden
        ensures !Tied(equalities, s, f, p)
      {
        TiedExactly(equalities, subs, rest, forbidden, s, f, p);
      }
    }
  }

  /** A renamed equality is one of the representative. */
  lemma RenamedSignal(c: Constraint, r: Constraint, subs: seq<Substitution>, p: Prime)
    requires IsConstantEquality(c, p) && Renames(subs) && RewrittenSingle(c, r, Encode(subs), p)
    ensures IsConstantEquality(r, p) && SignalOf(r, p) == Rep(subs, SignalOf(c, p))
  {
    RenamingFrameFor(subs);
    ConstantRenamed(c, r, Encode(subs), p);
    var enc, s := Encode(subs), SignalOf(c, p);
    hide Encode;
    if s in enc {
      var t := enc[s].symbol;
      RenamedForm(c.c, s, t, p);
      var c' := Apply(c, Substitution(s, map[t := 1]), p);
      assert r == Fix(c', p);
      assert DropZeros(c'.a) == map[];
      FixLinear(c', p);
      assert ConstantEquality(r, t, p);
      assert t in {SignalOf(r, p)};
    }
  }

  // ----- in terms of the renamed equalities

  /** The same signal again, later. */
  ghost predicate Repeated(cons: seq<Constraint>, forbidden: set<Signal>, i: nat, p: Prime)
    requires ConstantEqualities(cons, p) && i < |cons|
  {
    && SignalOf(cons[i], p) !in forbidden
    && exists j :: i < j < |cons| && SignalOf(cons[j], p) == SignalOf(cons[i], p)
  }

  /** An equality is superseded exactly if its renamed form is repeated. */
  lemma SupersededRepeated(equalities: seq<Constraint>, cons: seq<Constraint>, renamed: seq<Constraint>, subs: seq<Substitution>,
                           rest: seq<Constraint>, forbidden: set<Signal>, i: nat, p: Prime)
    requires Renamed(equalities, subs, rest, forbidden, p) && ConstantEqualities(cons, p) && i < |cons|
    requires UpdatedAll(cons, renamed, Encode(subs), p) && ConstantEqualities(renamed, p)
    ensures Superseded(equalities, cons, forbidden, i, p) <==> Repeated(renamed, forbidden, i, p)
  {
    hide Renamed, Tied, Removable, IsConstantEquality, SignalOf, Rep, Updated, RewrittenSingle, Encode;
    assert Renames(subs) by { assert Renamed(equalities, subs, rest, forbidden, p); RenamesOf(equalities, subs, rest, forbidden, p); }
    RenamedSignal(cons[i], renamed[i], subs, p);
    NotConstant(cons[i], p);
    RemovableExactly(equalities, subs, rest, forbidden, SignalOf(cons[i], p), p);
    if SignalOf(renamed[i], p) !in forbidden {
      forall j: nat | i < j < |cons|
        ensures Replaces(equalities, cons, forbidden, i, j, p) <==> SignalOf(renamed[j], p) == SignalOf(renamed[i], p)
      {
        RenamedSignal(cons[j], renamed[j], subs, p);
        TiedExactly(equalities, subs, rest, forbidden, SignalOf(cons[i], p), SignalOf(cons[j], p), p);
      }
    }
  }

  lemma RenamesOf(equalities: seq<Constraint>, subs: seq<Substitution>, rest: seq<Constraint>, forbidden: set<Signal>, p: Prime)
    requires Renamed(equalities, subs, rest, forbidden, p)
    ensures Renames(subs)
  {
  }

  lemma NotConstant(cn: Constraint, p: Prime)
    requires IsConstantEquality(cn, p)
    ensures SignalOf(cn, p) != CONSTANT
  {
  }

  ghost function RepeatedSet(cons: seq<Constraint>, forbidden: set<Signal>, p: Prime): set<nat>
    requires ConstantEqualities(cons, p)
  {
    set i: nat | i < |cons| && Repeated(cons, forbidden, i, p)
  }

  /** Nothing that stays a constraint is repeated. */
  lemma {:induction false} SelectedRest(xs: seq<Constraint>, dropped: set<nat>, forbidden: set<Signal>, p: Prime)
    requires ConstantEqualities(xs, p) && ConstantEqualities(Select(xs, dropped), p)
    requires forall i: nat :: i < |xs| && i in dropped ==> SignalOf(xs[i], p) !in forbidden
    ensures ConstantRest(Select(xs, dropped), forbidden, p) == ConstantRest(xs, forbidden, p)
  {
    if xs == [] {
    } else {
      hide *;
      var last := |xs| - 1;
      var front, x := xs[..last], xs[last];
      assert xs == front + [x];
      FrontConstants(front, x, p);
      SelectedConstants(front, dropped, p);
      forall i: nat | i < last && i in dropped
        ensures SignalOf(front[i], p) !in forbidden
      {
        assert front[i] == xs[i];
      }
      SelectedRest(front, dropped, forbidden, p);
      SelectStep(front, x, dropped);
      ConstantRestStep(front, x, forbidden, p);
      if last !in dropped {
        ConstantRestStep(Select(front, dropped), x, forbidden, p);
      }
    }
  }

  lemma FrontConstants(front: seq<Constraint>, x: Constraint, p: Prime)
    requires ConstantEqualities(front + [x], p)
    ensures ConstantEqualities(front, p) && IsConstantEquality(x, p)
  {
    hide IsConstantEquality;
    forall i | 0 <= i < |front|
      ensures IsConstantEquality(front[i], p)
    {
      assert (front + [x])[i] == front[i];
    }
    assert (front + [x])[|front|] == x;
  }

  lemma SelectStep(front: seq<Constraint>, x: Constraint, dropped: set<nat>)
    ensures Select(front + [x], dropped) == if |front| in dropped then Select(front, dropped) else Select(front, dropped) + [x]
  {
    assert (front + [x])[..|front|] == front;
    assert Select(front, dropped) + [] == Select(front, dropped);
  }

  lemma ConstantRestStep(front: seq<Constraint>, x: Constraint, forbidden: set<Signal>, p: Prime)
    requires ConstantEqualities(front, p) && IsConstantEquality(x, p)
    ensures ConstantEqualities(front + [x], p)
    ensures ConstantRest(front + [x], forbidden, p)
      == if SignalOf(x, p) in forbidden then ConstantRest(front, forbidden, p) + [x] else ConstantRest(front, forbidden, p)
  {
    hide SignalOf, IsConstantEquality;
    assert (front + [x])[..|front|] == front;
    assert ConstantRest(front, forbidden, p) + [] == ConstantRest(front, forbidden, p);
  }

  lemma ConstantSubsStep(front: seq<Constraint>, x: Constraint, forbidden: set<Signal>, p: Prime)
    requires ConstantEqualities(front, p) && IsConstantEquality(x, p)
    ensures ConstantEqualities(front + [x], p)
    ensures ConstantSubs(front + [x], forbidden, p)
      == ConstantSubs(front, forbidden, p) + if SignalOf(x, p) in forbidden then [] else [ConstantOf(x, p)]
  {
    assert (front + [x])[..|front|] == front;
  }

  lemma EncodeStep(subs: seq<Substitution>, s: Substitution)
    ensures Encode(subs + [s]) == Encode(subs)[s.from := IntoExpression(s.to)]
  {
    assert (subs + [s])[..|subs|] == subs;
  }

  /** The substitutions of the first k equalities, all of them and the selected ones. */
  ghost function AllSubs(xs: seq<Constraint>, forbidden: set<Signal>, k: nat, p: Prime): seq<Substitution>
    requires ConstantEqualities(xs, p) && k <= |xs|
  {
    ConstantSubs(xs[..k], forbidden, p)
  }

  ghost function SelectedSubs(xs: seq<Constraint>, dropped: set<nat>, forbidden: set<Signal>, k: nat, p: Prime): seq<Substitution>
    requires ConstantEqualities(xs, p) && k <= |xs|
  {
    SelectedConstants(xs[..k], dropped, p);
    ConstantSubs(Select(xs[..k], dropped), forbidden, p)
  }

  lemma SubsStep(xs: seq<Constraint>, dropped: set<nat>, forbidden: set<Signal>, k: nat, p: Prime)
    requires ConstantEqualities(xs, p) && k < |xs|
    ensures var new' := if SignalOf(xs[k], p) in forbidden then [] else [ConstantOf(xs[k], p)];
      && AllSubs(xs, forbidden, k + 1, p) == AllSubs(xs, forbidden, k, p) + new'
      && SelectedSubs(xs, dropped, forbidden, k + 1, p)
        == if k in dropped then SelectedSubs(xs, dropped, forbidden, k, p) else SelectedSubs(xs, dropped, forbidden, k, p) + new'
  {
    assert xs[..k + 1] == xs[..k] + [xs[k]] && xs[..k + 1][..k] == xs[..k];
    ConstantSubsStep(xs[..k], xs[k], forbidden, p);
    SelectedConstants(xs[..k], dropped, p);
    hide IsConstantEquality, SignalOf, ConstantOf, ConstantSubs;
    assert Select(xs[..k + 1], dropped) == Select(xs[..k], dropped) + if k in dropped then [] else [xs[k]];
    if k in dropped {
      assert Select(xs[..k], dropped) + [] == Select(xs[..k], dropped);
    } else {
      ConstantSubsStep(Select(xs[..k], dropped), xs[k], forbidden, p);
    }
  }

  /** The last of the first k equalities that gives s a value. */
  ghost predicate LastAt(xs: seq<Constraint>, k: nat, s: Signal, j: nat, p: Prime)
    requires ConstantEqualities(xs, p) && k <= |xs|
  {
    j < k && SignalOf(xs[j], p) == s && forall i :: j < i < k ==> SignalOf(xs[i], p) != s
  }

  ghost predicate HasLast(xs: seq<Constraint>, k: nat, s: Signal, p: Prime)
    requires ConstantEqualities(xs, p) && k <= |xs|
  {
    exists j: nat :: LastAt(xs, k, s, j, p)
  }

  /** Both lists are encoded alike where the last constant is not dropped. */
  lemma {:induction false} EncodedAlike(xs: seq<Constraint>, dropped: set<nat>, forbidden: set<Signal>, k: nat, s: Signal, p: Prime)
    requires ConstantEqualities(xs, p) && k <= |xs|
    ensures var e, f := Encode(AllSubs(xs, forbidden, k, p)), Encode(SelectedSubs(xs, dropped, forbidden, k, p));
      && (s in e <==> s !in forbidden && HasLast(xs, k, s, p))
      && (s in f ==> s in e)
      && forall j: nat :: LastAt(xs, k, s, j, p) && j !in dropped && s !in forbidden ==> s in f && e[s] == f[s]
  {
    hide SignalOf, ConstantOf, IsConstantEquality, Select, Encode, ConstantSubs, AllSubs, SelectedSubs;
    if k == 0 {
      NoSubs(xs, dropped, forbidden, p);
    } else {
      EncodedAlike(xs, dropped, forbidden, k - 1, s, p);
      SubsStep(xs, dropped, forbidden, k - 1, p);
      var a, b, x := AllSubs(xs, forbidden, k - 1, p), SelectedSubs(xs, dropped, forbidden, k - 1, p), ConstantOf(xs[k - 1], p);
      EncodeStep(a, x);
      EncodeStep(b, x);
      assert a + [] == a && b + [] == b;
      LastStep(xs, k, s, p);
      FromOf(xs[k - 1], p);
    }
  }

  lemma FromOf(cn: Constraint, p: Prime)
    requires IsConstantEquality(cn, p)
    ensures ConstantOf(cn, p).from == SignalOf(cn, p)
  {
  }

  lemma NoSubs(xs: seq<Constraint>, dropped: set<nat>, forbidden: set<Signal>, p: Prime)
    requires ConstantEqualities(xs, p)
    ensures Encode(AllSubs(xs, forbidden, 0, p)) == map[] && Encode(SelectedSubs(xs, dropped, forbidden, 0, p)) == map[]
  {
  }

  lemma LastStep(xs: seq<Constraint>, k: nat, s: Signal, p: Prime)
    requires ConstantEqualities(xs, p) && 0 < k <= |xs|
    ensures SignalOf(xs[k - 1], p) == s ==> forall j: nat :: LastAt(xs, k, s, j, p) <==> j == k - 1
    ensures SignalOf(xs[k - 1], p) != s ==> forall j: nat :: LastAt(xs, k, s, j, p) <==> LastAt(xs, k - 1, s, j, p)
    ensures HasLast(xs, k, s, p) <==> SignalOf(xs[k - 1], p) == s || HasLast(xs, k - 1, s, p)
  {
    hide SignalOf, IsConstantEquality;
    if SignalOf(xs[k - 1], p) == s {
      assert LastAt(xs, k, s, k - 1, p);
    } else {
      if HasLast(xs, k, s, p) {
        var j: nat :| LastAt(xs, k, s, j, p);
        assert LastAt(xs, k - 1, s, j, p);
      }
      if HasLast(xs, k - 1, s, p) {
        var j: nat :| LastAt(xs, k - 1, s, j, p);
        assert LastAt(xs, k, s, j, p);
      }
    }
  }

  /** Dropping repeated constants does not change the encoding. */
  lemma SameEncoding(xs: seq<Constraint>, dropped: set<nat>, forbidden: set<Signal>, p: Prime)
    requires ConstantEqualities(xs, p) && dropped == RepeatedSet(xs, forbidden, p)
    ensures ConstantEqualities(Select(xs, dropped), p)
    ensures Encode(ConstantSubs(Select(xs, dropped), forbidden, p)) == Encode(ConstantSubs(xs, forbidden, p))
  {
    hide SignalOf, IsConstantEquality, Select, Encode, ConstantSubs;
    SelectedConstants(xs, dropped, p);
    assert xs[..|xs|] == xs;
    var e, f := Encode(ConstantSubs(xs, forbidden, p)), Encode(ConstantSubs(Select(xs, dropped), forbidden, p));
    forall s
      ensures s in e <==> s in f
      ensures s in e ==> e[s] == f[s]
    {
      EncodedAlike(xs, dropped, forbidden, |xs|, s, p);
      if s in e {
        var j: nat :| LastAt(xs, |xs|, s, j, p);
        assert j !in dropped;
      }
    }
  }

  /** No two substitutions for one signal. */
  ghost predicate NoRepeats(log: seq<Substitution>) {
    forall i, j :: 0 <= i < j < |log| ==> log[i].from != log[j].from
  }

  /** A substitution comes from one of the first k equalities that are not dropped. */
  ghost predicate FromKept(sub: Substitution, xs: seq<Constraint>, dropped: set<nat>, k: nat, p: Prime)
    requires ConstantEqualities(xs, p) && k <= |xs|
  {
    exists j: nat :: j < k && j !in dropped && sub == ConstantOf(xs[j], p)
  }

  lemma {:induction false} SelectedApart(xs: seq<Constraint>, dropped: set<nat>, forbidden: set<Signal>, k: nat, p: Prime)
    requires ConstantEqualities(xs, p) && dropped == RepeatedSet(xs, forbidden, p) && k <= |xs|
    ensures NoRepeats(SelectedSubs(xs, dropped, forbidden, k, p))
    ensures forall s :: s in SelectedSubs(xs, dropped, forbidden, k, p) ==> FromKept(s, xs, dropped, k, p)
    ensures forall s :: s in SelectedSubs(xs, dropped, forbidden, k, p) ==> s in AllSubs(xs, forbidden, k, p)
  {
    if k == 0 {
      assert xs[..0] == [];
    } else {
      hide SignalOf, ConstantOf, IsConstantEquality, Select, ConstantSubs, AllSubs, SelectedSubs, RepeatedSet, FromKept, NoRepeats;
      SelectedApart(xs, dropped, forbidden, k - 1, p);
      SubsStep(xs, dropped, forbidden, k - 1, p);
      var before, x := SelectedSubs(xs, dropped, forbidden, k - 1, p), ConstantOf(xs[k - 1], p);
      assert before + [] == before;
      KeptNext(before, x, xs, dropped, forbidden, k, p);
    }
  }

  lemma KeptNext(before: seq<Substitution>, x: Substitution, xs: seq<Constraint>, dropped: set<nat>, forbidden: set<Signal>, k: nat, p: Prime)
    requires ConstantEqualities(xs, p) && dropped == RepeatedSet(xs, forbidden, p) && 0 < k <= |xs|
    requires x == ConstantOf(xs[k - 1], p) && NoRepeats(before) && forall s :: s in before ==> FromKept(s, xs, dropped, k - 1, p)
    ensures forall s :: s in before ==> FromKept(s, xs, dropped, k, p)
    ensures k - 1 !in dropped && SignalOf(xs[k - 1], p) !in forbidden ==>
      NoRepeats(before + [x]) && forall s :: s in before + [x] ==> FromKept(s, xs, dropped, k, p)
  {
    hide SignalOf, ConstantOf, IsConstantEquality;
    FromOf(xs[k - 1], p);
    forall s | s in before
      ensures FromKept(s, xs, dropped, k, p)
      ensures SignalOf(xs[k - 1], p) !in forbidden ==> s.from != x.from
    {
      var j: nat :| j < k - 1 && j !in dropped && s == ConstantOf(xs[j], p);
      FromOf(xs[j], p);
      assert !Repeated(xs, forbidden, j, p);
    }
    if k - 1 !in dropped {
      assert FromKept(x, xs, dropped, k, p);
    }
  }

  /** What remains of the equalities with constants once repeated ones are dropped. */
  lemma SelectedStage(xs: seq<Constraint>, dropped: set<nat>, forbidden: set<Signal>, p: Prime)
    requires CONSTANT in forbidden && ConstantEqualities(xs, p) && dropped == RepeatedSet(xs, forbidden, p)
    ensures var r := Select(xs, dropped);
      && ConstantEqualities(r, p) && SignalsOfAll(r) <= SignalsOfAll(xs)
      && ConstantRest(r, forbidden, p) == ConstantRest(xs, forbidden, p)
      && Encode(ConstantSubs(r, forbidden, p)) == Encode(ConstantSubs(xs, forbidden, p))
      && NoRepeats(ConstantSubs(r, forbidden, p))
      && forall s :: s in ConstantSubs(r, forbidden, p) ==> s in ConstantSubs(xs, forbidden, p)
  {
    hide SignalOf, ConstantOf, IsConstantEquality, Select, ConstantSubs, ConstantRest, Encode, SignalsOfAll;
    SelectedConstants(xs, dropped, p);
    SelectedRest(xs, dropped, forbidden, p);
    SameEncoding(xs, dropped, forbidden, p);
    SelectedApart(xs, dropped, forbidden, |xs|, p);
    assert xs[..|xs|] == xs;
  }
}
