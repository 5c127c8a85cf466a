/** Encoded substitutions and their application to one constraint or to a list:
    circom_algebra/src/simplification_utils.rs. */
module Frames {
  import opened Wrappers
  import opened Field
  import opened Coefficients
  import opened Algebra
  import opened Constraints
  import opened Elimination
  import opened BackSubstitution
  import opened Equalities
  import opened Stages

  type Encoded = map<Signal, Expression>

  /** Later substitutions of the same signal replace earlier ones. */
  function Encode(subs: seq<Substitution>): Encoded {
    if subs == [] then map[]
    else
      var last := |subs| - 1;
      Encode(subs[..last])[subs[last].from := IntoExpression(subs[last].to)]
  }

  method BuildEncodedFastSubstitutions(fastSub: seq<Substitution>) returns (encoded: Encoded)
    ensures encoded == Encode(fastSub)
  {
    encoded := map[];
    for i := 0 to |fastSub|
      invariant encoded == Encode(fastSub[..i])
    {
      assert fastSub[..i + 1][..i] == fastSub[..i];
      encoded := encoded[fastSub[i].from := IntoExpression(fastSub[i].to)];
    }
    assert fastSub[..|fastSub|] == fastSub;
  }

  /** Every entry comes from a substitution of the list, and each signal has one. */
  lemma {:induction false} EncodeOrigin(subs: seq<Substitution>, s: Signal)
    ensures s in Encode(subs) <==> Removed(subs, s)
    ensures s in Encode(subs) ==> exists i :: 0 <= i < |subs| && subs[i].from == s && Encode(subs)[s] == IntoExpression(subs[i].to)
  {
    if subs != [] {
      var last := |subs| - 1;
      EncodeOrigin(subs[..last], s);
      assert subs == subs[..last] + [subs[last]];
      RemovedMore(subs[..last], subs[last]);
      if s == subs[last].from {
        assert Encode(subs)[s] == IntoExpression(subs[last].to);
      } else if s in Encode(subs) {
        var i :| 0 <= i < last && subs[..last][i].from == s && Encode(subs[..last])[s] == IntoExpression(subs[..last][i].to);
        assert subs[i] == subs[..last][i];
      }
    }
  }

  ghost predicate ObeysFrame(w: Assignment, enc: Encoded, p: Prime) {
    forall s :: s in enc ==> !enc[s].NonQuadratic? && Cong(p, w(s), Value(enc[s], w))
  }

  lemma EncodeObeyed(subs: seq<Substitution>, w: Assignment, p: Prime)
    requires ObeysAll(w, subs, p)
    ensures ObeysFrame(w, Encode(subs), p)
  {
    hide Cong;
    forall s | s in Encode(subs)
      ensures !Encode(subs)[s].NonQuadratic? && Cong(p, w(s), Value(Encode(subs)[s], w))
    {
      EncodeOrigin(subs, s);
      var i :| 0 <= i < |subs| && subs[i].from == s && Encode(subs)[s] == IntoExpression(subs[i].to);
      IntoExpressionValue(subs[i].to, w);
      assert Obeys(w, subs[i], p);
    }
  }

  /** The substitution an entry stands for. */
  function EntryOf(s: Signal, e: Expression): Option<Substitution> {
    NewSubstitution(s, e)
  }

  ghost predicate GoodEntry(s: Signal, e: Expression, p: Prime) {
    && s != CONSTANT
    && EntryOf(s, e).Some?
    && Reduced(EntryOf(s, e).value.to, p)
    && EntryOf(s, e).value.to.Keys <= KeysOf(e)
  }

  /** No entry mentions a signal that the frame replaces. */
  ghost predicate GoodFrame(enc: Encoded, p: Prime) {
    && (forall s :: s in enc ==> GoodEntry(s, enc[s], p))
    && (forall s :: s in enc ==> KeysOf(enc[s]) !! enc.Keys)
  }

  lemma EntryObeyed(enc: Encoded, s: Signal, w: Assignment, p: Prime)
    requires s in enc && EntryOf(s, enc[s]).Some? && ObeysFrame(w, enc, p)
    ensures EntryOf(s, enc[s]).value.from == s
    ensures Obeys(w, EntryOf(s, enc[s]).value, p)
  {
    NewSubstitutionValue(s, enc[s], w);
  }

  lemma GoodEntryFor(sub: Substitution, p: Prime)
    requires sub.from != CONSTANT && sub.from !in sub.to && Reduced(sub.to, p)
    ensures GoodEntry(sub.from, IntoExpression(sub.to), p)
    ensures KeysOf(IntoExpression(sub.to)) <= sub.to.Keys + {CONSTANT}
  {
    IntoExpressionKeys(sub.to);
    if |sub.to| == 1 && CONSTANT !in sub.to {
      var s :| s in sub.to;
      forall t | t in sub.to
        ensures t == s
      {
        OnlyKey(sub.to, s, t);
      }
    }
  }

  /** Non-overlapping lists make good frames, and so do constants. */
  lemma EncodeGood(subs: seq<Substitution>, p: Prime)
    requires forall i :: 0 <= i < |subs| ==> subs[i].from != CONSTANT && Reduced(subs[i].to, p)
    requires forall i, j :: 0 <= i < |subs| && 0 <= j < |subs| ==> subs[i].from !in subs[j].to
    ensures GoodFrame(Encode(subs), p)
  {
    var enc := Encode(subs);
    forall s | s in enc
      ensures GoodEntry(s, enc[s], p) && KeysOf(enc[s]) !! enc.Keys
    {
      EncodeOrigin(subs, s);
      var i :| 0 <= i < |subs| && subs[i].from == s && enc[s] == IntoExpression(subs[i].to);
      GoodEntryFor(subs[i], p);
      forall t | t in enc
        ensures t !in KeysOf(enc[s])
      {
        EncodeOrigin(subs, t);
        var j :| 0 <= j < |subs| && subs[j].from == t;
      }
    }
  }

  // ----- one constraint

  /** The signals that replace those of a set. */
  ghost function Targets(enc: Encoded, signals: set<Signal>): set<Signal> {
    set s, t | s in signals && s in enc && t in KeysOf(enc[s]) - {CONSTANT} :: t
  }

  method FastEncodedConstraintSubstitution(constraint: Constraint, enc: Encoded, p: Prime)
    returns (c: Constraint, applied: bool)
    requires GoodFrame(enc, p) && ReducedConstraint(constraint, p)
    ensures ReducedConstraint(c, p) && (LinearShape(constraint) ==> LinearShape(c))
    ensures forall w: Assignment :: ObeysFrame(w, enc, p) ==> (Holds(c, w, p) <==> Holds(constraint, w, p))
    ensures SignalsOf(c) <= SignalsOf(constraint) + Targets(enc, SignalsOf(constraint)) - enc.Keys
    ensures !applied ==> c == constraint
    ensures applied ==> SignalsOf(constraint) * enc.Keys != {}
    ensures forall s :: SignalsOf(constraint) == {s} && s in enc ==> applied && c == Apply(constraint, EntryOf(s, enc[s]).value, p)
  {
    hide ReducedConstraint, Holds, ObeysFrame, Apply;
    ghost var all := SignalsOf(constraint);
    var signals := SignalsOf(constraint);
    c, applied := constraint, false;
    while signals != {}
      invariant signals <= all
      invariant ReducedConstraint(c, p) && (LinearShape(constraint) ==> LinearShape(c))
      invariant forall w: Assignment :: ObeysFrame(w, enc, p) ==> (Holds(c, w, p) <==> Holds(constraint, w, p))
      invariant SignalsOf(c) <= all + Targets(enc, all)
      invariant SignalsOf(c) * enc.Keys <= signals
      invariant !applied ==> c == constraint
      invariant applied ==> all * enc.Keys != {}
      invariant forall s :: all == {s} && s in enc ==>
        if signals == {} then applied && c == Apply(constraint, EntryOf(s, enc[s]).value, p) else !applied
    {
      var signal :| signal in signals;
      signals := signals - {signal};
      if signal in enc {
        var sub := EntryOf(signal, enc[signal]).value;
        ApplyEntry(c, all, signals, enc, signal, p);
        ghost var before := c;
        c := Apply(c, sub, p);
        applied := true;
        assert signal in all * enc.Keys;
        forall w: Assignment | ObeysFrame(w, enc, p)
          ensures Holds(c, w, p) <==> Holds(constraint, w, p)
        {
          EntryObeyed(enc, signal, w, p);
          ApplyHolds(before, sub, w, p);
        }
      }
    }
    forall k | k in SignalsOf(c)
      ensures k !in enc
    {
      assert k in enc ==> k in SignalsOf(c) * enc.Keys;
    }
  }

  /** One entry applied: its signal goes, signals outside the frame come. */
  lemma ApplyEntry(c: Constraint, all: set<Signal>, signals: set<Signal>, enc: Encoded, signal: Signal, p: Prime)
    requires GoodFrame(enc, p) && signal in enc && signal in all && signal !in signals
    requires ReducedConstraint(c, p)
    requires SignalsOf(c) <= all + Targets(enc, all) && SignalsOf(c) * enc.Keys <= signals + {signal}
    ensures var c' := Apply(c, EntryOf(signal, enc[signal]).value, p);
      && ReducedConstraint(c', p) && (LinearShape(c) ==> LinearShape(c'))
      && SignalsOf(c') <= all + Targets(enc, all)
      && SignalsOf(c') * enc.Keys <= signals
  {
    var sub := EntryOf(signal, enc[signal]).value;
    assert sub.from == signal;
    ApplyLinearShape(c, sub, p);
    ApplySignals(c, sub, p);
    hide SignalsOf, Apply, ReducedConstraint, KeysOf, LinearShape;
    forall t | t in sub.to.Keys - {CONSTANT}
      ensures t in Targets(enc, all) && t !in enc
    {
      assert t in KeysOf(enc[signal]) - {CONSTANT};
    }
  }

  lemma ApplyLinearShape(c: Constraint, sub: Substitution, p: Prime)
    requires sub.from != CONSTANT
    ensures ReducedConstraint(c, p) ==> ReducedConstraint(Apply(c, sub, p), p)
    ensures LinearShape(c) ==> LinearShape(Apply(c, sub, p))
  {
  }

  // ----- lists of linear constraints

  /** A list of constraints without products. */
  ghost predicate LinearShapes(cs: seq<Constraint>, p: Prime) {
    forall i :: 0 <= i < |cs| ==> ReducedConstraint(cs[i], p) && LinearShape(cs[i])
  }

  /** A constraint after a frame has been applied to it. */
  ghost predicate Updated(c: Constraint, r: Constraint, enc: Encoded, p: Prime) {
    && ReducedConstraint(r, p) && LinearShape(r)
    && (LinearConstraint(c, p) ==> LinearConstraint(r, p))
    && SignalsOf(r) <= SignalsOf(c) + Targets(enc, SignalsOf(c)) - enc.Keys
    && (forall w: Assignment :: ObeysFrame(w, enc, p) ==> (Holds(r, w, p) <==> Holds(c, w, p)))
  }

  /** How a constraint on one signal is rewritten. */
  ghost predicate RewrittenSingle(c: Constraint, r: Constraint, enc: Encoded, p: Prime) {
    forall s :: SignalsOf(c) == {s} ==>
      if s in enc && EntryOf(s, enc[s]).Some? then r == Fix(Apply(c, EntryOf(s, enc[s]).value, p), p) else r == c
  }

  ghost predicate UpdatedAll(cs: seq<Constraint>, rs: seq<Constraint>, enc: Encoded, p: Prime) {
    |rs| == |cs| && forall i :: 0 <= i < |cs| ==> Updated(cs[i], rs[i], enc, p) && RewrittenSingle(cs[i], rs[i], enc, p)
  }

  method SubstituteAll(constraints: seq<Constraint>, enc: Encoded, p: Prime) returns (rs: seq<Constraint>)
    requires GoodFrame(enc, p) && LinearShapes(constraints, p)
    ensures UpdatedAll(constraints, rs, enc, p)
  {
    hide GoodFrame, Updated, RewrittenSingle, ReducedConstraint, LinearShape;
    rs := [];
    for i := 0 to |constraints|
      invariant |rs| == i
      invariant forall j :: 0 <= j < i ==>
        Updated(constraints[j], rs[j], enc, p) && RewrittenSingle(constraints[j], rs[j], enc, p)
    {
      var r := SubstituteOne(constraints[i], enc, p);
      rs := rs + [r];
    }
  }

  method SubstituteOne(constraint: Constraint, enc: Encoded, p: Prime) returns (r: Constraint)
    requires GoodFrame(enc, p) && ReducedConstraint(constraint, p) && LinearShape(constraint)
    ensures Updated(constraint, r, enc, p) && RewrittenSingle(constraint, r, enc, p)
  {
    var c, applied := FastEncodedConstraintSubstitution(constraint, enc, p);
    if applied {
      r := Fix(c, p);
      FixedShape(c, p);
      hide Fix, Holds, SignalsOf, ReducedConstraint, LinearShape, LinearConstraint, ObeysFrame, Apply, EntryOf;
      FixedHolds(c, p);
    } else {
      r := c;
    }
  }

  lemma FixedHolds(c: Constraint, p: Prime)
    ensures forall w: Assignment :: Holds(Fix(c, p), w, p) <==> Holds(c, w, p)
  {
    forall w: Assignment
      ensures Holds(Fix(c, p), w, p) <==> Holds(c, w, p)
    {
      FixHolds(c, w, p);
    }
  }

  lemma FixedShape(c: Constraint, p: Prime)
    requires ReducedConstraint(c, p) && LinearShape(c)
    ensures LinearConstraint(Fix(c, p), p) && ReducedConstraint(Fix(c, p), p) && LinearShape(Fix(c, p))
    ensures SignalsOf(Fix(c, p)) <= SignalsOf(c)
  {
    FixSignals(c, p);
    assert DropZeros(c.a) == map[];
    FixLinear(c, p);
  }

  // ----- renaming a constant equality leaves a constant equality

  ghost predicate RenamingFrame(enc: Encoded) {
    forall s :: s in enc ==> enc[s].Sig? && enc[s].symbol != CONSTANT
  }

  lemma RenamingFrameFor(subs: seq<Substitution>)
    requires Renames(subs)
    ensures RenamingFrame(Encode(subs))
  {
    var enc := Encode(subs);
    forall s | s in enc
      ensures enc[s].Sig? && enc[s].symbol != CONSTANT
    {
      EncodeOrigin(subs, s);
      var i :| 0 <= i < |subs| && subs[i].from == s && enc[s] == IntoExpression(subs[i].to);
      assert IsRenaming(subs[i]);
      var k: Signal :| k != CONSTANT && subs[i].to == map[k := 1];
      assert |subs[i].to.Keys| == 1 by { assert subs[i].to.Keys == {k}; }
    }
  }

  lemma ConstantRenamed(c: Constraint, r: Constraint, enc: Encoded, p: Prime)
    requires IsConstantEquality(c, p) && RenamingFrame(enc) && RewrittenSingle(c, r, enc, p)
    ensures IsConstantEquality(r, p)
  {
    var s: Signal :| ConstantEquality(c, s, p);
    assert SignalsOf(c) == {s};
    if s in enc {
      RenamedForm(c.c, s, enc[s].symbol, p);
      var c' := Apply(c, Substitution(s, map[enc[s].symbol := 1]), p);
      assert r == Fix(c', p);
      assert DropZeros(c'.a) == map[];
      FixLinear(c', p);
      assert ConstantEquality(r, enc[s].symbol, p);
    }
  }

  lemma RenamedForm(m: Form, s: Signal, t: Signal, p: Prime)
    requires Canonical(m, p) && s != CONSTANT && t != CONSTANT && s in m && m.Keys <= {s, CONSTANT}
    ensures var r := DropZeros(Substituted(m, Substitution(s, map[t := 1]), p));
      Canonical(r, p) && t in r && r.Keys <= {t, CONSTANT}
  {
    var r := Substituted(m, Substitution(s, map[t := 1]), p);
    var to := WithConstant(map[t := 1]);
    assert to == map[t := 1, CONSTANT := 0];
    var rest := WithConstant(m) - {s};
    assert t in rest ==> t == CONSTANT;
    assert Scale(to, m[s], p)[t] == (1 * m[s]) % p;
    SmallMod(p, m[s]);
    assert r[t] == (0 + m[s]) % p == m[s];
    DropZerosCanonical(r, p);
  }

  // ----- when encoding loses nothing

  /** Any two constants for the same signal agree. */
  ghost predicate NoConflict(subs: seq<Substitution>) {
    forall i, j :: 0 <= i < |subs| && 0 <= j < |subs| && subs[i].from == subs[j].from ==>
      Get(subs[i].to, CONSTANT) == Get(subs[j].to, CONSTANT)
  }

  lemma ConstantValue(s: Substitution, w: Assignment, p: Prime)
    requires IsConstant(s, p)
    ensures Eval(s.to, w) == Get(s.to, CONSTANT)
    ensures 0 <= Get(s.to, CONSTANT) < p
  {
    if CONSTANT in s.to {
      assert s.to == map[CONSTANT := s.to[CONSTANT]];
      EvalSingle(CONSTANT, s.to[CONSTANT], w);
    } else {
      assert s.to == map[];
      EvalNone(w);
    }
  }

  /** The assignment that gives every encoded signal its constant. */
  ghost function ConstantAssignment(subs: seq<Substitution>): Assignment
    requires forall i :: 0 <= i < |subs| ==> subs[i].from != CONSTANT
  {
    (s: Signal) => if s == CONSTANT then 1 else LastConstant(subs, s)
  }

  ghost function LastConstant(subs: seq<Substitution>, s: Signal): int {
    if subs == [] then 0
    else
      var last := |subs| - 1;
      if subs[last].from == s then Get(subs[last].to, CONSTANT) else LastConstant(subs[..last], s)
  }

  lemma {:induction false} LastConstantEncoded(subs: seq<Substitution>, w: Assignment, s: Signal, p: Prime)
    requires Constants(subs, p) && s in Encode(subs)
    ensures !Encode(subs)[s].NonQuadratic? && Value(Encode(subs)[s], w) == LastConstant(subs, s)
  {
    var last := |subs| - 1;
    if subs[last].from == s {
      IntoExpressionValue(subs[last].to, w);
      assert IsConstant(subs[last], p);
      ConstantValue(subs[last], w, p);
    } else {
      LastConstantEncoded(subs[..last], w, s, p);
    }
  }

  /** The encoded constants have the solutions of the list exactly when no two
      constants for the same signal differ. */
  lemma EncodeExact(subs: seq<Substitution>, p: Prime)
    requires Constants(subs, p)
    ensures (forall w: Assignment :: ObeysAll(w, subs, p) <==> ObeysFrame(w, Encode(subs), p)) <==> NoConflict(subs)
  {
    if NoConflict(subs) {
      forall w: Assignment
        ensures ObeysAll(w, subs, p) <==> ObeysFrame(w, Encode(subs), p)
      {
        NoConflictObeyed(subs, w, p);
      }
    }
    if forall w: Assignment :: ObeysAll(w, subs, p) <==> ObeysFrame(w, Encode(subs), p) {
      assert forall i :: 0 <= i < |subs| ==> IsConstant(subs[i], p);
      var w := ConstantAssignment(subs);
      ConstantAssignmentObeys(subs, p);
      assert ObeysAll(w, subs, p);
      forall i, j | 0 <= i < |subs| && 0 <= j < |subs| && subs[i].from == subs[j].from
        ensures Get(subs[i].to, CONSTANT) == Get(subs[j].to, CONSTANT)
      {
        assert Obeys(w, subs[i], p) && Obeys(w, subs[j], p);
        ConstantValue(subs[i], w, p);
        ConstantValue(subs[j], w, p);
        SmallMod(p, Get(subs[i].to, CONSTANT));
        SmallMod(p, Get(subs[j].to, CONSTANT));
      }
    }
  }

  lemma ConstantAssignmentObeys(subs: seq<Substitution>, p: Prime)
    requires Constants(subs, p)
    ensures forall i :: 0 <= i < |subs| ==> subs[i].from != CONSTANT
    ensures ObeysFrame(ConstantAssignment(subs), Encode(subs), p)
  {
    assert forall i :: 0 <= i < |subs| ==> IsConstant(subs[i], p);
    var w := ConstantAssignment(subs);
    forall s | s in Encode(subs)
      ensures !Encode(subs)[s].NonQuadratic? && Cong(p, w(s), Value(Encode(subs)[s], w))
    {
      EncodeOrigin(subs, s);
      LastConstantEncoded(subs, w, s, p);
    }
  }

  lemma NoConflictObeyed(subs: seq<Substitution>, w: Assignment, p: Prime)
    requires Constants(subs, p) && NoConflict(subs)
    ensures ObeysAll(w, subs, p) <==> ObeysFrame(w, Encode(subs), p)
  {
    if ObeysAll(w, subs, p) {
      EncodeObeyed(subs, w, p);
    }
    if ObeysFrame(w, Encode(subs), p) {
      forall i | 0 <= i < |subs|
        ensures Obeys(w, subs[i], p)
      {
        var s := subs[i].from;
        assert Removed(subs, s);
        EncodeOrigin(subs, s);
        var j :| 0 <= j < |subs| && subs[j].from == s && Encode(subs)[s] == IntoExpression(subs[j].to);
        IntoExpressionValue(subs[j].to, w);
        assert IsConstant(subs[i], p) && IsConstant(subs[j], p);
        ConstantValue(subs[i], w, p);
        ConstantValue(subs[j], w, p);
      }
    }
  }

  /** Two different constants for one signal: encoding forgets the first. */
  lemma EncodeForgets(w: Assignment, p: Prime)
    requires p > 2 && w(1) == 2
    ensures var subs := [Substitution(1, map[CONSTANT := 1]), Substitution(1, map[CONSTANT := 2])];
      ObeysFrame(w, Encode(subs), p) && !ObeysAll(w, subs, p)
  {
    var first, second := Substitution(1, map[CONSTANT := 1]), Substitution(1, map[CONSTANT := 2]);
    var subs := [first, second];
    assert subs[..1] == [first] && [first][..0] == [];
    assert |second.to| == 1 && IntoExpression(second.to) == Number(2);
    assert Encode([first]) == map[1 := IntoExpression(first.to)];
    assert Encode(subs) == Encode([first])[1 := Number(2)] == map[1 := Number(2)];
    assert !Obeys(w, subs[0], p) by {
      EvalSingle(CONSTANT, 1, w);
      SmallMod(p, 1);
      SmallMod(p, 2);
    }
    hide Obeys, IntoExpression, Encode;
    CongEqual(p, w(1), 2);
  }
}
