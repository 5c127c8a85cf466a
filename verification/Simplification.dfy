/** The whole pass: simplification in constraint_list/src/constraint_simplification.rs. */
module Simplification {
  import opened Field
  import opened Coefficients
  import opened Algebra
  import opened Constraints
  import opened Elimination
  import opened BackSubstitution
  import opened Extension
  import opened Clusters
  import opened Stages
  import opened Frames
  import opened NonLinear
  import opened Storage
  import opened SignalIndex
  import opened Witness
  import opened Log
  import opened LastEqualities

  datatype Simplifier = Simplifier(
    encoding: Encoding,
    forbidden: set<Signal>,
    equalities: seq<Constraint>,
    consEqualities: seq<Constraint>,
    linear: seq<Constraint>,
    maxSignal: nat,
    noRounds: nat,
    flagS: bool,
    flagOldHeuristics: bool)

  /** All constraints of the program hold. */
  ghost predicate Original(smp: Simplifier, w: Assignment, p: Prime) {
    && AllHold(smp.equalities, w, p)
    && AllHold(smp.consEqualities, w, p)
    && AllHold(smp.linear, w, p)
    && AllHold(Flatten(smp.encoding), w, p)
  }

  ghost function UpTo(n: nat): (r: set<Signal>)
    ensures forall s: Signal :: s in r <==> s < n
  {
    if n == 0 then {} else UpTo(n - 1) + {n - 1}
  }

  /** The constraints arrive sorted into kinds, with reduced coefficients. */
  ghost predicate ValidInput(smp: Simplifier, p: Prime) {
    && CONSTANT in smp.forbidden
    && EqualitySystem(smp.equalities, p)
    && ConstantEqualities(smp.consEqualities, p)
    && LinearSystem(smp.linear, p)
    && (forall i :: 0 <= i < |Flatten(smp.encoding)| ==> ReducedConstraint(Flatten(smp.encoding)[i], p))
    && SignalsOfAll(smp.equalities) <= UpTo(smp.maxSignal)
    && SignalsOfAll(smp.consEqualities) <= UpTo(smp.maxSignal)
    && SignalsOfAll(smp.linear) <= UpTo(smp.maxSignal)
    && SignalsOfAll(Flatten(smp.encoding)) <= UpTo(smp.maxSignal)
  }

  /** The program in which every signal keeps its last constant only, unless it has to stay. */
  ghost function Program(smp: Simplifier, p: Prime): (r: Simplifier)
    requires ConstantEqualities(smp.consEqualities, p)
  {
    smp.(consEqualities := LastOnly(smp.equalities, smp.consEqualities, smp.forbidden, p))
  }

  /** Programs that differ in their equalities with constants only. */
  ghost predicate Alike(prog: Simplifier, smp: Simplifier) {
    prog.(consEqualities := smp.consEqualities) == smp
  }

  lemma ProgramValid(smp: Simplifier, p: Prime)
    requires ValidInput(smp, p)
    ensures ValidInput(Program(smp, p), p) && Alike(Program(smp, p), smp)
  {
    hide SignalsOfAll, LastOnly, EqualitySystem, LinearSystem, ReducedConstraint, Flatten, IsConstantEquality;
    SelectedConstants(smp.consEqualities, SupersededSet(smp.equalities, smp.consEqualities, smp.forbidden, p), p);
    assert Program(smp, p).consEqualities == Select(smp.consEqualities, SupersededSet(smp.equalities, smp.consEqualities, smp.forbidden, p)) by {
      LastOnlyIs(smp, p);
    }
  }

  lemma LastOnlyIs(smp: Simplifier, p: Prime)
    requires ConstantEqualities(smp.consEqualities, p)
    ensures LastOnly(smp.equalities, smp.consEqualities, smp.forbidden, p)
      == Select(smp.consEqualities, SupersededSet(smp.equalities, smp.consEqualities, smp.forbidden, p))
  {
  }

  lemma SignalsBelow(cs: seq<Constraint>, n: nat)
    requires SignalsOfAll(cs) <= UpTo(n)
    ensures Below(cs, n)
  {
    hide SignalsOf;
    forall i, s | 0 <= i < |cs| && s in SignalsOf(cs[i])
      ensures s < n
    {
      assert s in SignalsOfAll(cs);
    }
  }

  // ----- a substitution list and its encoding

  /** Along the substitutions both lists have the same solutions. */
  ghost predicate SameAlong(subs: seq<Substitution>, cs: seq<Constraint>, rs: seq<Constraint>, p: Prime) {
    forall w: Assignment :: ObeysAll(w, subs, p) ==> (AllHold(rs, w, p) <==> AllHold(cs, w, p))
  }

  lemma EncodeTargets(subs: seq<Substitution>, signals: set<Signal>)
    ensures Targets(Encode(subs), signals) <= Rights(subs)
    ensures Encode(subs).Keys == Froms(subs)
  {
    var enc := Encode(subs);
    forall s
      ensures s in enc <==> s in Froms(subs)
    {
      EncodeOrigin(subs, s);
      FromsRemoved(subs);
    }
    forall t | t in Targets(enc, signals)
      ensures t in Rights(subs)
    {
      var s :| s in signals && s in enc && t in KeysOf(enc[s]) - {CONSTANT};
      EncodeOrigin(subs, s);
      var i :| 0 <= i < |subs| && subs[i].from == s && enc[s] == IntoExpression(subs[i].to);
      IntoExpressionKeys(subs[i].to);
      assert t in subs[i].to.Keys - {CONSTANT};
    }
  }

  /** Applying a whole list to a linear system removes its signals. */
  lemma UpdatedSystem(cs: seq<Constraint>, rs: seq<Constraint>, subs: seq<Substitution>, allowed: set<Signal>, p: Prime)
    requires UpdatedAll(cs, rs, Encode(subs), p)
    requires SignalsOfAll(cs) <= allowed && Rights(subs) <= allowed
    ensures SignalsOfAll(rs) <= allowed - Froms(subs)
    ensures LinearSystem(cs, p) ==> LinearSystem(rs, p)
    ensures SameAlong(subs, cs, rs, p)
  {
    hide SignalsOf, Rights, Froms, Encode, Targets, LinearConstraint, RewrittenSingle, Holds;
    var enc := Encode(subs);
    forall s | s in SignalsOfAll(rs)
      ensures s in allowed - Froms(subs)
    {
      var i :| 0 <= i < |rs| && s in SignalsOf(rs[i]);
      assert Updated(cs[i], rs[i], enc, p);
      EncodeTargets(subs, SignalsOf(cs[i]));
      if s in SignalsOf(cs[i]) {
        assert s in SignalsOfAll(cs);
      }
    }
    forall i | 0 <= i < |rs|
      ensures LinearConstraint(cs[i], p) ==> LinearConstraint(rs[i], p)
    {
      assert Updated(cs[i], rs[i], enc, p);
    }
    forall w: Assignment | ObeysAll(w, subs, p)
      ensures AllHold(rs, w, p) <==> AllHold(cs, w, p)
    {
      EncodeObeyed(subs, w, p);
      UpdatedHold(cs, rs, enc, w, p);
    }
  }

  lemma UpdatedHold(cs: seq<Constraint>, rs: seq<Constraint>, enc: Encoded, w: Assignment, p: Prime)
    requires UpdatedAll(cs, rs, enc, p) && ObeysFrame(w, enc, p)
    ensures AllHold(rs, w, p) <==> AllHold(cs, w, p)
  {
    hide SignalsOf, Targets, LinearConstraint, RewrittenSingle, Holds, ObeysFrame;
    forall i | 0 <= i < |rs|
      ensures Holds(rs[i], w, p) <==> Holds(cs[i], w, p)
    {
      assert Updated(cs[i], rs[i], enc, p);
    }
  }

  lemma LinearShapesOf(cs: seq<Constraint>, p: Prime)
    requires LinearSystem(cs, p)
    ensures LinearShapes(cs, p)
  {
  }

  lemma ConstantShapes(cs: seq<Constraint>, p: Prime)
    requires ConstantEqualities(cs, p)
    ensures LinearSystem(cs, p)
  {
    forall i | 0 <= i < |cs|
      ensures LinearConstraint(cs[i], p)
    {
      assert IsConstantEquality(cs[i], p);
    }
  }

  lemma ConstantsRenamed(cs: seq<Constraint>, rs: seq<Constraint>, subs: seq<Substitution>, p: Prime)
    requires ConstantEqualities(cs, p) && Renames(subs) && UpdatedAll(cs, rs, Encode(subs), p)
    ensures ConstantEqualities(rs, p)
  {
    hide IsConstantEquality, Encode, RewrittenSingle, Updated;
    RenamingFrameFor(subs);
    forall i | 0 <= i < |rs|
      ensures IsConstantEquality(rs[i], p)
    {
      ConstantRenamed(cs[i], rs[i], Encode(subs), p);
    }
  }

  lemma EncodeGoodInside(subs: seq<Substitution>, signals: set<Signal>, forbidden: set<Signal>, p: Prime)
    requires CONSTANT in forbidden && Inside(subs, signals, forbidden, p)
    requires NonOverlapping(subs) || Constants(subs, p)
    ensures GoodFrame(Encode(subs), p)
  {
    forall i | 0 <= i < |subs|
      ensures subs[i].from != CONSTANT && Reduced(subs[i].to, p)
      ensures Constants(subs, p) ==> IsConstant(subs[i], p)
    {
    }
    EncodeGood(subs, p);
  }

  // ----- relevance

  function Restrict(enc: Encoded, relevant: set<Signal>): Encoded {
    map s | s in enc && s in relevant :: enc[s]
  }

  method RemoveNotRelevant(substitutions: Encoded, relevant: set<Signal>) returns (r: Encoded)
    ensures r == Restrict(substitutions, relevant)
  {
    r := substitutions;
    var signals := substitutions.Keys;
    while signals != {}
      invariant signals <= substitutions.Keys
      invariant r.Keys == signals + (substitutions.Keys * relevant)
      invariant forall s :: s in r ==> r[s] == substitutions[s]
    {
      var signal :| signal in signals;
      if signal !in relevant {
        r := r - {signal};
      }
      signals := signals - {signal};
    }
  }

  function RelevantOnly(subs: seq<Substitution>, relevant: set<Signal>): seq<Substitution> {
    if subs == [] then []
    else
      var last := |subs| - 1;
      RelevantOnly(subs[..last], relevant) + if subs[last].from in relevant then [subs[last]] else []
  }

  /** Filtering before or after the encoding is the same. */
  lemma {:induction false} EncodeRelevant(subs: seq<Substitution>, relevant: set<Signal>)
    ensures Encode(RelevantOnly(subs, relevant)) == Restrict(Encode(subs), relevant)
  {
    if subs != [] {
      var last := |subs| - 1;
      EncodeRelevant(subs[..last], relevant);
      var before := RelevantOnly(subs[..last], relevant);
      if subs[last].from in relevant {
        assert (before + [subs[last]])[..|before|] == before;
      } else {
        assert before + [] == before;
      }
    }
  }

  lemma RestrictGood(enc: Encoded, relevant: set<Signal>, p: Prime)
    requires GoodFrame(enc, p)
    ensures GoodFrame(Restrict(enc, relevant), p)
  {
    hide KeysOf, GoodEntry;
  }

  lemma RestrictObeyed(enc: Encoded, relevant: set<Signal>, w: Assignment, p: Prime)
    requires ObeysFrame(w, enc, p)
    ensures ObeysFrame(w, Restrict(enc, relevant), p)
  {
    hide Cong, Value;
  }

  /** After the three frames no eliminated signal is left in a non-linear constraint. */
  lemma ReachedClean(n: set<Signal>, subs1: seq<Substitution>, subs2: seq<Substitution>, subs3: seq<Substitution>,
                     relevant: set<Signal>, universe: set<Signal>, p: Prime)
    requires Renames(subs1) && Constants(subs2, p)
    requires Rights(subs1) !! Froms(subs1)
    requires Rights(subs3) !! Froms(subs1) + Froms(subs2) + Froms(subs3)
    requires n <= universe && Rights(subs1) <= universe && Rights(subs3) <= universe
    requires relevant == Relevant(n, Restrict(Encode(subs1), n), Encode(subs2))
    ensures var frames := [Restrict(Encode(subs1), n), Encode(subs2), Restrict(Encode(subs3), relevant)];
      Reached(frames, n) <= universe - Froms(subs1) - Froms(subs2) - Froms(subs3)
  {
    var e1, e2, e3 := Restrict(Encode(subs1), n), Encode(subs2), Restrict(Encode(subs3), relevant);
    var s1 := n + Targets(e1, n) - e1.Keys;
    var s2 := s1 + Targets(e2, s1) - e2.Keys;
    var s3 := s2 + Targets(e3, s2) - e3.Keys;
    assert Reached([e1, e2, e3], n) == s3 by {
      ReachedThree(e1, e2, e3, n);
    }
    assert s1 <= universe - Froms(subs1) by {
      FirstFrame(n, subs1, universe);
    }
    assert s2 <= s1 - Froms(subs2) && s2 <= relevant by {
      SecondFrame(n, subs1, subs2, p);
    }
    ThirdFrame(s2, subs3, relevant);
  }

  lemma ReachedThree(e1: Encoded, e2: Encoded, e3: Encoded, n: set<Signal>)
    ensures var s1 := n + Targets(e1, n) - e1.Keys;
      var s2 := s1 + Targets(e2, s1) - e2.Keys;
      Reached([e1, e2, e3], n) == s2 + Targets(e3, s2) - e3.Keys
  {
    hide Targets;
    assert [e1][..0] == [] && [e1, e2][..1] == [e1] && [e1, e2, e3][..2] == [e1, e2];
    assert Reached([], n) == n;
    assert Reached([e1], n) == n + Targets(e1, n) - e1.Keys;
    assert Reached([e1, e2], n) == Reached([e1], n) + Targets(e2, Reached([e1], n)) - e2.Keys;
  }

  lemma RestrictTargets(subs: seq<Substitution>, relevant: set<Signal>, signals: set<Signal>)
    ensures Targets(Restrict(Encode(subs), relevant), signals) <= Rights(subs)
    ensures Restrict(Encode(subs), relevant).Keys == Froms(subs) * relevant
  {
    hide KeysOf, Rights, Froms;
    EncodeTargets(subs, signals);
    var enc := Encode(subs);
    forall t | t in Targets(Restrict(enc, relevant), signals)
      ensures t in Targets(enc, signals)
    {
      var s :| s in signals && s in Restrict(enc, relevant) && t in KeysOf(Restrict(enc, relevant)[s]) - {CONSTANT};
      assert t in KeysOf(enc[s]) - {CONSTANT};
    }
  }

  lemma FirstFrame(n: set<Signal>, subs1: seq<Substitution>, universe: set<Signal>)
    requires Rights(subs1) !! Froms(subs1) && n <= universe && Rights(subs1) <= universe
    ensures var e1 := Restrict(Encode(subs1), n);
      n + Targets(e1, n) - e1.Keys <= universe - Froms(subs1)
  {
    hide Restrict, Targets, Rights, Froms;
    RestrictTargets(subs1, n, n);
  }

  lemma SecondFrame(n: set<Signal>, subs1: seq<Substitution>, subs2: seq<Substitution>, p: Prime)
    requires Renames(subs1) && Constants(subs2, p)
    ensures var e1, e2 := Restrict(Encode(subs1), n), Encode(subs2);
      var s1 := n + Targets(e1, n) - e1.Keys;
      var s2 := s1 + Targets(e2, s1) - e2.Keys;
      s2 <= s1 - Froms(subs2) && s2 <= Relevant(n, e1, e2)
  {
    var e1, e2 := Restrict(Encode(subs1), n), Encode(subs2);
    var s1 := n + Targets(e1, n) - e1.Keys;
    RenamingFrameFor(subs1);
    EncodeTargets(subs2, s1);
    assert Rights(subs2) == {} by {
      forall i | 0 <= i < |subs2|
        ensures subs2[i].to.Keys - {CONSTANT} == {}
      {
        assert IsConstant(subs2[i], p);
      }
    }
    forall t | t in s1 && t !in e2
      ensures t in Relevant(n, e1, e2)
    {
      if t in n {
        assert Unwrapped(e1, t) == t;
      } else {
        var s :| s in n && s in e1 && t in KeysOf(e1[s]) - {CONSTANT};
        assert Unwrapped(e1, s) == t;
      }
    }
  }

  lemma ThirdFrame(s2: set<Signal>, subs3: seq<Substitution>, relevant: set<Signal>)
    requires s2 <= relevant
    ensures var e3 := Restrict(Encode(subs3), relevant);
      && s2 + Targets(e3, s2) - e3.Keys <= (s2 - Froms(subs3)) + Rights(subs3)
  {
    hide Restrict, Targets, Rights, Froms;
    RestrictTargets(subs3, relevant, s2);
  }

  // ----- equalities between signals

  lemma RightsInside(subs: seq<Substitution>, signals: set<Signal>, forbidden: set<Signal>, p: Prime)
    requires Inside(subs, signals, forbidden, p)
    ensures Rights(subs) <= signals && Froms(subs) <= signals - forbidden
    ensures NonOverlapping(subs) ==> Rights(subs) !! Froms(subs)
  {
  }

  /** The three kinds of constraints that the first stages rewrite. */
  ghost predicate Inputs(smp: Simplifier, w: Assignment, p: Prime) {
    AllHold(smp.equalities, w, p) && AllHold(smp.consEqualities, w, p) && AllHold(smp.linear, w, p)
  }

  /** The equalities alone, between signals and with constants. */
  ghost predicate AllEqualities(smp: Simplifier, w: Assignment, p: Prime) {
    AllHold(smp.equalities, w, p) && AllHold(smp.consEqualities, w, p)
  }

  /** New substitutions of signals that are still there repeat nothing. */
  lemma RepeatsAppend(log: seq<Substitution>, deleted: set<Signal>, more: seq<Substitution>, signals: set<Signal>,
                      forbidden: set<Signal>, universe: set<Signal>, p: Prime)
    requires NoRepeats(log) && ValidLog(log, deleted, forbidden, universe, p)
    requires NoRepeats(more) && Inside(more, signals, forbidden, p) && signals !! deleted
    ensures NoRepeats(log + more)
  {
    hide Reduced;
    var both := log + more;
    forall i, j | 0 <= i < j < |both|
      ensures both[i].from != both[j].from
    {
      AppendedApart(log, deleted, more, signals, forbidden, universe, p, i, j);
    }
  }

  lemma OverlapRepeats(subs: seq<Substitution>)
    requires NonOverlapping(subs)
    ensures NoRepeats(subs)
  {
  }

  /** Two substitutions of one signal both come before the new ones. */
  lemma AppendedApart(log: seq<Substitution>, deleted: set<Signal>, more: seq<Substitution>, signals: set<Signal>,
                      forbidden: set<Signal>, universe: set<Signal>, p: Prime, i: nat, j: nat)
    requires ValidLog(log, deleted, forbidden, universe, p) && i < j < |log + more|
    requires NoRepeats(more) && Inside(more, signals, forbidden, p) && signals !! deleted
    ensures (log + more)[i].from == (log + more)[j].from ==> j < |log| && (log + more)[i] == log[i] && (log + more)[j] == log[j]
  {
    hide Reduced, Triangular, RepeatsConstant;
    var both := log + more;
    if i < |log| {
      RemovedAt(log, i);
      assert both[i] == log[i] && (j < |log| ==> both[j] == log[j]);
      assert j >= |log| ==> both[j] == more[j - |log|];
    } else {
      assert both[i] == more[i - |log|] && both[j] == more[j - |log|];
    }
  }

  /** How the stage of equalities comes to its results. */
  ghost predicate SingleStage(smp: Simplifier, subs: seq<Substitution>, lconst: seq<Constraint>, linear: seq<Constraint>,
                              cons: seq<Constraint>, p: Prime)
  {
    && StageResult(smp.equalities, subs, lconst, smp.forbidden, p) && Renames(subs)
    && UpdatedAll(smp.linear, linear, Encode(subs), p)
    && UpdatedAll(smp.consEqualities, cons, Encode(subs), p)
  }

  ghost predicate AfterSingle(smp: Simplifier, subs: seq<Substitution>, lconst: seq<Constraint>, linear: seq<Constraint>,
                              cons: seq<Constraint>, p: Prime)
  {
    && ValidLog(subs, Froms(subs), smp.forbidden, UpTo(smp.maxSignal), p)
    && Renames(subs) && NonOverlapping(subs)
    && Kept(lconst, UpTo(smp.maxSignal), smp.forbidden, p)
    && LinearSystem(linear, p) && ConstantEqualities(cons, p)
    && SignalsOfAll(linear) <= UpTo(smp.maxSignal) - Froms(subs)
    && SignalsOfAll(cons) <= UpTo(smp.maxSignal) - Froms(subs)
    && forall w: Assignment ::
      Inputs(smp, w, p) <==> ObeysAll(w, subs, p) && AllHold(lconst, w, p) && AllHold(cons, w, p) && AllHold(linear, w, p)
  }

  method SingleAssignments(smp: Simplifier, p: Prime)
    returns (subs: seq<Substitution>, lconst: seq<Constraint>, linear: seq<Constraint>, cons: seq<Constraint>, encoded: Encoded)
    requires ValidInput(smp, p)
    ensures AfterSingle(smp, subs, lconst, linear, cons, p)
    ensures AfterSingle(Program(smp, p), subs, lconst, linear, Select(cons, RepeatedSet(cons, smp.forbidden, p)), p)
    ensures encoded == Encode(subs) && SingleStage(smp, subs, lconst, linear, cons, p)
  {
    ghost var universe := UpTo(smp.maxSignal);
    SignalsBelow(smp.equalities, smp.maxSignal);
    subs, lconst := EqSimplification(smp.equalities, smp.forbidden, smp.maxSignal, p);
    encoded := BuildEncodedFastSubstitutions(subs);
    EncodeGoodInside(subs, SignalsOfAll(smp.equalities), smp.forbidden, p);
    LinearShapesOf(smp.linear, p);
    linear := SubstituteAll(smp.linear, encoded, p);
    ConstantShapes(smp.consEqualities, p);
    LinearShapesOf(smp.consEqualities, p);
    cons := SubstituteAll(smp.consEqualities, encoded, p);
    SingleCorrect(smp, subs, lconst, linear, cons, p);
    ProgramSingle(smp, subs, lconst, linear, cons, p);
  }

  /** The same stage for the program that keeps the last constants only. */
  lemma ProgramSingle(smp: Simplifier, subs: seq<Substitution>, lconst: seq<Constraint>, linear: seq<Constraint>,
                      cons: seq<Constraint>, p: Prime)
    requires ValidInput(smp, p)
    requires StageResult(smp.equalities, subs, lconst, smp.forbidden, p) && Renames(subs)
    requires UpdatedAll(smp.linear, linear, Encode(subs), p)
    requires UpdatedAll(smp.consEqualities, cons, Encode(subs), p) && ConstantEqualities(cons, p)
    ensures AfterSingle(Program(smp, p), subs, lconst, linear, Select(cons, RepeatedSet(cons, smp.forbidden, p)), p)
  {
    hide SignalsOfAll, UpdatedAll, StageResult, Superseded, Repeated, IsConstantEquality, Encode, Renames, Select, AfterSingle, EqualitySystem,
         ReducedConstraint, UpTo, LinearSystem;
    var all, dropped := smp.consEqualities, SupersededSet(smp.equalities, smp.consEqualities, smp.forbidden, p);
    assert Renamed(smp.equalities, subs, lconst, smp.forbidden, p);
    UpdatedLength(all, cons, Encode(subs), p);
    forall i: nat | i < |all|
      ensures Superseded(smp.equalities, all, smp.forbidden, i, p) <==> Repeated(cons, smp.forbidden, i, p)
    {
      SupersededRepeated(smp.equalities, all, cons, subs, lconst, smp.forbidden, i, p);
    }
    assert dropped == RepeatedSet(cons, smp.forbidden, p);
    SelectedUpdated(all, cons, dropped, Encode(subs), p);
    ProgramValid(smp, p);
    LastOnlyIs(smp, p);
    SingleCorrect(Program(smp, p), subs, lconst, linear, Select(cons, dropped), p);
  }

  lemma UpdatedLength(cs: seq<Constraint>, rs: seq<Constraint>, enc: Encoded, p: Prime)
    requires UpdatedAll(cs, rs, enc, p)
    ensures |rs| == |cs|
  {
  }

  lemma SingleCorrect(smp: Simplifier, subs: seq<Substitution>, lconst: seq<Constraint>, linear: seq<Constraint>,
                      cons: seq<Constraint>, p: Prime)
    requires ValidInput(smp, p)
    requires StageResult(smp.equalities, subs, lconst, smp.forbidden, p) && Renames(subs)
    requires UpdatedAll(smp.linear, linear, Encode(subs), p)
    requires UpdatedAll(smp.consEqualities, cons, Encode(subs), p)
    ensures AfterSingle(smp, subs, lconst, linear, cons, p)
  {
    hide SignalsOfAll, AllHold, ObeysAll, UpdatedAll, LinearSystem, ConstantEqualities, EqualitySystem, Renames, NonOverlapping,
         KeptConstraint, ReducedConstraint, Encode, Froms, Rights, UpTo, ValidLog, Inside;
    var universe := UpTo(smp.maxSignal);
    var signals := SignalsOfAll(smp.equalities);
    RightsInside(subs, signals, smp.forbidden, p);
    UpdatedSystem(smp.linear, linear, subs, universe, p);
    UpdatedSystem(smp.consEqualities, cons, subs, universe, p);
    ConstantsRenamed(smp.consEqualities, cons, subs, p);
    KeptMonotone(lconst, signals, universe, smp.forbidden, p);
    LogFirst(subs, signals, smp.forbidden, universe, p);
  }

  lemma LogFirst(subs: seq<Substitution>, signals: set<Signal>, forbidden: set<Signal>, universe: set<Signal>, p: Prime)
    requires CONSTANT in forbidden && Inside(subs, signals, forbidden, p) && signals <= universe
    requires NonOverlapping(subs) || Constants(subs, p)
    ensures ValidLog(subs, Froms(subs), forbidden, universe, p)
  {
    LogStart(forbidden, universe, p);
    LogAppend([], {}, subs, signals, forbidden, universe, p);
    assert [] + subs == subs && {} + Froms(subs) == Froms(subs);
  }

  // ----- equalities with constants

  ghost predicate AfterConstant(smp: Simplifier, log: seq<Substitution>, deleted: set<Signal>, lconst: seq<Constraint>,
                                linear: seq<Constraint>, p: Prime)
  {
    && ValidLog(log, deleted, smp.forbidden, UpTo(smp.maxSignal), p) && NoRepeats(log)
    && Kept(lconst, UpTo(smp.maxSignal), smp.forbidden, p)
    && LinearSystem(linear, p)
    && SignalsOfAll(linear) <= UpTo(smp.maxSignal) - deleted
    && forall w: Assignment ::
      Inputs(smp, w, p) <==> ObeysAll(w, log, p) && AllHold(lconst, w, p) && AllHold(linear, w, p)
  }

  /** How the stage of constants comes to its results. */
  ghost predicate ConstantStageOf(smp: Simplifier, lconst: seq<Constraint>, linear: seq<Constraint>, cons: seq<Constraint>,
                                  subs: seq<Substitution>, lconst': seq<Constraint>, linear': seq<Constraint>, p: Prime)
  {
    && ConstantEqualities(cons, p)
    && subs == ConstantSubs(cons, smp.forbidden, p) && lconst' == lconst + ConstantRest(cons, smp.forbidden, p)
    && UpdatedAll(linear, linear', Encode(subs), p)
  }

  /** The stage of constants keeps the solutions. */
  ghost predicate ConstantsKeep(smp: Simplifier, log: seq<Substitution>, lconst: seq<Constraint>, linear: seq<Constraint>, p: Prime) {
    forall w: Assignment :: Inputs(smp, w, p) <==> ObeysAll(w, log, p) && AllHold(lconst, w, p) && AllHold(linear, w, p)
  }

  /** The substitutions that count are those in the encoding, the last for every signal. */
  ghost predicate CountOnly(effective: seq<Substitution>, all: seq<Substitution>) {
    && Encode(effective) == Encode(all) && Froms(effective) == Froms(all)
    && forall s :: s in effective ==> s in all
  }

  method ConstantAssignments(smp: Simplifier, single: seq<Substitution>, lconst: seq<Constraint>, linear: seq<Constraint>,
                             cons: seq<Constraint>, p: Prime)
    returns (subs: seq<Substitution>, lconst': seq<Constraint>, linear': seq<Constraint>, encoded: Encoded,
             ghost effective: seq<Substitution>)
    requires ValidInput(smp, p) && AfterSingle(smp, single, lconst, linear, cons, p)
    requires AfterSingle(Program(smp, p), single, lconst, linear, Select(cons, RepeatedSet(cons, smp.forbidden, p)), p)
    ensures Constants(subs, p) && encoded == Encode(subs) && GoodFrame(encoded, p)
    ensures ConstantStageOf(smp, lconst, linear, cons, subs, lconst', linear', p)
    ensures ConstantsKeep(smp, single + subs, lconst', linear', p)
    ensures CountOnly(effective, subs) && Constants(effective, p)
    ensures AfterConstant(Program(smp, p), single + effective, Froms(single) + Froms(effective), lconst', linear', p)
  {
    hide AfterSingle, ValidInput, Select, RepeatedSet;
    SingleFacts(smp, single, lconst, linear, cons, p);
    var kept;
    subs, kept := ConstantEqSimplification(cons, smp.forbidden, p);
    lconst' := lconst + kept;
    encoded := BuildEncodedFastSubstitutions(subs);
    EncodeGoodInside(subs, SignalsOfAll(cons), smp.forbidden, p);
    LinearShapesOf(linear, p);
    linear' := SubstituteAll(linear, encoded, p);
    ConstantCorrect(smp, single, lconst, linear, cons, subs, kept, linear', p);
    effective := ProgramConstants(smp, single, lconst, linear, cons, subs, kept, linear', p);
  }

  lemma SingleFacts(smp: Simplifier, single: seq<Substitution>, lconst: seq<Constraint>, linear: seq<Constraint>,
                    cons: seq<Constraint>, p: Prime)
    requires ValidInput(smp, p) && AfterSingle(smp, single, lconst, linear, cons, p)
    ensures CONSTANT in smp.forbidden && ConstantEqualities(cons, p) && LinearSystem(linear, p)
  {
  }

  /** The same stage for the program that keeps the last constants only. */
  lemma ProgramConstants(smp: Simplifier, single: seq<Substitution>, lconst: seq<Constraint>, linear: seq<Constraint>,
                         cons: seq<Constraint>, subs: seq<Substitution>, kept: seq<Constraint>, linear': seq<Constraint>, p: Prime)
    returns (effective: seq<Substitution>)
    requires ValidInput(smp, p) && ConstantEqualities(cons, p)
    requires AfterSingle(Program(smp, p), single, lconst, linear, Select(cons, RepeatedSet(cons, smp.forbidden, p)), p)
    requires subs == ConstantSubs(cons, smp.forbidden, p) && kept == ConstantRest(cons, smp.forbidden, p)
    requires UpdatedAll(linear, linear', Encode(subs), p)
    ensures CountOnly(effective, subs) && Constants(effective, p)
    ensures AfterConstant(Program(smp, p), single + effective, Froms(single) + Froms(effective), lconst + kept, linear', p)
  {
    hide AfterSingle, AfterConstant, ValidInput, Select, RepeatedSet, ConstantSubs, ConstantRest, UpdatedAll, SignalsOfAll, NoRepeats, IsConstantEquality,
         Program, Kept, Inside;
    var some := Select(cons, RepeatedSet(cons, smp.forbidden, p));
    InputConstants(smp, p);
    ProgramValid(smp, p);
    assert CONSTANT in smp.forbidden by { InputForbidden(smp, p); }
    SelectedStage(cons, RepeatedSet(cons, smp.forbidden, p), smp.forbidden, p);
    effective := ConstantSubs(some, smp.forbidden, p);
    ConstantStageHolds(some, smp.forbidden, p);
    EncodeTargets(effective, {});
    EncodeTargets(subs, {});
    assert Program(smp, p).forbidden == smp.forbidden;
    ConstantCorrect(Program(smp, p), single, lconst, linear, some, effective, kept, linear', p);
    NoRepeatsAfter(Program(smp, p), single, lconst, linear, some, effective, p);
    AfterConstantFrom(Program(smp, p), single, lconst, linear, some, effective, kept, linear', p);
  }

  lemma NoRights(subs: seq<Substitution>, p: Prime)
    requires Constants(subs, p)
    ensures Rights(subs) == {}
  {
    forall i | 0 <= i < |subs|
      ensures subs[i].to.Keys - {CONSTANT} == {}
    {
      assert IsConstant(subs[i], p);
    }
  }

  lemma ConstantCorrect(smp: Simplifier, single: seq<Substitution>, lconst: seq<Constraint>, linear: seq<Constraint>,
                        cons: seq<Constraint>, subs: seq<Substitution>, kept: seq<Constraint>, linear': seq<Constraint>, p: Prime)
    requires ValidInput(smp, p) && AfterSingle(smp, single, lconst, linear, cons, p)
    requires ConstantStage(cons, subs, kept, smp.forbidden, p)
    requires UpdatedAll(linear, linear', Encode(subs), p)
    ensures ConstantsKeep(smp, single + subs, lconst + kept, linear', p)
    ensures ValidLog(single + subs, Froms(single) + Froms(subs), smp.forbidden, UpTo(smp.maxSignal), p)
    ensures Kept(lconst + kept, UpTo(smp.maxSignal), smp.forbidden, p)
    ensures LinearSystem(linear', p) && SignalsOfAll(linear') <= UpTo(smp.maxSignal) - (Froms(single) + Froms(subs))
  {
    hide SignalsOfAll, AllHold, ObeysAll, UpdatedAll, LinearSystem, ConstantEqualities, EqualitySystem, Renames, NonOverlapping,
         KeptConstraint, ReducedConstraint, Encode, Froms, Rights, UpTo, ValidLog, Inside, Kept, Constants, Inputs, Removed;
    var universe := UpTo(smp.maxSignal);
    NoRights(subs, p);
    UpdatedSystem(linear, linear', subs, universe - Froms(single), p);
    LogAppend(single, Froms(single), subs, SignalsOfAll(cons), smp.forbidden, universe, p);
    KeptConcat(lconst, kept, universe, SignalsOfAll(cons), smp.forbidden, p);
    assert universe + SignalsOfAll(cons) == universe;
    forall w: Assignment
      ensures Inputs(smp, w, p) <==>
        ObeysAll(w, single + subs, p) && AllHold(lconst + kept, w, p) && AllHold(linear', w, p)
    {
      ObeysAllConcat(single, subs, w, p);
      AllHoldConcat(lconst, kept, w, p);
    }
  }

  lemma NoRepeatsAfter(smp: Simplifier, single: seq<Substitution>, lconst: seq<Constraint>, linear: seq<Constraint>,
                       cons: seq<Constraint>, subs: seq<Substitution>, p: Prime)
    requires AfterSingle(smp, single, lconst, linear, cons, p)
    requires NoRepeats(subs) && Inside(subs, SignalsOfAll(cons), smp.forbidden, p)
    ensures NoRepeats(single + subs)
  {
    hide SignalsOfAll, AllHold, ObeysAll, LinearSystem, ConstantEqualities, Renames, Inside, Kept, ValidLog, Froms, UpTo;
    RepeatsAppend(single, Froms(single), subs, SignalsOfAll(cons), smp.forbidden, UpTo(smp.maxSignal), p);
  }

  lemma AfterConstantFrom(smp: Simplifier, single: seq<Substitution>, lconst: seq<Constraint>, linear: seq<Constraint>,
                          cons: seq<Constraint>, subs: seq<Substitution>, kept: seq<Constraint>, linear': seq<Constraint>, p: Prime)
    requires ConstantsKeep(smp, single + subs, lconst + kept, linear', p) && NoRepeats(single + subs)
    requires ValidLog(single + subs, Froms(single) + Froms(subs), smp.forbidden, UpTo(smp.maxSignal), p)
    requires Kept(lconst + kept, UpTo(smp.maxSignal), smp.forbidden, p)
    requires LinearSystem(linear', p) && SignalsOfAll(linear') <= UpTo(smp.maxSignal) - (Froms(single) + Froms(subs))
    ensures AfterConstant(smp, single + subs, Froms(single) + Froms(subs), lconst + kept, linear', p)
  {
  }

  // ----- linear constraints

  ghost predicate AfterLinear(smp: Simplifier, log: seq<Substitution>, deleted: set<Signal>, lconst: seq<Constraint>, p: Prime) {
    && ValidLog(log, deleted, smp.forbidden, UpTo(smp.maxSignal), p) && NoRepeats(log)
    && LinearShapes(lconst, p)
    && SignalsOfAll(lconst) <= UpTo(smp.maxSignal) - deleted
    && (!smp.flagS ==> SignalsOfAll(lconst) <= smp.forbidden)
    && forall w: Assignment :: Inputs(smp, w, p) <==> ObeysAll(w, log, p) && AllHold(lconst, w, p)
  }

  /** How the stage of linear constraints comes to its results; others are the residual constraints. */
  ghost predicate LinearStage(smp: Simplifier, lconst: seq<Constraint>, linear: seq<Constraint>, relevant: set<Signal>,
                              subs: seq<Substitution>, others: seq<Constraint>, lconst': seq<Constraint>, p: Prime)
  {
    if smp.flagS then subs == [] && lconst' == lconst + linear
    else
      && StageResult(linear, subs, others, smp.forbidden, p) && ByHeuristic(linear, subs, smp.forbidden, smp.flagOldHeuristics)
      && UpdatedAll(lconst + others, lconst', Restrict(Encode(subs), relevant), p)
  }

  /** The substitutions of relevant signals; all signals are noted as deleted. */
  method SelectRelevant(subs: seq<Substitution>, relevant: set<Signal>, deleted: set<Signal>)
    returns (onlyRelevant: seq<Substitution>, deleted': set<Signal>)
    ensures onlyRelevant == RelevantOnly(subs, relevant)
    ensures deleted' == deleted + Froms(subs)
  {
    onlyRelevant, deleted' := [], deleted;
    for i := 0 to |subs|
      invariant onlyRelevant == RelevantOnly(subs[..i], relevant)
      invariant deleted' == deleted + Froms(subs[..i])
    {
      assert subs[..i + 1][..i] == subs[..i];
      assert Froms(subs[..i + 1]) == Froms(subs[..i]) + {subs[i].from};
      deleted' := deleted' + {subs[i].from};
      if subs[i].from in relevant {
        onlyRelevant := onlyRelevant + [subs[i]];
      }
    }
    assert subs[..|subs|] == subs;
  }

  method LinearAssignments(smp: Simplifier, ghost prog: Simplifier, ghost log: seq<Substitution>, deleted: set<Signal>,
                           lconst: seq<Constraint>, linear: seq<Constraint>, relevant: set<Signal>, p: Prime)
    returns (subs: seq<Substitution>, lconst': seq<Constraint>, encoded: Encoded, deleted': set<Signal>, ghost others: seq<Constraint>)
    requires ValidInput(prog, p) && Alike(prog, smp) && AfterConstant(prog, log, deleted, lconst, linear, p)
    ensures deleted' == deleted + Froms(subs)
    ensures encoded == Restrict(Encode(subs), relevant) && GoodFrame(encoded, p)
    ensures Rights(subs) <= UpTo(smp.maxSignal) - deleted'
    ensures AfterLinear(prog, log + subs, deleted', lconst', p)
    ensures LinearStage(smp, lconst, linear, relevant, subs, others, lconst', p)
  {
    others := [];
    if smp.flagS {
      subs, encoded, deleted' := [], map[], deleted;
      lconst' := lconst + linear;
      assert Froms(subs) == {} && Rights(subs) == {};
      NoLinearCorrect(prog, log, deleted, lconst, linear, p);
      assert log + subs == log;
    } else {
      var cons, onlyRelevant;
      SignalsBelow(linear, smp.maxSignal);
      subs, cons := LinearSimplification(linear, smp.forbidden, smp.maxSignal, smp.flagOldHeuristics, p);
      others := cons;
      onlyRelevant, deleted' := SelectRelevant(subs, relevant, deleted);
      encoded := BuildEncodedFastSubstitutions(onlyRelevant);
      EncodeRelevant(subs, relevant);
      EncodeGoodInside(subs, SignalsOfAll(linear), smp.forbidden, p);
      RestrictGood(Encode(subs), relevant, p);
      RightsInside(subs, SignalsOfAll(linear), smp.forbidden, p);
      LconstShapes(lconst + cons, prog, lconst, cons, SignalsOfAll(linear), p);
      lconst' := SubstituteAll(lconst + cons, encoded, p);
      LinearCorrect(prog, log, deleted, lconst, linear, subs, cons, relevant, lconst', p);
    }
  }

  lemma NoLinearCorrect(smp: Simplifier, log: seq<Substitution>, deleted: set<Signal>, lconst: seq<Constraint>,
                        linear: seq<Constraint>, p: Prime)
    requires smp.flagS && AfterConstant(smp, log, deleted, lconst, linear, p)
    ensures AfterLinear(smp, log, deleted, lconst + linear, p)
  {
    hide SignalsOfAll, AllHold, ObeysAll, ReducedConstraint, Froms, Rights, UpTo, SignalsOf, LinearShape, LinearConstraint;
    var universe := UpTo(smp.maxSignal);
    SignalsOfAllConcat(lconst, linear);
    KeptSignals(lconst, universe, smp.forbidden, p);
    LinearShapesOf(linear, p);
    ShapesConcat(lconst, linear, p);
    forall w: Assignment
      ensures Inputs(smp, w, p) <==> ObeysAll(w, log, p) && AllHold(lconst + linear, w, p)
    {
      AllHoldConcat(lconst, linear, w, p);
    }
  }

  lemma KeptSignals(cons: seq<Constraint>, signals: set<Signal>, forbidden: set<Signal>, p: Prime)
    requires Kept(cons, signals, forbidden, p)
    ensures SignalsOfAll(cons) <= signals * forbidden && LinearShapes(cons, p)
  {
    hide SignalsOf, ReducedConstraint, LinearShape;
    forall s | s in SignalsOfAll(cons)
      ensures s in signals * forbidden
    {
      var i :| 0 <= i < |cons| && s in SignalsOf(cons[i]);
      assert KeptConstraint(cons[i], signals, forbidden, p);
    }
    forall i | 0 <= i < |cons|
      ensures ReducedConstraint(cons[i], p) && LinearShape(cons[i])
    {
      assert KeptConstraint(cons[i], signals, forbidden, p);
    }
  }

  lemma ShapesConcat(cs: seq<Constraint>, ds: seq<Constraint>, p: Prime)
    requires LinearShapes(cs, p) && LinearShapes(ds, p)
    ensures LinearShapes(cs + ds, p)
  {
    hide ReducedConstraint, LinearShape;
  }

  lemma LconstShapes(both: seq<Constraint>, smp: Simplifier, lconst: seq<Constraint>, cons: seq<Constraint>, signals: set<Signal>, p: Prime)
    requires both == lconst + cons
    requires Kept(lconst, UpTo(smp.maxSignal), smp.forbidden, p) && Kept(cons, signals, smp.forbidden, p)
    requires signals <= UpTo(smp.maxSignal)
    ensures LinearShapes(both, p) && SignalsOfAll(both) <= UpTo(smp.maxSignal) * smp.forbidden
  {
    hide SignalsOfAll, Kept;
    KeptSignals(lconst, UpTo(smp.maxSignal), smp.forbidden, p);
    KeptSignals(cons, signals, smp.forbidden, p);
    ShapesConcat(lconst, cons, p);
    SignalsOfAllConcat(lconst, cons);
  }

  /** A frame that replaces none of the signals changes nothing. */
  lemma UpdatedUntouched(cs: seq<Constraint>, rs: seq<Constraint>, enc: Encoded, p: Prime)
    requires UpdatedAll(cs, rs, enc, p) && SignalsOfAll(cs) !! enc.Keys
    ensures SignalsOfAll(rs) <= SignalsOfAll(cs) && LinearShapes(rs, p)
  {
    hide SignalsOf, Targets, LinearConstraint, RewrittenSingle, Holds, ObeysFrame, ReducedConstraint, LinearShape;
    forall s | s in SignalsOfAll(rs)
      ensures s in SignalsOfAll(cs)
    {
      var i :| 0 <= i < |rs| && s in SignalsOf(rs[i]);
      assert Updated(cs[i], rs[i], enc, p);
      NoTargets(cs, i, enc);
    }
    forall i | 0 <= i < |rs|
      ensures ReducedConstraint(rs[i], p) && LinearShape(rs[i])
    {
      assert Updated(cs[i], rs[i], enc, p);
    }
  }

  lemma NoTargets(cs: seq<Constraint>, i: nat, enc: Encoded)
    requires i < |cs| && SignalsOfAll(cs) !! enc.Keys
    ensures Targets(enc, SignalsOf(cs[i])) == {}
  {
    hide SignalsOf;
    forall s | s in SignalsOf(cs[i])
      ensures s !in enc
    {
      assert s in SignalsOfAll(cs);
    }
  }

  lemma LinearCorrect(smp: Simplifier, log: seq<Substitution>, deleted: set<Signal>, lconst: seq<Constraint>,
                      linear: seq<Constraint>, subs: seq<Substitution>, cons: seq<Constraint>, relevant: set<Signal>,
                      lconst': seq<Constraint>, p: Prime)
    requires ValidInput(smp, p) && !smp.flagS && AfterConstant(smp, log, deleted, lconst, linear, p)
    requires StageResult(linear, subs, cons, smp.forbidden, p)
    requires UpdatedAll(lconst + cons, lconst', Restrict(Encode(subs), relevant), p)
    ensures AfterLinear(smp, log + subs, deleted + Froms(subs), lconst', p)
  {
    hide SignalsOfAll, AllHold, ObeysAll, UpdatedAll, LinearSystem, ConstantEqualities, EqualitySystem, NonOverlapping,
         ReducedConstraint, Encode, Restrict, Froms, Rights, UpTo, ValidLog, Inside, Kept, Inputs, LinearShapes;
    var universe, signals := UpTo(smp.maxSignal), SignalsOfAll(linear);
    var enc := Restrict(Encode(subs), relevant);
    LogAppend(log, deleted, subs, signals, smp.forbidden, universe, p);
    OverlapRepeats(subs);
    RepeatsAppend(log, deleted, subs, signals, smp.forbidden, universe, p);
    LconstShapes(lconst + cons, smp, lconst, cons, signals, p);
    RestrictTargets(subs, relevant, {});
    RightsInside(subs, signals, smp.forbidden, p);
    UpdatedUntouched(lconst + cons, lconst', enc, p);
    DeletedNotForbidden(log + subs, deleted + Froms(subs), smp.forbidden, universe, p);
    forall w: Assignment
      ensures Inputs(smp, w, p) <==> ObeysAll(w, log + subs, p) && AllHold(lconst', w, p)
    {
      ObeysAllConcat(log, subs, w, p);
      AllHoldConcat(lconst, cons, w, p);
      if ObeysAll(w, subs, p) {
        EncodeObeyed(subs, w, p);
        RestrictObeyed(Encode(subs), relevant, w, p);
        UpdatedHold(lconst + cons, lconst', enc, w, p);
      }
    }
  }

  lemma DeletedNotForbidden(log: seq<Substitution>, deleted: set<Signal>, forbidden: set<Signal>, universe: set<Signal>, p: Prime)
    requires ValidLog(log, deleted, forbidden, universe, p)
    ensures deleted !! forbidden
  {
  }

  // ----- rounds over the non-linear constraints

  /** Of the stored constraints only empty ones are linear. */
  ghost predicate NonLinearRest(stored: seq<Constraint>) {
    forall i :: 0 <= i < |stored| && IsLinear(stored[i]) ==> stored[i] == EMPTY
  }

  /** Where the pass stands between two rounds; `keys` are the signals in the index, and subs and constants are what
      the last round made of the linear constraints. */
  datatype State = State(
    log: seq<Substitution>,
    deleted: set<Signal>,
    lconst: seq<Constraint>,
    linear: seq<Constraint>,
    stored: seq<Constraint>,
    keys: set<Signal>,
    subs: seq<Substitution>,
    constants: seq<Constraint>)

  /** What one round does. */
  ghost predicate Step(smp: Simplifier, a: State, b: State, p: Prime) {
    && StageResult(a.linear, b.subs, b.constants, smp.forbidden, p)
    && ByHeuristic(a.linear, b.subs, smp.forbidden, smp.flagOldHeuristics)
    && b.log == a.log + b.subs && b.deleted == a.deleted + Froms(b.subs)
    && SignalsOfAll(b.lconst) <= SignalsOfAll(a.lconst + b.constants) && SameAlong(b.subs, a.lconst + b.constants, b.lconst, p)
    && Pushed(a.stored, b.stored, b.linear, b.subs, p) && b.keys == KeysAfter(a.keys, b.subs)
  }

  /** Eliminated signals are gone, and stored constraints are not linear. */
  ghost predicate Tidy(smp: Simplifier, s: State) {
    && s.deleted <= UpTo(smp.maxSignal) && SignalsOfAll(s.linear) !! s.deleted
    && NonLinearRest(s.stored) && (!smp.flagS ==> SignalsOfAll(s.lconst) <= smp.forbidden)
  }

  /** All rounds, each made for linear constraints that were there. */
  ghost predicate Run(smp: Simplifier, run: seq<State>, p: Prime) {
    && run != [] && (forall i :: 0 <= i < |run| ==> Tidy(smp, run[i]))
    && forall i :: 0 < i < |run| ==> StepAt(smp, run, i, p)
  }

  ghost predicate StepAt(smp: Simplifier, run: seq<State>, i: nat, p: Prime)
    requires 0 < i < |run|
  {
    run[i - 1].linear != [] && Step(smp, run[i - 1], run[i], p)
  }

  /** How many rounds are allowed after the first stages. */
  function Rounds(smp: Simplifier): nat {
    if smp.flagS || smp.noRounds == 0 then 0 else smp.noRounds - 1
  }

  /** A round that leaves linear constraints has eliminated a signal. */
  lemma RoundProgress(smp: Simplifier, a: State, b: State, p: Prime)
    requires Tidy(smp, a) && Step(smp, a, b, p) && b.linear != []
    ensures a.deleted < b.deleted
  {
    hide SignalsOfAll, SameAlong, AllHold, ObeysAll, Kept, Equivalent, UpTo;
    var s := b.subs[0];
    assert s.from in Froms(b.subs);
    assert s.from in SignalsOfAll(a.linear);
  }

  lemma {:induction false} DeletedGrows(smp: Simplifier, run: seq<State>, p: Prime)
    requires Run(smp, run, p) && run[|run| - 1].linear != []
    ensures |run[|run| - 1].deleted| >= |run| - 1
  {
    hide Step, Tidy;
    var last := |run| - 1;
    if last > 0 {
      var before := run[..last];
      assert forall i :: 0 < i < last ==> StepAt(smp, run, i, p) && StepAt(smp, before, i, p);
      assert StepAt(smp, run, last, p);
      DeletedGrows(smp, before, p);
      RoundProgress(smp, run[last - 1], run[last], p);
      LargerSet(run[last - 1].deleted, run[last].deleted);
    }
  }

  lemma LargerSet(a: set<Signal>, b: set<Signal>)
    requires a < b
    ensures |a| < |b|
  {
    var x :| x in b && x !in a;
    assert a <= b - {x};
    SmallerSet(a, b - {x});
  }

  lemma {:induction false} SmallerSet(a: set<Signal>, b: set<Signal>)
    requires a <= b
    ensures |a| <= |b|
  {
    if a != {} {
      var x :| x in a;
      SmallerSet(a - {x}, b - {x});
    }
  }

  lemma {:induction false} UpToSize(n: nat)
    ensures |UpTo(n)| == n
  {
    if n > 0 {
      UpToSize(n - 1);
    }
  }

  /** More rounds than signals are never made. */
  lemma EnoughRounds(smp: Simplifier, run: seq<State>, p: Prime)
    requires Run(smp, run, p) && |run| - 1 > smp.maxSignal
    ensures run[|run| - 1].linear == []
  {
    hide Step, SignalsOfAll, UpTo;
    var last := |run| - 1;
    if run[last].linear != [] {
      DeletedGrows(smp, run, p);
      UpToSize(smp.maxSignal);
      assert Tidy(smp, run[last]);
      SmallerSet(run[last].deleted, UpTo(smp.maxSignal));
    }
  }

  /** What every round keeps. */
  ghost predicate Round(smp: Simplifier, log: seq<Substitution>, deleted: set<Signal>, lconst: seq<Constraint>,
                        linear: seq<Constraint>, stored: seq<Constraint>, index: Index, p: Prime)
  {
    && ValidLog(log, deleted, smp.forbidden, UpTo(smp.maxSignal), p) && NoRepeats(log)
    && LinearShapes(lconst, p) && LinearSystem(linear, p) && CanonicalAll(stored, p)
    && Complete(stored, index) && ValidIds(index, |stored|) && NonLinearRest(stored)
    && SignalsOfAll(lconst) <= UpTo(smp.maxSignal) - deleted
    && (!smp.flagS ==> SignalsOfAll(lconst) <= smp.forbidden)
    && SignalsOfAll(linear) + SignalsOfAll(stored) <= UpTo(smp.maxSignal) - deleted
    && forall w: Assignment :: Original(smp, w, p) <==>
      ObeysAll(w, log, p) && AllHold(lconst, w, p) && AllHold(linear, w, p) && AllHold(stored, w, p)
  }

  /** One constraint, all substitutions, and the zeros removed. */
  method SubstituteEach(constraint: Constraint, subs: seq<Substitution>, p: Prime) returns (c: Constraint)
    requires ReducedConstraint(constraint, p) && LinearShape(constraint)
    requires forall i :: 0 <= i < |subs| ==> subs[i].from !in SignalsOf(constraint) && subs[i].from != CONSTANT
    ensures ReducedConstraint(c, p) && LinearShape(c) && SignalsOf(c) <= SignalsOf(constraint)
    ensures forall w: Assignment :: ObeysAll(w, subs, p) ==> (Holds(c, w, p) <==> Holds(constraint, w, p))
  {
    hide Holds, ReducedConstraint, LinearShape, SignalsOf, Apply, Obeys;
    c := constraint;
    for i := 0 to |subs|
      invariant ReducedConstraint(c, p) && LinearShape(c) && SignalsOf(c) == SignalsOf(constraint)
      invariant forall w: Assignment :: ObeysAll(w, subs, p) ==> (Holds(c, w, p) <==> Holds(constraint, w, p))
    {
      ApplyLinearShape(c, subs[i], p);
      ApplySignals(c, subs[i], p);
      ghost var before := c;
      c := Apply(c, subs[i], p);
      forall w: Assignment | ObeysAll(w, subs, p)
        ensures Holds(c, w, p) <==> Holds(constraint, w, p)
      {
        assert Obeys(w, subs[i], p);
        ApplyHolds(before, subs[i], w, p);
      }
    }
    FixedShape(c, p);
    FixedHolds(c, p);
    c := Fix(c, p);
  }

  lemma OneOfAll(cs: seq<Constraint>, i: nat)
    requires i < |cs|
    ensures SignalsOf(cs[i]) <= SignalsOfAll(cs)
  {
    hide SignalsOf;
  }

  method SubstituteLconst(lconst: seq<Constraint>, subs: seq<Substitution>, p: Prime) returns (rs: seq<Constraint>)
    requires LinearShapes(lconst, p)
    requires SignalsOfAll(lconst) !! Froms(subs) && CONSTANT !in Froms(subs)
    ensures LinearShapes(rs, p) && SignalsOfAll(rs) <= SignalsOfAll(lconst)
    ensures SameAlong(subs, lconst, rs, p)
  {
    hide Holds, ReducedConstraint, LinearShape, SignalsOf, ObeysAll;
    rs := [];
    for i := 0 to |lconst|
      invariant |rs| == i
      invariant forall j :: 0 <= j < i ==>
        && ReducedConstraint(rs[j], p) && LinearShape(rs[j]) && SignalsOf(rs[j]) <= SignalsOf(lconst[j])
        && forall w: Assignment :: ObeysAll(w, subs, p) ==> (Holds(rs[j], w, p) <==> Holds(lconst[j], w, p))
    {
      forall k | 0 <= k < |subs|
        ensures subs[k].from !in SignalsOf(lconst[i]) && subs[k].from != CONSTANT
      {
        assert subs[k].from in Froms(subs);
        OneOfAll(lconst, i);
      }
      var c := SubstituteEach(lconst[i], subs, p);
      rs := rs + [c];
    }
    forall s | s in SignalsOfAll(rs)
      ensures s in SignalsOfAll(lconst)
    {
      var i :| 0 <= i < |rs| && s in SignalsOf(rs[i]);
      assert s in SignalsOf(lconst[i]);
    }
  }

  method DoRound(smp: Simplifier, ghost prog: Simplifier, storage: ConstraintStorage, log: seq<Substitution>,
                 ghost effective: seq<Substitution>, deleted: set<Signal>, lconst: seq<Constraint>, linear: seq<Constraint>,
                 index: Index, ghost a: State, p: Prime)
    returns (log': seq<Substitution>, deleted': set<Signal>, lconst': seq<Constraint>, linear': seq<Constraint>, index': Index,
             ghost more: seq<Substitution>, ghost b: State)
    requires ValidInput(prog, p) && Alike(prog, smp) && !smp.flagS
    requires Round(prog, effective, deleted, lconst, linear, storage.constraints, index, p)
    requires StateIs(a, log, deleted, lconst, linear, storage.constraints, index)
    modifies storage
    ensures log' == log + more && Tidy(smp, b)
    ensures StateIs(b, log', deleted', lconst', linear', storage.constraints, index') && Step(smp, a, b, p)
    ensures linear' == [] || deleted < deleted'
    ensures Round(prog, effective + more, deleted', lconst', linear', storage.constraints, index', p)
  {
    hide SignalsOfAll, AllHold, ObeysAll, Round, Pushed, SameAlong, ByHeuristic;
    RoundSystem(prog, effective, deleted, lconst, linear, storage.constraints, index, p);
    ghost var stored := storage.constraints;
    SignalsBelow(linear, smp.maxSignal);
    var substitutions, constants := LinearSimplification(linear, smp.forbidden, smp.maxSignal, smp.flagOldHeuristics, p);
    RoundSubstitutions(prog, linear, substitutions, constants, p);
    more := substitutions;
    log' := log + substitutions;
    deleted' := deleted + FromSet(substitutions);
    RoundLconst(prog, lconst, linear, substitutions, constants, p);
    lconst' := SubstituteLconst(lconst + constants, substitutions, p);
    index', linear' := ApplySubstitutionToMap(storage, index, substitutions, p);
    RoundCorrect(prog, effective, deleted, lconst, linear, stored, index, substitutions, constants,
                 lconst', linear', storage.constraints, index', p);
    b := State(log', deleted', lconst', linear', storage.constraints, index'.Keys, substitutions, constants);
    RoundTidy(prog, smp, effective, a, index, p);
    RoundTidy(prog, smp, effective + more, b, index', p);
    if linear' != [] {
      RoundProgress(smp, a, b, p);
    }
  }

  ghost predicate StateIs(s: State, log: seq<Substitution>, deleted: set<Signal>, lconst: seq<Constraint>, linear: seq<Constraint>,
                          stored: seq<Constraint>, index: Index)
  {
    s.log == log && s.deleted == deleted && s.lconst == lconst && s.linear == linear && s.stored == stored && s.keys == index.Keys
  }

  lemma RoundTidy(prog: Simplifier, smp: Simplifier, log: seq<Substitution>, s: State, index: Index, p: Prime)
    requires Alike(prog, smp) && Round(prog, log, s.deleted, s.lconst, s.linear, s.stored, index, p)
    ensures Tidy(smp, s)
  {
    hide SignalsOfAll, AllHold, ObeysAll, CanonicalAll, Complete, ValidIds, NonLinearRest, LinearShapes, Triangular, RepeatsConstant, UpTo;
    forall x | x in s.deleted
      ensures x in UpTo(smp.maxSignal)
    {
      assert Removed(log, x);
    }
  }

  /** Rounds are made until no linear constraint is left or their number is used up. */
  method DoRounds(smp: Simplifier, ghost prog: Simplifier, storage: ConstraintStorage, log: seq<Substitution>,
                  ghost effective: seq<Substitution>, deleted: set<Signal>, lconst: seq<Constraint>, linear: seq<Constraint>,
                  index: Index, ghost s: State, p: Prime)
    returns (log': seq<Substitution>, deleted': set<Signal>, lconst': seq<Constraint>, linear': seq<Constraint>, index': Index,
             ghost rest: seq<Substitution>, ghost run: seq<State>)
    requires ValidInput(prog, p) && Alike(prog, smp)
    requires Round(prog, effective, deleted, lconst, linear, storage.constraints, index, p)
    requires StateIs(s, log, deleted, lconst, linear, storage.constraints, index)
    modifies storage
    ensures log' == log + rest
    ensures Round(prog, effective + rest, deleted', lconst', linear', storage.constraints, index', p)
    ensures run != [] && run[0] == s && Run(smp, run, p)
    ensures StateIs(run[|run| - 1], log', deleted', lconst', linear', storage.constraints, index')
    ensures |run| - 1 <= Rounds(smp) && (linear' == [] || |run| - 1 == Rounds(smp))
  {
    hide Round, ValidInput, Run, Step, Tidy;
    log', deleted', lconst', linear', index', rest, run := log, deleted, lconst, linear, index, [], [s];
    RunStart(smp, prog, effective, s, index, p);
    assert log + [] == log && effective + [] == effective;
    var noRounds := if smp.noRounds > 0 then smp.noRounds - 1 else 0;
    var applyRound := !smp.flagS && noRounds > 0 && linear' != [];
    while applyRound
      invariant log' == log + rest && Round(prog, effective + rest, deleted', lconst', linear', storage.constraints, index', p)
      invariant run != [] && run[0] == s && Run(smp, run, p)
      invariant StateIs(run[|run| - 1], log', deleted', lconst', linear', storage.constraints, index')
      invariant applyRound <==> linear' != [] && |run| - 1 < Rounds(smp)
      invariant |run| - 1 <= Rounds(smp) && (|run| - 1 < Rounds(smp) ==> noRounds == Rounds(smp) - (|run| - 1))
      decreases noRounds
    {
      ghost var more, b;
      log', deleted', lconst', linear', index', more, b :=
        DoRound(smp, prog, storage, log', effective + rest, deleted', lconst', linear', index', run[|run| - 1], p);
      RunMore(smp, run, b, p);
      run := run + [b];
      assert log + rest + more == log + (rest + more) && effective + rest + more == effective + (rest + more);
      rest := rest + more;
      noRounds := noRounds - 1;
      applyRound := linear' != [] && noRounds > 0;
    }
  }

  /** The signals that a list of substitutions eliminates. */
  function FromSet(subs: seq<Substitution>): (r: set<Signal>)
    ensures r == Froms(subs)
  {
    set i | 0 <= i < |subs| :: subs[i].from
  }

  lemma RoundSystem(smp: Simplifier, log: seq<Substitution>, deleted: set<Signal>, lconst: seq<Constraint>,
                    linear: seq<Constraint>, stored: seq<Constraint>, index: Index, p: Prime)
    requires Round(smp, log, deleted, lconst, linear, stored, index, p)
    ensures LinearSystem(linear, p) && SignalsOfAll(linear) <= UpTo(smp.maxSignal)
    ensures CanonicalAll(stored, p) && Complete(stored, index) && ValidIds(index, |stored|)
    ensures LinearShapes(lconst, p) && (!smp.flagS ==> SignalsOfAll(lconst) <= smp.forbidden)
  {
  }

  lemma RoundSubstitutions(smp: Simplifier, linear: seq<Constraint>, subs: seq<Substitution>, constants: seq<Constraint>, p: Prime)
    requires CONSTANT in smp.forbidden && StageResult(linear, subs, constants, smp.forbidden, p)
    ensures GoodSubstitutions(subs) && Froms(subs) !! smp.forbidden
  {
    hide SignalsOfAll, Reduced, Kept;
    RightsInside(subs, SignalsOfAll(linear), smp.forbidden, p);
  }

  lemma RoundLconst(smp: Simplifier, lconst: seq<Constraint>, linear: seq<Constraint>, subs: seq<Substitution>,
                    constants: seq<Constraint>, p: Prime)
    requires LinearShapes(lconst, p) && SignalsOfAll(lconst) <= smp.forbidden
    requires StageResult(linear, subs, constants, smp.forbidden, p)
    ensures LinearShapes(lconst + constants, p)
    ensures SignalsOfAll(lconst + constants) == SignalsOfAll(lconst) + SignalsOfAll(constants)
    ensures SignalsOfAll(constants) <= SignalsOfAll(linear) * smp.forbidden
  {
    hide SignalsOfAll, Kept;
    KeptSignals(constants, SignalsOfAll(linear), smp.forbidden, p);
    ShapesConcat(lconst, constants, p);
    SignalsOfAllConcat(lconst, constants);
  }

  lemma RoundCorrect(smp: Simplifier, log: seq<Substitution>, deleted: set<Signal>, lconst: seq<Constraint>,
                     linear: seq<Constraint>, stored: seq<Constraint>, index: Index,
                     subs: seq<Substitution>, constants: seq<Constraint>,
                     lconst': seq<Constraint>, linear': seq<Constraint>, stored': seq<Constraint>, index': Index, p: Prime)
    requires ValidInput(smp, p) && !smp.flagS
    requires Round(smp, log, deleted, lconst, linear, stored, index, p)
    requires StageResult(linear, subs, constants, smp.forbidden, p)
    requires LinearShapes(lconst', p) && SignalsOfAll(lconst') <= SignalsOfAll(lconst + constants)
    requires SameAlong(subs, lconst + constants, lconst', p)
    requires CanonicalAll(stored', p) && LinearSystem(linear', p)
    requires Complete(stored', index') && ValidIds(index', |stored'|)
    requires Pushed(stored, stored', linear', subs, p)
    ensures Round(smp, log + subs, deleted + Froms(subs), lconst', linear', stored', index', p)
  {
    hide SignalsOfAll, AllHold, ObeysAll, LinearSystem, NonOverlapping, ReducedConstraint, Froms, Rights, UpTo, ValidLog,
         Kept, LinearShapes, CanonicalAll, Complete, ValidIds, ValidInput, Original, IsLinear;
    var universe := UpTo(smp.maxSignal);
    assert CONSTANT in smp.forbidden by {
      InputForbidden(smp, p);
    }
    DeletedNotForbidden(log, deleted, smp.forbidden, universe, p);
    RoundSignals(smp, deleted, lconst, linear, stored, subs, constants, lconst', linear', stored', p);
    LogAppend(log, deleted, subs, SignalsOfAll(linear), smp.forbidden, universe, p);
    OverlapRepeats(subs);
    RepeatsAppend(log, deleted, subs, SignalsOfAll(linear), smp.forbidden, universe, p);
    forall w: Assignment
      ensures Original(smp, w, p) <==>
        ObeysAll(w, log + subs, p) && AllHold(lconst', w, p) && AllHold(linear', w, p) && AllHold(stored', w, p)
    {
      ObeysAllConcat(log, subs, w, p);
      AllHoldConcat(lconst, constants, w, p);
    }
  }

  lemma InputForbidden(smp: Simplifier, p: Prime)
    requires ValidInput(smp, p)
    ensures CONSTANT in smp.forbidden
  {
  }

  lemma RoundSignals(smp: Simplifier, deleted: set<Signal>, lconst: seq<Constraint>, linear: seq<Constraint>,
                     stored: seq<Constraint>, subs: seq<Substitution>, constants: seq<Constraint>,
                     lconst': seq<Constraint>, linear': seq<Constraint>, stored': seq<Constraint>, p: Prime)
    requires CONSTANT in smp.forbidden && deleted !! smp.forbidden
    requires LinearShapes(lconst, p) && SignalsOfAll(lconst) <= smp.forbidden
    requires SignalsOfAll(lconst) <= UpTo(smp.maxSignal) - deleted
    requires SignalsOfAll(linear) + SignalsOfAll(stored) <= UpTo(smp.maxSignal) - deleted
    requires StageResult(linear, subs, constants, smp.forbidden, p)
    requires SignalsOfAll(lconst') <= SignalsOfAll(lconst + constants)
    requires Pushed(stored, stored', linear', subs, p)
    ensures SignalsOfAll(lconst') <= UpTo(smp.maxSignal) - (deleted + Froms(subs))
    ensures SignalsOfAll(lconst') <= smp.forbidden
    ensures SignalsOfAll(linear') + SignalsOfAll(stored') <= UpTo(smp.maxSignal) - (deleted + Froms(subs))
    ensures Inside(subs, SignalsOfAll(linear), smp.forbidden, p)
  {
    hide SignalsOfAll, AllHold, ObeysAll, Kept, LinearShapes, IsLinear, UpTo;
    RightsInside(subs, SignalsOfAll(linear), smp.forbidden, p);
    RoundLconst(smp, lconst, linear, subs, constants, p);
  }

  // ----- the end of the pass

  /** A constraint joins the storage and the index. */
  method Store(storage: ConstraintStorage, index: Index, constraint: Constraint) returns (index': Index)
    requires Complete(storage.constraints, index)
    modifies storage
    ensures storage.constraints == old(storage.constraints) + [constraint]
    ensures Complete(storage.constraints, index') && index'.Keys == index.Keys + SignalsOf(constraint)
  {
    hide SignalsOf;
    ghost var before := storage.constraints;
    var cId := storage.AddConstraint(constraint);
    index' := PushAll(index, SignalsOf(constraint), cId);
    PushAllExtends(index, index', SignalsOf(constraint), cId);
    CompleteStored(before, index, index', constraint);
  }

  lemma CompleteStored(cs: seq<Constraint>, index: Index, index': Index, c: Constraint)
    requires Complete(cs, index) && Extends(index, index', SignalsOf(c), |cs|)
    ensures Complete(cs + [c], index')
  {
    hide SignalsOf;
    forall id: nat, s: Signal | id < |cs + [c]| && s in SignalsOf((cs + [c])[id])
      ensures s in index' && id in index'[s]
    {
      if id < |cs| {
        assert (cs + [c])[id] == cs[id];
      }
    }
  }

  /** The linear constraints and the residual ones are stored, the latter fixed first. */
  method StoreRest(storage: ConstraintStorage, index: Index, linear: seq<Constraint>, lconst: seq<Constraint>, p: Prime)
    returns (index': Index, ghost added: seq<Constraint>)
    requires Complete(storage.constraints, index)
    modifies storage
    ensures storage.constraints == old(storage.constraints) + (linear + added)
    ensures |added| == |lconst| && forall i :: 0 <= i < |added| ==> added[i] == Fix(lconst[i], p)
    ensures Complete(storage.constraints, index') && index'.Keys == index.Keys + SignalsOfAll(linear + added)
  {
    hide Complete, Fix, SignalsOf, SignalsOfAll;
    NoSignals();
    index', added := index, [];
    ghost var before := storage.constraints;
    assert before + linear[..0] == before;
    for i := 0 to |linear|
      invariant storage.constraints == before + linear[..i]
      invariant Complete(storage.constraints, index') && index'.Keys == index.Keys + SignalsOfAll(linear[..i])
    {
      NextSignals(linear, i);
      assert before + linear[..i] + [linear[i]] == before + linear[..i + 1];
      index' := Store(storage, index', linear[i]);
    }
    assert linear[..|linear|] == linear && linear + [] == linear;
    assert before + linear == before + (linear + []);
    for i := 0 to |lconst|
      invariant storage.constraints == before + (linear + added)
      invariant |added| == i && forall j :: 0 <= j < i ==> added[j] == Fix(lconst[j], p)
      invariant Complete(storage.constraints, index') && index'.Keys == index.Keys + SignalsOfAll(linear + added)
    {
      var constraint := Fix(lconst[i], p);
      assert before + (linear + added) + [constraint] == before + (linear + (added + [constraint]));
      index' := Store(storage, index', constraint);
      MoreSignals(linear + added, constraint);
      assert linear + added + [constraint] == linear + (added + [constraint]);
      added := added + [constraint];
    }
  }

  lemma NoSignals()
    ensures SignalsOfAll([]) == {}
  {
  }

  lemma MoreSignals(cs: seq<Constraint>, c: Constraint)
    ensures SignalsOfAll(cs + [c]) == SignalsOfAll(cs) + SignalsOf(c)
  {
    SignalsOfAllConcat(cs, [c]);
    SignalsOfAllOne(c);
  }

  lemma NextSignals(cs: seq<Constraint>, i: nat)
    requires i < |cs|
    ensures SignalsOfAll(cs[..i + 1]) == SignalsOfAll(cs[..i]) + SignalsOf(cs[i])
  {
    MoreSignals(cs[..i], cs[i]);
    assert cs[..i + 1] == cs[..i] + [cs[i]];
  }

  lemma FixedSystem(lconst: seq<Constraint>, added: seq<Constraint>, p: Prime)
    requires |added| == |lconst| && forall i :: 0 <= i < |added| ==> added[i] == Fix(lconst[i], p)
    ensures SignalsOfAll(added) <= SignalsOfAll(lconst)
    ensures forall w: Assignment :: AllHold(added, w, p) <==> AllHold(lconst, w, p)
  {
    hide SignalsOf, Fix, Holds;
    forall s | s in SignalsOfAll(added)
      ensures s in SignalsOfAll(lconst)
    {
      var i :| 0 <= i < |added| && s in SignalsOf(added[i]);
      FixSignals(lconst[i], p);
      OneOfAll(lconst, i);
    }
    forall i | 0 <= i < |added|
      ensures forall w: Assignment :: Holds(added[i], w, p) <==> Holds(lconst[i], w, p)
    {
      FixedHolds(lconst[i], p);
    }
  }

  lemma {:induction false} WithoutEmptySystem(cs: seq<Constraint>, p: Prime)
    ensures SignalsOfAll(WithoutEmpty(cs)) <= SignalsOfAll(cs)
    ensures forall w: Assignment :: AllHold(WithoutEmpty(cs), w, p) <==> AllHold(cs, w, p)
    ensures forall i :: 0 <= i < |WithoutEmpty(cs)| ==> !IsEmpty(WithoutEmpty(cs)[i])
  {
    if cs != [] {
      var last := |cs| - 1;
      WithoutEmptySystem(cs[..last], p);
      var kept := if IsEmpty(cs[last]) then [] else [cs[last]];
      assert cs == cs[..last] + [cs[last]];
      SignalsOfAllConcat(cs[..last], [cs[last]]);
      SignalsOfAllConcat(WithoutEmpty(cs[..last]), kept);
      assert SignalsOfAll([]) == {};
      hide SignalsOf, Holds, SignalsOfAll;
      forall w: Assignment
        ensures AllHold(WithoutEmpty(cs), w, p) <==> AllHold(cs, w, p)
      {
        EmptyHolds(w, p);
        AllHoldAppend(cs[..last], cs[last], w, p);
        AllHoldConcat(WithoutEmpty(cs[..last]), kept, w, p);
        AllHoldAppend([], cs[last], w, p);
        assert [] + [cs[last]] == [cs[last]];
      }
    }
  }

  /** What the pass delivers for the program that it has solved. */
  ghost predicate Delivered(smp: Simplifier, stored: seq<Constraint>, signalMap: SignalMap, log: seq<Substitution>,
                            deleted: set<Signal>, p: Prime)
  {
    && (forall w: Assignment :: Original(smp, w, p) <==> ObeysAll(w, log, p) && AllHold(stored, w, p))
    && SignalsOfAll(stored) <= signalMap.Keys
    && Renumbering(signalMap, smp.maxSignal, deleted)
    && (forall s :: Removed(log, s) ==> s in deleted)
    && deleted !! smp.forbidden
    && Triangular(log) && NoRepeats(log) && Inside(log, UpTo(smp.maxSignal), smp.forbidden, p)
  }

  method Finish(smp: Simplifier, ghost prog: Simplifier, storage: ConstraintStorage, ghost log: seq<Substitution>, deleted: set<Signal>,
                lconst: seq<Constraint>, linear: seq<Constraint>, index: Index, ghost s: State, p: Prime)
    returns (signalMap: SignalMap, deleted': set<Signal>)
    requires Alike(prog, smp) && Round(prog, log, deleted, lconst, linear, storage.constraints, index, p)
    requires StateIs(s, s.log, deleted, lconst, linear, storage.constraints, index)
    modifies storage
    ensures Ended(smp, s, storage.constraints, deleted', p)
    ensures Delivered(prog, storage.constraints, signalMap, log, deleted', p)
    ensures deleted <= deleted'
  {
    hide Round, Delivered;
    ghost var stored := storage.constraints;
    var index';
    ghost var added;
    RoundSystem(prog, log, deleted, lconst, linear, stored, index, p);
    index', added := StoreRest(storage, index, linear, lconst, p);
    ghost var all := storage.constraints;
    var _ := storage.ExtractEmpty();
    signalMap, deleted' := RebuildWitness(smp.maxSignal, deleted, smp.forbidden, index', true);
    FinishCorrect(prog, log, deleted, lconst, linear, stored, index, added, index', signalMap, deleted', p);
    assert added == FixedAll(lconst, p);
    assert stored + (linear + added) == all;
  }

  ghost function FixedAll(cs: seq<Constraint>, p: Prime): seq<Constraint> {
    seq(|cs|, i requires 0 <= i < |cs| => Fix(cs[i], p))
  }

  /** How the pass ends: what is left is stored without empty constraints, and signals that are neither forbidden
      nor in the index are dropped. */
  ghost predicate Ended(smp: Simplifier, s: State, stored: seq<Constraint>, deleted: set<Signal>, p: Prime) {
    var rest := s.linear + FixedAll(s.lconst, p);
    && stored == WithoutEmpty(s.stored + rest)
    && deleted == s.deleted + Unused(smp.maxSignal, s.deleted, smp.forbidden, s.keys + SignalsOfAll(rest))
  }

  /** Linear constraints are left over signals only that have to stay. */
  ghost predicate OnlyForbidden(stored: seq<Constraint>, forbidden: set<Signal>) {
    forall i :: 0 <= i < |stored| && IsLinear(stored[i]) ==> SignalsOf(stored[i]) <= forbidden
  }

  lemma {:induction false} WithoutEmptyFrom(cs: seq<Constraint>, i: nat)
    requires i < |WithoutEmpty(cs)|
    ensures WithoutEmpty(cs)[i] in cs && !IsEmpty(WithoutEmpty(cs)[i])
  {
    var last := |cs| - 1;
    if i < |WithoutEmpty(cs[..last])| {
      WithoutEmptyFrom(cs[..last], i);
    }
  }

  /** If no linear constraints are left for another round, those that are stored cannot be used. */
  lemma EndedLinear(smp: Simplifier, s: State, stored: seq<Constraint>, deleted: set<Signal>, p: Prime)
    requires Ended(smp, s, stored, deleted, p) && Tidy(smp, s) && !smp.flagS && s.linear == []
    ensures OnlyForbidden(stored, smp.forbidden)
  {
    hide SignalsOf, Fix, UpTo, WithoutEmpty;
    var fixed := FixedAll(s.lconst, p);
    var all := s.stored + ([] + fixed);
    forall i | 0 <= i < |stored| && IsLinear(stored[i])
      ensures SignalsOf(stored[i]) <= smp.forbidden
    {
      WithoutEmptyFrom(all, i);
      var j :| 0 <= j < |all| && all[j] == stored[i];
      if j >= |s.stored| {
        assert all[j] == fixed[j - |s.stored|];
        FixSignals(s.lconst[j - |s.stored|], p);
        OneOfAll(s.lconst, j - |s.stored|);
      }
    }
  }

  lemma FinishCorrect(smp: Simplifier, log: seq<Substitution>, deleted: set<Signal>, lconst: seq<Constraint>,
                      linear: seq<Constraint>, stored: seq<Constraint>, index: Index, added: seq<Constraint>,
                      index': Index, signalMap: SignalMap, deleted': set<Signal>, p: Prime)
    requires Round(smp, log, deleted, lconst, linear, stored, index, p)
    requires |added| == |lconst| && forall i :: 0 <= i < |added| ==> added[i] == Fix(lconst[i], p)
    requires Complete(stored + (linear + added), index')
    requires Renumbering(signalMap, smp.maxSignal, deleted')
    requires deleted' == deleted + Unused(smp.maxSignal, deleted, smp.forbidden, index'.Keys)
    ensures Delivered(smp, WithoutEmpty(stored + (linear + added)), signalMap, log, deleted', p)
  {
    hide Fix, SignalsOf, Holds, Original, UpTo, Triangular, RepeatsConstant, Inside;
    var all := stored + (linear + added);
    FixedSystem(lconst, added, p);
    SignalsOfAllConcat(linear, added);
    SignalsOfAllConcat(stored, linear + added);
    WithoutEmptySystem(all, p);
    assert SignalsOfAll(all) <= UpTo(smp.maxSignal) - deleted;
    forall s | s in SignalsOfAll(all)
      ensures s in signalMap
    {
      var i: nat :| i < |all| && s in SignalsOf(all[i]);
      assert s in index';
      assert s < smp.maxSignal by { UpToBelow(smp.maxSignal, s); }
    }
    forall w: Assignment
      ensures Original(smp, w, p) <==> ObeysAll(w, log, p) && AllHold(WithoutEmpty(all), w, p)
    {
      AllHoldConcat(linear, added, w, p);
      AllHoldConcat(stored, linear + added, w, p);
    }
  }

  lemma UpToBelow(n: nat, s: Signal)
    requires s in UpTo(n)
    ensures s < n
  {
  }

  // ----- the pass

  lemma RelevantAll(signals: set<Signal>)
    ensures Relevant(signals, map[], map[]) == signals
  {
    forall s | s in signals
      ensures s in Relevant(signals, map[], map[])
    {
      assert Unwrapped(map[], s) == s;
    }
  }

  /** The frames are good and reach no eliminated signal. */
  lemma FramesReady(smp: Simplifier, single: seq<Substitution>, lconst: seq<Constraint>, linear: seq<Constraint>,
                    cons: seq<Constraint>, constant: seq<Substitution>, third: seq<Substitution>,
                    n: set<Signal>, relevant: set<Signal>, deleted: set<Signal>, p: Prime)
    requires ValidInput(smp, p) && AfterSingle(smp, single, lconst, linear, cons, p)
    requires Constants(constant, p) && GoodFrame(Encode(constant), p)
    requires GoodFrame(Restrict(Encode(third), relevant), p)
    requires n == SignalsOfAll(Flatten(smp.encoding))
    requires relevant == Relevant(n, Restrict(Encode(single), n), Encode(constant))
    requires deleted == Froms(single) + Froms(constant) + Froms(third)
    requires Rights(third) <= UpTo(smp.maxSignal) - deleted
    ensures var frames := [Restrict(Encode(single), n), Encode(constant), Restrict(Encode(third), relevant)];
      && GoodFrames(frames, p)
      && Reached(frames, n) <= UpTo(smp.maxSignal) - deleted
  {
    hide SignalsOfAll, Reached, Relevant, Encode, Restrict, Froms, Rights, UpTo, GoodFrame, Flatten,
         EqualitySystem, ConstantEqualities, LinearSystem, Kept, Renames, AllHold, ObeysAll, Reduced;
    var universe := UpTo(smp.maxSignal);
    LogInside(single, Froms(single), smp.forbidden, universe, p);
    RightsInside(single, universe, smp.forbidden, p);
    EncodeGoodInside(single, universe, smp.forbidden, p);
    RestrictGood(Encode(single), n, p);
    ReachedClean(n, single, constant, third, relevant, universe, p);
    assert universe - Froms(single) - Froms(constant) - Froms(third) == universe - deleted;
  }

  lemma LogInside(log: seq<Substitution>, deleted: set<Signal>, forbidden: set<Signal>, universe: set<Signal>, p: Prime)
    requires ValidLog(log, deleted, forbidden, universe, p)
    ensures Inside(log, universe, forbidden, p)
  {
  }

  /** Obeying the log is enough for all three frames. */
  lemma FramesObeyed(single: seq<Substitution>, constant: seq<Substitution>, third: seq<Substitution>,
                     n: set<Signal>, relevant: set<Signal>, w: Assignment, p: Prime)
    requires ObeysAll(w, single + constant + third, p)
    ensures ObeysFrames(w, [Restrict(Encode(single), n), Encode(constant), Restrict(Encode(third), relevant)], p)
  {
    hide ObeysAll, ObeysFrame, Restrict, Encode;
    ObeysAllConcat(single + constant, third, w, p);
    ObeysAllConcat(single, constant, w, p);
    EncodeObeyed(single, w, p);
    EncodeObeyed(constant, w, p);
    EncodeObeyed(third, w, p);
    RestrictObeyed(Encode(single), n, w, p);
    RestrictObeyed(Encode(third), relevant, w, p);
  }

  lemma RoundStart(smp: Simplifier, single: seq<Substitution>, constant: seq<Substitution>, third: seq<Substitution>,
                   n: set<Signal>, relevant: set<Signal>, deleted: set<Signal>, lconst: seq<Constraint>,
                   linear: seq<Constraint>, stored: seq<Constraint>, index: Index, p: Prime)
    requires AfterLinear(smp, single + constant + third, deleted, lconst, p)
    requires Divided(Flatten(smp.encoding), stored, linear,
                     [Restrict(Encode(single), n), Encode(constant), Restrict(Encode(third), relevant)],
                     UpTo(smp.maxSignal) - deleted, p)
    requires Complete(stored, index) && ValidIds(index, |stored|)
    ensures Round(smp, single + constant + third, deleted, lconst, linear, stored, index, p)
  {
    hide SignalsOfAll, Encode, Restrict, UpTo, Flatten, LinearSystem, AllHold, ObeysAll, ValidLog, LinearShapes,
         ObeysFrames, Complete, SignalsOf, IsLinear, ValidIds, CanonicalConstraint;
    assert SignalsOfAll(linear) + SignalsOfAll(stored) <= UpTo(smp.maxSignal) - deleted;
    forall w: Assignment
      ensures Original(smp, w, p) <==>
        ObeysAll(w, single + constant + third, p) && AllHold(lconst, w, p) && AllHold(linear, w, p) && AllHold(stored, w, p)
    {
      if ObeysAll(w, single + constant + third, p) {
        FramesObeyed(single, constant, third, n, relevant, w, p);
      }
    }
  }

  /** What the pass delivers.  The log has all substitutions; those that count leave out all constants
      of a signal but the last. */
  ghost predicate Result(smp: Simplifier, stored: seq<Constraint>, signalMap: SignalMap, log: seq<Substitution>,
                         effective: seq<Substitution>, deleted: set<Signal>, p: Prime)
    requires ValidInput(smp, p)
  {
    && Delivered(Program(smp, p), stored, signalMap, effective, deleted, p)
    && Froms(effective) == Froms(log) && (forall s :: s in effective ==> s in log)
    && forall w: Assignment :: Original(smp, w, p) <==> ObeysAll(w, log, p) && AllHold(stored, w, p)
  }

  /** What the stages before the rounds hand on. */
  datatype Beginning = Beginning(
    single: seq<Substitution>,
    constant: seq<Substitution>,
    third: seq<Substitution>,
    lconst1: seq<Constraint>,
    linear1: seq<Constraint>,
    cons: seq<Constraint>,
    lconst2: seq<Constraint>,
    linear2: seq<Constraint>,
    others: seq<Constraint>)

  /** Equalities, then constants, then linear constraints, then the non-linear ones through the three frames. */
  ghost predicate Begun(smp: Simplifier, st: Beginning, s: State, p: Prime) {
    var n := SignalsOfAll(Flatten(smp.encoding));
    var relevant := Relevant(n, Restrict(Encode(st.single), n), Encode(st.constant));
    && SingleStage(smp, st.single, st.lconst1, st.linear1, st.cons, p)
    && ConstantStageOf(smp, st.lconst1, st.linear1, st.cons, st.constant, st.lconst2, st.linear2, p)
    && LinearStage(smp, st.lconst2, st.linear2, relevant, st.third, st.others, s.lconst, p)
    && Divided(Flatten(smp.encoding), s.stored, s.linear,
               [Restrict(Encode(st.single), n), Encode(st.constant), Restrict(Encode(st.third), relevant)],
               UpTo(smp.maxSignal) - s.deleted, p)
    && s.log == st.single + st.constant + st.third && s.deleted == Froms(s.log) && s.keys == SignalsOfAll(s.stored)
  }

  /** The pass from its stages over its rounds to its end.  Rounds are made as long as there are linear constraints,
      up to the number that is allowed. */
  ghost predicate Passed(smp: Simplifier, st: Beginning, run: seq<State>, stored: seq<Constraint>, log: seq<Substitution>,
                         deleted: set<Signal>, p: Prime)
  {
    && Run(smp, run, p) && Begun(smp, st, run[0], p)
    && var last := run[|run| - 1];
    && |run| - 1 <= Rounds(smp) && (last.linear == [] || |run| - 1 == Rounds(smp))
    && last.log == log && Ended(smp, last, stored, deleted, p)
  }

  /** Unless the rounds run out, no linear constraint is left that could be used. */
  lemma PassedLinear(smp: Simplifier, st: Beginning, run: seq<State>, stored: seq<Constraint>, log: seq<Substitution>,
                     deleted: set<Signal>, p: Prime)
    requires Passed(smp, st, run, stored, log, deleted, p) && !smp.flagS
    ensures OnlyForbidden(stored, smp.forbidden) || |run| - 1 == Rounds(smp)
    ensures smp.noRounds > smp.maxSignal + 1 ==> OnlyForbidden(stored, smp.forbidden)
  {
    hide Begun, Step, Tidy, Ended, OnlyForbidden;
    var last := run[|run| - 1];
    if |run| - 1 > smp.maxSignal {
      EnoughRounds(smp, run, p);
    }
    if last.linear == [] {
      EndedLinear(smp, last, stored, deleted, p);
    }
  }

  /** One more round. */
  lemma RunMore(smp: Simplifier, run: seq<State>, b: State, p: Prime)
    requires Run(smp, run, p) && run[|run| - 1].linear != [] && Step(smp, run[|run| - 1], b, p) && Tidy(smp, b)
    ensures Run(smp, run + [b], p)
  {
    hide Step, Tidy;
    var more := run + [b];
    forall i | 0 < i < |more|
      ensures StepAt(smp, more, i, p)
    {
      if i < |run| {
        assert StepAt(smp, run, i, p);
      }
    }
  }

  method Simplify(smp: Simplifier, p: Prime)
    returns (storage: ConstraintStorage, signalMap: SignalMap, log: seq<Substitution>, ghost effective: seq<Substitution>,
             deleted: set<Signal>, ghost st: Beginning, ghost run: seq<State>)
    requires ValidInput(smp, p)
    ensures fresh(storage)
    ensures Result(smp, storage.constraints, signalMap, log, effective, deleted, p)
    ensures Passed(smp, st, run, storage.constraints, log, deleted, p)
    ensures !smp.flagS ==> OnlyForbidden(storage.constraints, smp.forbidden) || |run| - 1 == Rounds(smp)
    ensures !smp.flagS && smp.noRounds > smp.maxSignal + 1 ==> OnlyForbidden(storage.constraints, smp.forbidden)
  {
    hide Run, Begun, Tidy, Step, Ended, OnlyForbidden, SingleStage, ConstantStageOf, LinearStage, Unused, GoodEntry, NoRepeats, Kept,
         LinearSystem, EqualitySystem;
    hide Round, Result, AfterSingle, AfterConstant, AfterLinear, ValidInput, Relevant, Reached, SignalsOfAll, Flatten,
         GoodFrame, GoodFrames, Complete, Listed, Divided, Froms, Rights, Restrict, Encode, ReducedConstraint, Constants,
         Delivered, Program, ConstantsKeep, Select, RepeatedSet;
    ghost var n := SignalsOfAll(Flatten(smp.encoding));
    var firstRelevant := BuildRelevantSet(smp.encoding, {}, map[], map[]);
    RelevantAll(n);
    assert firstRelevant == n;
    InputConstants(smp, p);
    ghost var prog := Program(smp, p);
    ProgramValid(smp, p);
    var single, lconst, linear, cons, encoded := SingleAssignments(smp, p);
    ghost var some := Select(cons, RepeatedSet(cons, smp.forbidden, p));
    ghost var lconst1, linear1 := lconst, linear;
    var singleFrame := RemoveNotRelevant(encoded, firstRelevant);
    var constant, constantFrame;
    ghost var last;
    constant, lconst, linear, constantFrame, last := ConstantAssignments(smp, single, lconst, linear, cons, p);
    ghost var lconst2, linear2 := lconst, linear;
    EncodeTargets(single, {});
    EncodeTargets(constant, {});
    deleted := encoded.Keys + constantFrame.Keys;
    var relevant := BuildRelevantSet(smp.encoding, {}, singleFrame, constantFrame);
    var third, linearFrame;
    ghost var others;
    third, lconst, linearFrame, deleted, others := LinearAssignments(smp, prog, single + last, deleted, lconst, linear, relevant, p);
    log := single + constant + third;
    var frames := [singleFrame, constantFrame, linearFrame];
    assert singleFrame == Restrict(Encode(single), n) && relevant == Relevant(n, singleFrame, constantFrame);
    assert frames == [Restrict(Encode(single), n), Encode(last), Restrict(Encode(third), relevant)];
    FramesReady(prog, single, lconst1, linear1, some, last, third, n, relevant, deleted, p);
    storage := new ConstraintStorage();
    InputReduced(smp, p);
    ghost var stored;
    linear, stored := ObtainAndSimplifyNonLinear(smp.encoding, storage, frames, UpTo(smp.maxSignal) - deleted, p);
    assert storage.constraints == stored;
    var index := BuildNonLinearSignalMap(storage);
    RoundStart(prog, single, last, third, n, relevant, deleted, lconst, linear, stored, index, p);
    st := Beginning(single, constant, third, lconst1, linear1, cons, lconst2, linear2, others);
    run := [State(log, deleted, lconst, linear, stored, index.Keys, [], [])];
    BegunIs(smp, st, run[0], n, relevant, p);
    ghost var rest;
    log, deleted, lconst, linear, index, rest, run :=
      DoRounds(smp, prog, storage, log, single + last + third, deleted, lconst, linear, index, run[0], p);
    assert single + constant + third + rest == single + constant + (third + rest);
    assert single + last + third + rest == single + last + (third + rest);
    rest := third + rest;
    effective := single + last + rest;
    signalMap, deleted := Finish(smp, prog, storage, effective, deleted, lconst, linear, index, run[|run| - 1], p);
    if !smp.flagS {
      PassedLinear(smp, st, run, storage.constraints, log, deleted, p);
    }
    ResultHolds(smp, storage.constraints, signalMap, single, constant, last, rest, lconst2, linear2, deleted, p);
  }

  lemma RunStart(smp: Simplifier, prog: Simplifier, log: seq<Substitution>, s: State, index: Index, p: Prime)
    requires Alike(prog, smp) && Round(prog, log, s.deleted, s.lconst, s.linear, s.stored, index, p)
    ensures Run(smp, [s], p)
  {
    hide Step, Tidy, Round;
    RoundTidy(prog, smp, log, s, index, p);
  }

  lemma BegunIs(smp: Simplifier, st: Beginning, s: State, n: set<Signal>, relevant: set<Signal>, p: Prime)
    requires n == SignalsOfAll(Flatten(smp.encoding)) && relevant == Relevant(n, Restrict(Encode(st.single), n), Encode(st.constant))
    requires SingleStage(smp, st.single, st.lconst1, st.linear1, st.cons, p)
    requires ConstantStageOf(smp, st.lconst1, st.linear1, st.cons, st.constant, st.lconst2, st.linear2, p)
    requires LinearStage(smp, st.lconst2, st.linear2, relevant, st.third, st.others, s.lconst, p)
    requires Divided(Flatten(smp.encoding), s.stored, s.linear,
                     [Restrict(Encode(st.single), n), Encode(st.constant), Restrict(Encode(st.third), relevant)],
                     UpTo(smp.maxSignal) - s.deleted, p)
    requires s.log == st.single + st.constant + st.third && s.keys == SignalsOfAll(s.stored)
    requires s.deleted == Froms(st.single) + Froms(st.constant) + Froms(st.third)
    ensures Begun(smp, st, s, p)
  {
    hide SingleStage, ConstantStageOf, LinearStage, Divided, Froms, Relevant, Restrict, Encode, Flatten, SignalsOfAll, UpTo;
    FromsParts(st.single, st.constant, st.third);
  }

  lemma InputConstants(smp: Simplifier, p: Prime)
    requires ValidInput(smp, p)
    ensures ConstantEqualities(smp.consEqualities, p)
  {
  }

  /** From the program with the last constants only back to the whole one. */
  lemma ResultHolds(smp: Simplifier, stored: seq<Constraint>, signalMap: SignalMap, single: seq<Substitution>, constant: seq<Substitution>,
                    last: seq<Substitution>, rest: seq<Substitution>, lconst: seq<Constraint>, linear: seq<Constraint>,
                    deleted: set<Signal>, p: Prime)
    requires ValidInput(smp, p) && Delivered(Program(smp, p), stored, signalMap, single + last + rest, deleted, p)
    requires ConstantsKeep(smp, single + constant, lconst, linear, p) && CountOnly(last, constant)
    requires AfterConstant(Program(smp, p), single + last, Froms(single) + Froms(last), lconst, linear, p)
    ensures Result(smp, stored, signalMap, single + constant + rest, single + last + rest, deleted, p)
  {
    var prog, log, effective := Program(smp, p), single + constant + rest, single + last + rest;
    assert forall w: Assignment :: Original(prog, w, p) <==> ObeysAll(w, effective, p) && AllHold(stored, w, p);
    assert forall w: Assignment :: Inputs(prog, w, p) <==>
      ObeysAll(w, single + last, p) && AllHold(lconst, w, p) && AllHold(linear, w, p);
    hide ValidInput, Delivered, AfterConstant, Encode, Program, AllHold, Flatten;
    FromsParts(single, constant, rest);
    FromsParts(single, last, rest);
    assert forall s :: s in effective ==> s in log;
    assert prog.encoding == smp.encoding by { ProgramValid(smp, p); }
    forall w: Assignment
      ensures Original(smp, w, p) <==> ObeysAll(w, log, p) && AllHold(stored, w, p)
    {
      ProgramWeaker(smp, w, p);
      ObeysAllConcat(single + constant, rest, w, p);
      ObeysAllConcat(single + last, rest, w, p);
      ObeysSome(effective, log, w, p);
      hide ObeysAll;
    }
  }

  lemma FromsParts(a: seq<Substitution>, b: seq<Substitution>, c: seq<Substitution>)
    ensures Froms(a + b + c) == Froms(a) + Froms(b) + Froms(c)
  {
    hide Froms;
    FromsConcat(a, b);
    FromsConcat(a + b, c);
  }

  lemma FromsConcat(a: seq<Substitution>, b: seq<Substitution>)
    ensures Froms(a + b) == Froms(a) + Froms(b)
  {
    FromsRemoved(a);
    FromsRemoved(b);
    FromsRemoved(a + b);
    RemovedConcat(a, b);
  }

  lemma ObeysSome(some: seq<Substitution>, all: seq<Substitution>, w: Assignment, p: Prime)
    requires forall s :: s in some ==> s in all
    ensures ObeysAll(w, all, p) ==> ObeysAll(w, some, p)
  {
    hide Obeys;
    if ObeysAll(w, all, p) {
      forall i | 0 <= i < |some|
        ensures Obeys(w, some[i], p)
      {
        assert some[i] in all;
      }
    }
  }

  /** The solutions of a program are solutions of the program with the last constants only. */
  lemma ProgramWeaker(smp: Simplifier, w: Assignment, p: Prime)
    requires ValidInput(smp, p)
    ensures Original(smp, w, p) ==> Original(Program(smp, p), w, p)
    ensures Inputs(smp, w, p) ==> Inputs(Program(smp, p), w, p)
  {
    hide AllHold, SignalsOfAll, LastOnly, SupersededSet;
    LastOnlyIs(smp, p);
    if AllHold(smp.consEqualities, w, p) {
      SelectedHold(smp.consEqualities, SupersededSet(smp.equalities, smp.consEqualities, smp.forbidden, p), w, p);
    }
  }

  lemma InputReduced(smp: Simplifier, p: Prime)
    requires ValidInput(smp, p)
    ensures forall i :: 0 <= i < |Flatten(smp.encoding)| ==> ReducedConstraint(Flatten(smp.encoding)[i], p)
  {
  }

  // ----- what the result means

  /** The equalities between signals and with constants have a common solution: no signal
      is given two different constants. */
  ghost predicate EqualitiesAgree(smp: Simplifier, p: Prime) {
    exists w: Assignment :: AllEqualities(smp, w, p)
  }

  ghost predicate Solvable(smp: Simplifier, p: Prime) {
    exists w: Assignment :: Original(smp, w, p)
  }

  /** Some solution of the program agrees with w on the signals that were not eliminated. */
  ghost predicate HasOriginal(smp: Simplifier, w: Assignment, log: seq<Substitution>, p: Prime) {
    exists v: Assignment :: AgreeOnKept(v, w, log) && Original(smp, v, p)
  }

  /** If the equalities agree, dropping all constants of a signal but the last changes nothing. */
  lemma AgreeSame(smp: Simplifier, w: Assignment, p: Prime)
    requires ValidInput(smp, p) && EqualitiesAgree(smp, p)
    ensures Original(smp, w, p) <==> Original(Program(smp, p), w, p)
  {
    hide ValidInput, SignalsOfAll, LastOnly, Holds;
    InputConstants(smp, p);
    ProgramWeaker(smp, w, p);
    if Original(Program(smp, p), w, p) {
      var u: Assignment :| AllEqualities(smp, u, p);
      forall i | 0 <= i < |smp.consEqualities|
        ensures Holds(smp.consEqualities[i], w, p)
      {
        LastEnough(smp.equalities, smp.consEqualities, smp.forbidden, u, w, i, p);
      }
    }
  }

  /** The solutions of the result are exactly those that extend to the program in which every
      signal keeps its last constant only. */
  lemma StoredExact(smp: Simplifier, stored: seq<Constraint>, signalMap: SignalMap, log: seq<Substitution>,
                    effective: seq<Substitution>, deleted: set<Signal>, w: Assignment, p: Prime)
    requires ValidInput(smp, p) && Result(smp, stored, signalMap, log, effective, deleted, p)
    ensures AllHold(stored, w, p) <==> HasOriginal(Program(smp, p), w, log, p)
  {
    hide Original, AllHold, ValidInput;
    InputConstants(smp, p);
    SameKept(log, effective);
    if AllHold(stored, w, p) {
      SolutionExtends(smp, stored, signalMap, log, effective, deleted, w, p);
    }
    if HasOriginal(Program(smp, p), w, log, p) {
      var v: Assignment :| AgreeOnKept(v, w, log) && Original(Program(smp, p), v, p);
      KeptSignalsAgree(smp, stored, signalMap, log, effective, deleted, v, w, p);
      AllHoldAgree(stored, v, w, p);
    }
  }

  /** Every solution of the program is one of the result.  Every solution of the result extends to
      one of the program exactly if the equalities agree, or if the program with the last constants
      only has no solution. */
  lemma SimplifyExact(smp: Simplifier, stored: seq<Constraint>, signalMap: SignalMap, log: seq<Substitution>,
                      effective: seq<Substitution>, deleted: set<Signal>, p: Prime)
    requires ValidInput(smp, p) && Result(smp, stored, signalMap, log, effective, deleted, p)
    ensures forall w: Assignment :: Original(smp, w, p) ==> AllHold(stored, w, p)
    ensures (forall w: Assignment :: AllHold(stored, w, p) ==> HasOriginal(smp, w, log, p)) <==>
            (EqualitiesAgree(smp, p) || !Solvable(Program(smp, p), p))
  {
    hide AllHold, ValidInput, AllEqualities, Delivered;
    InputConstants(smp, p);
    hide Original;
    if EqualitiesAgree(smp, p) {
      forall w: Assignment | AllHold(stored, w, p)
        ensures HasOriginal(smp, w, log, p)
      {
        StoredExact(smp, stored, signalMap, log, effective, deleted, w, p);
        var v: Assignment :| AgreeOnKept(v, w, log) && Original(Program(smp, p), v, p);
        AgreeSame(smp, v, p);
      }
    } else {
      NoOriginal(smp, p);
      if Solvable(Program(smp, p), p) {
        var w: Assignment :| Original(Program(smp, p), w, p);
        assert AgreeOnKept(w, w, log);
        StoredExact(smp, stored, signalMap, log, effective, deleted, w, p);
        assert AllHold(stored, w, p) && !HasOriginal(smp, w, log, p);
      } else {
        forall w: Assignment
          ensures !AllHold(stored, w, p)
        {
          StoredExact(smp, stored, signalMap, log, effective, deleted, w, p);
        }
      }
    }
  }

  lemma NoOriginal(smp: Simplifier, p: Prime)
    requires !EqualitiesAgree(smp, p)
    ensures forall w: Assignment :: !Original(smp, w, p)
  {
    forall w: Assignment
      ensures !Original(smp, w, p)
    {
      assert !AllEqualities(smp, w, p);
    }
  }

  /** Both lists eliminate the same signals. */
  lemma SameKept(log: seq<Substitution>, effective: seq<Substitution>)
    requires Froms(effective) == Froms(log)
    ensures forall s :: Removed(log, s) <==> Removed(effective, s)
  {
    FromsRemoved(log);
    FromsRemoved(effective);
  }

  /** No signal of the result is eliminated. */
  lemma KeptSignalsAgree(smp: Simplifier, stored: seq<Constraint>, signalMap: SignalMap, log: seq<Substitution>,
                         effective: seq<Substitution>, deleted: set<Signal>, v: Assignment, w: Assignment, p: Prime)
    requires ValidInput(smp, p) && Result(smp, stored, signalMap, log, effective, deleted, p) && AgreeOnKept(v, w, log)
    ensures forall s :: s in SignalsOfAll(stored) ==> v(s) == w(s)
  {
    hide Original, AllHold, ValidInput, SignalsOfAll;
    SameKept(log, effective);
    forall s | s in SignalsOfAll(stored)
      ensures v(s) == w(s)
    {
      assert s in signalMap;
      assert !Removed(log, s);
    }
  }

  lemma SolutionExtends(smp: Simplifier, stored: seq<Constraint>, signalMap: SignalMap, log: seq<Substitution>,
                        effective: seq<Substitution>, deleted: set<Signal>, w: Assignment, p: Prime)
    requires ValidInput(smp, p) && Result(smp, stored, signalMap, log, effective, deleted, p) && AllHold(stored, w, p)
    ensures HasOriginal(Program(smp, p), w, log, p)
  {
    hide Original, AllHold, SignalsOfAll;
    assert forall i :: 0 <= i < |effective| ==> effective[i].from != CONSTANT by {
      InputForbidden(smp, p);
    }
    var v := Solve(w, effective, p);
    SolveCorrect(w, effective, p);
    SameKept(log, effective);
    KeptSignalsAgree(smp, stored, signalMap, log, effective, deleted, v, w, p);
    AllHoldAgree(stored, v, w, p);
  }

  /** The constraint that a signal has a value. */
  function SignalIs(x: Signal, k: int, p: Prime): Constraint {
    Constraint(map[], map[], map[x := 1, CONSTANT := Mul(-1, k, p)])
  }

  lemma SignalIsMeaning(x: Signal, k: int, w: Assignment, p: Prime)
    requires x != CONSTANT
    ensures Holds(SignalIs(x, k, p), w, p) <==> Cong(p, w(x), k)
  {
    var cn := SignalIs(x, k, p);
    LinearHoldsVanishes(cn, w, p);
    EvalSplit(cn.c, w, x);
    assert cn.c - {x} == map[CONSTANT := Mul(-1, k, p)];
    EvalSingle(CONSTANT, Mul(-1, k, p), w);
    CongMod(p, -1 * k);
    hide Cong, Holds, Eval;
    var m := Mul(-1, k, p);
    assert Eval(cn.c, w) == w(x) + m;
    CongEqual(p, w(x), w(x));
    CongAdd(p, w(x), w(x), m, -k);
    CongDiff(p, w(x), k);
    SameZero(p, w(x) + m, w(x) - k);
  }

  lemma SameZero(p: Prime, a: int, b: int)
    requires Cong(p, a, b)
    ensures Cong(p, a, 0) <==> Cong(p, b, 0)
  {
  }

  ghost function SignalAlone(x: Signal, k: int): Assignment {
    (s: Signal) => if s == CONSTANT then 1 else if s == x then k else 0
  }

  lemma FirstSuperseded(smp: Simplifier, x: Signal, first: Constraint, second: Constraint, p: Prime)
    requires ConstantEqualities(smp.consEqualities, p) && CONSTANT in smp.forbidden
    requires smp.equalities == [] && smp.consEqualities == [first, second] && x !in smp.forbidden
    requires first == SignalIs(x, 1, p) && second == SignalIs(x, 2, p)
    ensures Superseded(smp.equalities, smp.consEqualities, smp.forbidden, 0, p)
  {
    assert smp.consEqualities[0] == first && smp.consEqualities[1] == second;
    assert SignalsOf(first) == {x} && SignalsOf(second) == {x};
    assert x in {SignalOf(first, p)} && x in {SignalOf(second, p)};
    SmallMod(p, 0);
    SmallMod(p, 1);
    forall f | f in smp.forbidden
      ensures !Tied(smp.equalities, x, f, p)
    {
      var w := SignalAlone(x, if f == CONSTANT then 0 else 1);
      assert AllHold(smp.equalities, w, p) && !Cong(p, w(x), w(f));
    }
    assert Replaces(smp.equalities, smp.consEqualities, smp.forbidden, 0, 1, p);
  }

  /** Two different constants for one signal that may be removed, and nothing else. */
  ghost predicate Contradiction(smp: Simplifier, x: Signal, p: Prime) {
    && smp.equalities == [] && smp.linear == [] && Flatten(smp.encoding) == []
    && smp.consEqualities == [SignalIs(x, 1, p), SignalIs(x, 2, p)] && x !in smp.forbidden
  }

  lemma LastSolved(smp: Simplifier, x: Signal, p: Prime)
    requires ConstantEqualities(smp.consEqualities, p) && CONSTANT in smp.forbidden && Contradiction(smp, x, p)
    ensures Original(Program(smp, p), SignalAlone(x, 2), p)
  {
    FirstSuperseded(smp, x, SignalIs(x, 1, p), SignalIs(x, 2, p), p);
    hide Superseded, Holds, SignalIs;
    var dropped, w := SupersededSet(smp.equalities, smp.consEqualities, smp.forbidden, p), SignalAlone(x, 2);
    LastOnlyIs(smp, p);
    SelectedIndex(smp.consEqualities, dropped);
    SignalIsMeaning(x, 2, w, p);
    CongEqual(p, w(x), 2);
    var some := Select(smp.consEqualities, dropped);
    forall i | 0 <= i < |some|
      ensures Holds(some[i], w, p)
    {
      assert some[i] in some;
    }
  }

  lemma NoneSolves(smp: Simplifier, x: Signal, w: Assignment, p: Prime)
    requires Contradiction(smp, x, p) && x != CONSTANT && p > 2
    ensures !Original(smp, w, p)
  {
    hide Holds, SignalIs;
    SignalIsMeaning(x, 1, w, p);
    SignalIsMeaning(x, 2, w, p);
    SmallMod(p, 1);
    SmallMod(p, 2);
    assert smp.consEqualities[0] == SignalIs(x, 1, p) && smp.consEqualities[1] == SignalIs(x, 2, p);
  }

  /** The result then has a solution, although the program has none. */
  lemma ContradictionLost(smp: Simplifier, x: Signal, stored: seq<Constraint>, signalMap: SignalMap, log: seq<Substitution>,
                          effective: seq<Substitution>, deleted: set<Signal>, p: Prime)
    requires ValidInput(smp, p) && Result(smp, stored, signalMap, log, effective, deleted, p) && p > 2
    requires Contradiction(smp, x, p)
    ensures (exists w: Assignment :: AllHold(stored, w, p)) && !Solvable(smp, p)
  {
    InputConstants(smp, p);
    InputForbidden(smp, p);
    hide ValidInput, Result, Contradiction, Original, AllHold;
    LastSolved(smp, x, p);
    var w := SignalAlone(x, 2);
    assert AgreeOnKept(w, w, log);
    StoredExact(smp, stored, signalMap, log, effective, deleted, w, p);
    NotForbidden(smp, x, p);
    forall v: Assignment
      ensures !Original(smp, v, p)
    {
      NoneSolves(smp, x, v, p);
    }
  }

  lemma NotForbidden(smp: Simplifier, x: Signal, p: Prime)
    requires CONSTANT in smp.forbidden && Contradiction(smp, x, p)
    ensures x != CONSTANT
  {
  }
}
