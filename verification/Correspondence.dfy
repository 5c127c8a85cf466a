/** Writing the simplified constraints with their new signal numbers:
    apply_correspondence in circom_algebra/src/algebra.rs, as the R1CS export uses it. */
module Correspondence {
  import opened Wrappers
  import opened Field
  import opened Coefficients
  import opened Constraints
  import opened Extension
  import opened Clusters
  import opened Elimination
  import opened Witness
  import opened Simplification

  ghost predicate Injective(signalMap: SignalMap) {
    forall s, t :: s in signalMap && t in signalMap && signalMap[s] == signalMap[t] ==> s == t
  }

  /** Distinct signals have distinct numbers, and only the constant has its own. */
  ghost predicate GoodMap(signalMap: SignalMap) {
    && Injective(signalMap)
    && forall s :: s in signalMap && signalMap[s] == CONSTANT ==> s == CONSTANT
  }

  function NumberOf(k: Signal, signalMap: SignalMap): Signal
    requires k == CONSTANT || k in signalMap
  {
    if k == CONSTANT then CONSTANT else signalMap[k]
  }

  ghost function Numbers(m: Form, signalMap: SignalMap): set<Signal>
    requires m.Keys - {CONSTANT} <= signalMap.Keys
  {
    set k | k in m :: NumberOf(k, signalMap)
  }

  /** The same form under other names. */
  ghost predicate Renamed(m: Form, r: Form, signalMap: SignalMap) {
    && m.Keys - {CONSTANT} <= signalMap.Keys
    && r.Keys == Numbers(m, signalMap)
    && forall k :: k in m ==> r[NumberOf(k, signalMap)] == m[k]
  }

  /** Fails when a signal has no number. */
  method ApplyRawCorrespondence(symbols: Form, signalMap: SignalMap) returns (r: Option<Form>)
    requires GoodMap(signalMap)
    ensures r.Some? <==> symbols.Keys - {CONSTANT} <= signalMap.Keys
    ensures r.Some? ==> Renamed(symbols, r.value, signalMap)
  {
    var coefficients: Form := map[];
    var rest := symbols.Keys;
    while rest != {}
      invariant rest <= symbols.Keys
      invariant symbols.Keys - rest - {CONSTANT} <= signalMap.Keys
      invariant forall k :: k in symbols.Keys - rest ==>
        NumberOf(k, signalMap) in coefficients && coefficients[NumberOf(k, signalMap)] == symbols[k]
      invariant forall n :: n in coefficients ==> exists k :: k in symbols.Keys - rest && NumberOf(k, signalMap) == n
    {
      var key :| key in rest;
      if key != CONSTANT && key !in signalMap {
        return None;
      }
      coefficients := coefficients[NumberOf(key, signalMap) := symbols[key]];
      rest := rest - {key};
    }
    r := Some(coefficients);
  }

  lemma {:induction false} RenamedEval(m: Form, r: Form, signalMap: SignalMap, w: Assignment, v: Assignment)
    requires GoodMap(signalMap) && Renamed(m, r, signalMap)
    requires forall s :: s in signalMap ==> v(signalMap[s]) == w(s)
    ensures Eval(r, v) == Eval(m, w)
    decreases m.Keys
  {
    if m == map[] {
      assert r == map[];
      EvalNone(v);
      EvalNone(w);
    } else {
      var k :| k in m;
      var n := NumberOf(k, signalMap);
      assert n in r;
      RenamedRest(m, r, signalMap, k);
      RenamedEval(m - {k}, r - {n}, signalMap, w, v);
      EvalSplit(m, w, k);
      EvalSplit(r, v, n);
    }
  }

  lemma RenamedRest(m: Form, r: Form, signalMap: SignalMap, k: Signal)
    requires GoodMap(signalMap) && Renamed(m, r, signalMap) && k in m
    ensures Renamed(m - {k}, r - {NumberOf(k, signalMap)}, signalMap)
  {
    var n := NumberOf(k, signalMap);
    assert forall j :: j in m && NumberOf(j, signalMap) == n ==> j == k;
    forall x
      ensures x in r - {n} <==> x in Numbers(m - {k}, signalMap)
    {
      if x in r - {n} {
        var j :| j in m && NumberOf(j, signalMap) == x;
        assert j in m - {k};
      }
    }
  }

  ghost predicate RenamedConstraint(c: Constraint, r: Constraint, signalMap: SignalMap) {
    Renamed(c.a, r.a, signalMap) && Renamed(c.b, r.b, signalMap) && Renamed(c.c, r.c, signalMap)
  }

  /** Fails exactly when a signal of the constraint has no number. */
  method ApplyCorrespondence(constraint: Constraint, signalMap: SignalMap) returns (r: Option<Constraint>)
    requires GoodMap(signalMap)
    ensures r.Some? <==> SignalsOf(constraint) <= signalMap.Keys
    ensures r.Some? ==> RenamedConstraint(constraint, r.value, signalMap)
  {
    var a := ApplyRawCorrespondence(constraint.a, signalMap);
    if a.None? { return None; }
    var b := ApplyRawCorrespondence(constraint.b, signalMap);
    if b.None? { return None; }
    var c := ApplyRawCorrespondence(constraint.c, signalMap);
    if c.None? { return None; }
    r := Some(Constraint(a.value, b.value, c.value));
  }

  /** The constraints of the exported file. */
  ghost predicate Exported(stored: seq<Constraint>, out: seq<Constraint>, signalMap: SignalMap) {
    |out| == |stored| && forall i :: 0 <= i < |stored| ==> RenamedConstraint(stored[i], out[i], signalMap)
  }

  /** The export never meets an unknown signal. */
  method Export(ghost smp: Simplifier, stored: seq<Constraint>, signalMap: SignalMap, ghost log: seq<Substitution>,
                ghost effective: seq<Substitution>, ghost deleted: set<Signal>, p: Prime)
    returns (out: Option<seq<Constraint>>)
    requires ValidInput(smp, p) && Result(smp, stored, signalMap, log, effective, deleted, p)
    ensures out.Some? && Exported(stored, out.value, signalMap)
  {
    hide ValidInput, Result, RenamedConstraint, SignalsOf;
    ResultMap(smp, stored, signalMap, log, effective, deleted, p);
    var written: seq<Constraint> := [];
    for i := 0 to |stored|
      invariant |written| == i
      invariant forall j :: 0 <= j < i ==> RenamedConstraint(stored[j], written[j], signalMap)
    {
      OneOfAll(stored, i);
      var c := ApplyCorrespondence(stored[i], signalMap);
      if c.None? { return None; }
      written := written + [c.value];
    }
    out := Some(written);
  }

  lemma ResultMap(smp: Simplifier, stored: seq<Constraint>, signalMap: SignalMap, log: seq<Substitution>,
                  effective: seq<Substitution>, deleted: set<Signal>, p: Prime)
    requires ValidInput(smp, p) && Result(smp, stored, signalMap, log, effective, deleted, p)
    ensures GoodMap(signalMap) && SignalsOfAll(stored) <= signalMap.Keys
    ensures CONSTANT in signalMap ==> signalMap[CONSTANT] == CONSTANT
  {
    hide SignalsOfAll, Original;
    RenumberingBijective(signalMap, smp.maxSignal, deleted);
    forall s, t | s in signalMap && t in signalMap && signalMap[s] == signalMap[t]
      ensures s == t
    {
      assert !(s < t) && !(t < s);
    }
    assert KeptBefore(deleted, 0) == 0;
    forall s | s in signalMap && signalMap[s] == CONSTANT
      ensures s == CONSTANT
    {
      assert CONSTANT in signalMap;
    }
  }

  lemma ExportHolds(stored: seq<Constraint>, out: seq<Constraint>, signalMap: SignalMap, w: Assignment, v: Assignment, p: Prime)
    requires GoodMap(signalMap) && Exported(stored, out, signalMap)
    requires forall s :: s in signalMap ==> v(signalMap[s]) == w(s)
    ensures AllHold(out, v, p) <==> AllHold(stored, w, p)
  {
    hide Renamed, GoodMap;
    forall i | 0 <= i < |stored|
      ensures Holds(out[i], v, p) <==> Holds(stored[i], w, p)
    {
      RenamedEval(stored[i].a, out[i].a, signalMap, w, v);
      RenamedEval(stored[i].b, out[i].b, signalMap, w, v);
      RenamedEval(stored[i].c, out[i].c, signalMap, w, v);
    }
  }

  /** The values of the wires, looked up through the witness vector. */
  ghost function Wires(w: Assignment, vector: seq<Signal>): Assignment {
    (i: Signal) => if i == CONSTANT then 1 else if i < |vector| then w(vector[i]) else 0
  }

  /** The values of the signals, looked up through the signal map. */
  ghost function Labels(v: Assignment, signalMap: SignalMap): Assignment {
    (s: Signal) => if s == CONSTANT then 1 else if s in signalMap then v(signalMap[s]) else 0
  }

  /** Every solution of the program, read through the witness vector, solves the exported file. */
  lemma WitnessComplete(smp: Simplifier, stored: seq<Constraint>, signalMap: SignalMap, log: seq<Substitution>,
                        effective: seq<Substitution>, deleted: set<Signal>, vector: seq<Signal>, out: seq<Constraint>, w: Assignment, p: Prime)
    requires ValidInput(smp, p) && Result(smp, stored, signalMap, log, effective, deleted, p)
    requires Exported(stored, out, signalMap)
    requires forall s :: s in signalMap ==> signalMap[s] < |vector| && vector[signalMap[s]] == s
    requires Original(smp, w, p)
    ensures AllHold(out, Wires(w, vector), p)
  {
    hide ValidInput, Original, AllHold, Exported, GoodMap;
    ResultMap(smp, stored, signalMap, log, effective, deleted, p);
    forall s | s in signalMap
      ensures Wires(w, vector)(signalMap[s]) == w(s)
    {
      GoodMapConstant(signalMap, s);
    }
    ExportHolds(stored, out, signalMap, w, Wires(w, vector), p);
  }

  lemma GoodMapConstant(signalMap: SignalMap, s: Signal)
    requires GoodMap(signalMap) && s in signalMap
    ensures signalMap[s] == CONSTANT ==> s == CONSTANT
  {
  }

  /** Every solution of the exported file comes from a solution, with those wire values, of the
      program in which every signal keeps its last constant only; that is one of the program itself
      as long as no signal is given two different constants. */
  lemma WitnessSound(smp: Simplifier, stored: seq<Constraint>, signalMap: SignalMap, log: seq<Substitution>,
                     effective: seq<Substitution>, deleted: set<Signal>, vector: seq<Signal>, out: seq<Constraint>, v: Assignment, p: Prime)
    requires ValidInput(smp, p) && Result(smp, stored, signalMap, log, effective, deleted, p)
    requires Exported(stored, out, signalMap)
    requires forall i :: 0 <= i < |vector| ==> vector[i] in signalMap && signalMap[vector[i]] == i
    requires AllHold(out, v, p)
    ensures exists w: Assignment :: Original(Program(smp, p), w, p) && Reads(w, v, vector)
    ensures EqualitiesAgree(smp, p) ==> exists w: Assignment :: Original(smp, w, p) && Reads(w, v, vector)
  {
    hide ValidInput, Original, AllHold, Exported, GoodMap;
    ResultMap(smp, stored, signalMap, log, effective, deleted, p);
    InputConstants(smp, p);
    var u := Labels(v, signalMap);
    ExportHolds(stored, out, signalMap, u, v, p);
    SolutionExtends(smp, stored, signalMap, log, effective, deleted, u, p);
    var w: Assignment :| AgreeOnKept(w, u, log) && Original(Program(smp, p), w, p);
    SameKept(log, effective);
    forall i | 0 <= i < |vector|
      ensures w(vector[i]) == v(i)
    {
      assert vector[i] !in deleted;
    }
    assert Reads(w, v, vector);
    if EqualitiesAgree(smp, p) {
      AgreeSame(smp, w, p);
    }
  }

  /** The values of the signals of the vector are those of the wires. */
  ghost predicate Reads(w: Assignment, v: Assignment, vector: seq<Signal>) {
    forall i :: 0 <= i < |vector| ==> w(vector[i]) == v(i)
  }
}
