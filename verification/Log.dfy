/** The list of all substitutions a simplification makes, in the order in which the
    source logs them, and what can be solved from it. */
module Log {
  import opened Field
  import opened Coefficients
  import opened Constraints
  import opened Elimination
  import opened BackSubstitution
  import opened Extension
  import opened Clusters
  import opened Stages
  import opened Frames

  /** A right-hand side mentions no signal that was eliminated before or with it. */
  ghost predicate Triangular(log: seq<Substitution>) {
    forall i, j :: 0 <= j <= i < |log| ==> log[j].from !in log[i].to
  }

  /** Only constants are logged twice for one signal. */
  ghost predicate RepeatsConstant(log: seq<Substitution>, p: Prime) {
    forall i, j :: 0 <= i < j < |log| && log[i].from == log[j].from ==> IsConstant(log[i], p) && IsConstant(log[j], p)
  }

  /** Constants logged for one signal are the same. */
  ghost predicate RepeatsAgree(log: seq<Substitution>) {
    forall i, j :: 0 <= i < j < |log| && log[i].from == log[j].from ==>
      Get(log[i].to, CONSTANT) == Get(log[j].to, CONSTANT)
  }

  /** What is kept about the log while a simplification runs. */
  ghost predicate ValidLog(log: seq<Substitution>, deleted: set<Signal>, forbidden: set<Signal>, universe: set<Signal>, p: Prime) {
    && Triangular(log) && RepeatsConstant(log, p)
    && (forall s :: s in deleted <==> Removed(log, s))
    && deleted !! forbidden
    && Inside(log, universe, forbidden, p)
  }

  lemma LogStart(forbidden: set<Signal>, universe: set<Signal>, p: Prime)
    ensures ValidLog([], {}, forbidden, universe, p)
  {
  }

  ghost function Froms(subs: seq<Substitution>): set<Signal> {
    set i | 0 <= i < |subs| :: subs[i].from
  }

  lemma FromsRemoved(subs: seq<Substitution>)
    ensures forall s :: s in Froms(subs) <==> Removed(subs, s)
  {
  }

  /** More substitutions for a system that mentions no eliminated signal. */
  lemma LogAppend(log: seq<Substitution>, deleted: set<Signal>, more: seq<Substitution>, signals: set<Signal>,
                  forbidden: set<Signal>, universe: set<Signal>, p: Prime)
    requires CONSTANT in forbidden
    requires ValidLog(log, deleted, forbidden, universe, p)
    requires Inside(more, signals, forbidden, p) && signals <= universe && signals !! deleted
    requires NonOverlapping(more) || Constants(more, p)
    ensures ValidLog(log + more, deleted + Froms(more), forbidden, universe, p)
  {
    hide Reduced, Removed;
    var both := log + more;
    FromsRemoved(more);
    RemovedConcat(log, more);
    assert CONSTANT !in deleted;
    assert forall i :: 0 <= i < |log| ==> log[i].from in deleted by {
      forall i | 0 <= i < |log|
        ensures log[i].from in deleted
      {
        RemovedAt(log, i);
      }
    }
    forall i, j | 0 <= j <= i < |both|
      ensures both[j].from !in both[i].to
    {
      AppendTriangular(log, deleted, more, signals, forbidden, p, i, j);
    }
    forall i, j | 0 <= i < j < |both|
      ensures both[i].from == both[j].from ==> IsConstant(both[i], p) && IsConstant(both[j], p)
    {
      assert both[i] == if i < |log| then log[i] else more[i - |log|];
      assert both[j] == if j < |log| then log[j] else more[j - |log|];
    }
    InsideConcat(log, more, signals, forbidden, universe, p);
  }

  lemma RemovedAt(subs: seq<Substitution>, i: nat)
    requires i < |subs|
    ensures Removed(subs, subs[i].from)
  {
  }

  lemma AppendTriangular(log: seq<Substitution>, deleted: set<Signal>, more: seq<Substitution>, signals: set<Signal>,
                         forbidden: set<Signal>, p: Prime, i: nat, j: nat)
    requires CONSTANT in forbidden && Triangular(log) && deleted !! forbidden
    requires forall k :: 0 <= k < |log| ==> log[k].from in deleted
    requires Inside(more, signals, forbidden, p) && signals !! deleted
    requires NonOverlapping(more) || Constants(more, p)
    requires j <= i < |log + more|
    ensures (log + more)[j].from !in (log + more)[i].to
  {
    var both := log + more;
    if i < |log| {
      assert both[i] == log[i] && both[j] == log[j];
    } else {
      var s := more[i - |log|];
      assert both[i] == s;
      if j < |log| {
        assert both[j] == log[j];
      } else {
        assert both[j] == more[j - |log|];
        assert Constants(more, p) ==> IsConstant(s, p);
      }
    }
  }

  lemma InsideConcat(log: seq<Substitution>, more: seq<Substitution>, signals: set<Signal>,
                     forbidden: set<Signal>, universe: set<Signal>, p: Prime)
    requires Inside(log, universe, forbidden, p) && Inside(more, signals, forbidden, p) && signals <= universe
    ensures Inside(log + more, universe, forbidden, p)
  {
    hide Reduced;
    var both := log + more;
    forall i | 0 <= i < |both|
      ensures both[i].from in universe - forbidden && both[i].to.Keys <= universe + {CONSTANT} && Reduced(both[i].to, p)
    {
      assert both[i] == if i < |log| then log[i] else more[i - |log|];
    }
  }

  // ----- solving the log

  /** Gives every eliminated signal its value, the last eliminated first. */
  ghost function Solve(w: Assignment, log: seq<Substitution>, p: Prime): Assignment
    requires forall i :: 0 <= i < |log| ==> log[i].from != CONSTANT
  {
    if log == [] then w
    else
      var v := Solve(w, log[1..], p);
      (s: Signal) => if s == log[0].from then Eval(log[0].to, v) % p else v(s)
  }

  lemma {:induction false} SolveCorrect(w: Assignment, log: seq<Substitution>, p: Prime)
    requires forall i :: 0 <= i < |log| ==> log[i].from != CONSTANT
    requires Triangular(log) && RepeatsConstant(log, p) && RepeatsAgree(log)
    ensures ObeysAll(Solve(w, log, p), log, p)
    ensures AgreeOnKept(Solve(w, log, p), w, log)
  {
    if log != [] {
      var rest := log[1..];
      assert forall i :: 0 <= i < |rest| ==> rest[i] == log[i + 1];
      SolveCorrect(w, rest, p);
      var u, v := Solve(w, log, p), Solve(w, rest, p);
      forall i | 0 <= i < |log|
        ensures Obeys(u, log[i], p)
      {
        SolveOne(u, v, log, i, p);
      }
      assert log == [log[0]] + rest;
      RemovedConcat([log[0]], rest);
      RemovedAt([log[0]], 0);
    }
  }

  lemma SolveOne(u: Assignment, v: Assignment, log: seq<Substitution>, i: nat, p: Prime)
    requires i < |log| && Triangular(log) && RepeatsConstant(log, p) && RepeatsAgree(log)
    requires ObeysAll(v, log[1..], p)
    requires u(log[0].from) == Eval(log[0].to, v) % p
    requires forall s :: s != log[0].from ==> u(s) == v(s)
    ensures Obeys(u, log[i], p)
  {
    EvalAgree(log[i].to, u, v);
    if log[i].from == log[0].from {
      CongMod(p, Eval(log[0].to, v));
      if i > 0 {
        assert IsConstant(log[0], p) && IsConstant(log[i], p);
        ConstantValue(log[0], v, p);
        ConstantValue(log[i], v, p);
      }
    } else {
      assert log[1..][i - 1] == log[i];
    }
  }

  lemma AllHoldAgree(cs: seq<Constraint>, v: Assignment, w: Assignment, p: Prime)
    requires forall s :: s in SignalsOfAll(cs) ==> v(s) == w(s)
    ensures AllHold(cs, v, p) <==> AllHold(cs, w, p)
  {
    forall i | 0 <= i < |cs|
      ensures Holds(cs[i], v, p) <==> Holds(cs[i], w, p)
    {
      HoldsAgree(cs, i, v, w, p);
    }
  }

  lemma HoldsAgree(cs: seq<Constraint>, i: nat, v: Assignment, w: Assignment, p: Prime)
    requires i < |cs| && forall s :: s in SignalsOfAll(cs) ==> v(s) == w(s)
    ensures Holds(cs[i], v, p) <==> Holds(cs[i], w, p)
  {
    forall s | s in SignalsOf(cs[i]) + {CONSTANT}
      ensures v(s) == w(s)
    {
    }
    EvalAgree(cs[i].a, v, w);
    EvalAgree(cs[i].b, v, w);
    EvalAgree(cs[i].c, v, w);
  }
}
