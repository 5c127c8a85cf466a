/** Fraction-free elimination that prefers signals with few occurrences:
    circom_algebra/src/simplification_utils.rs, version 4. */
module EliminationFewest {
  import opened Field
  import opened Coefficients
  import opened Constraints
  import opened Elimination
  import opened Occurrences
  import Ascending

  /** No pivot's right-hand side mentions its own signal or one eliminated before.
      The order lists the last eliminated signal first. */
  ghost predicate LaterOnly(pivots: Pivots, order: seq<Signal>) {
    && (forall s :: s in pivots <==> s in order)
    && (forall i, j :: 0 <= i < j < |order| ==> order[i] != order[j])
    && (forall i, j :: 0 <= i <= j < |order| && order[i] in pivots ==> order[j] !in pivots[order[i]].sub.to)
  }

  // ----- termination of the conflict loop

  ghost function Power2(n: nat): nat {
    if n == 0 then 1 else 2 * Power2(n - 1)
  }

  /** The eliminated signals in a set as a binary number, the earliest eliminated
      signal being the highest digit. */
  ghost function Weight(order: seq<Signal>, keys: set<Signal>): nat {
    if order == [] then 0
    else
      var last := |order| - 1;
      Weight(order[..last], keys) + if order[last] in keys then Power2(last) else 0
  }

  lemma {:induction false} WeightBound(order: seq<Signal>, keys: set<Signal>)
    ensures Weight(order, keys) < Power2(|order|)
  {
    if order != [] {
      WeightBound(order[..|order| - 1], keys);
    }
  }

  /** Trading an eliminated signal for later eliminated ones lowers the weight. */
  lemma {:induction false} WeightFalls(order: seq<Signal>, keys: set<Signal>, keys': set<Signal>, i: nat)
    requires i < |order| && order[i] in keys
    requires forall j :: i <= j < |order| && order[j] in keys' ==> j != i && order[j] in keys
    ensures Weight(order, keys') < Weight(order, keys)
  {
    var last := |order| - 1;
    if i == last {
      WeightBound(order[..last], keys');
    } else {
      WeightFalls(order[..last], keys, keys', i);
    }
  }

  // ----- one constraint

  ghost predicate Counted(universe: set<Signal>, forbidden: set<Signal>, deleted: set<Signal>, occurrences: map<Signal, nat>) {
    occurrences.Keys == universe - forbidden - deleted
  }

  ghost predicate InStep(signals: SignalDefinition4, pivots: Pivots)
    reads signals
  {
    signals.deletedSymbols == pivots.Keys && LaterOnly(pivots, signals.orderSignals)
  }

  /** What becomes of the bookkeeping when a constraint has been treated. */
  twostate predicate Advanced(signals: SignalDefinition4, info: SignalsInformation, pivots: Pivots, pivots': Pivots)
    reads signals, info
  {
    var added := pivots'.Keys - pivots.Keys;
    && pivots.Keys <= pivots'.Keys
    && InStep(signals, pivots')
    && info.signalToOccurrences == old(info.signalToOccurrences) - added
  }

  lemma PivotFirst(pivots: Pivots, order: seq<Signal>, work: Constraint, out: Signal, p: Prime)
    requires LaterOnly(pivots, order) && LinearConstraint(work, p)
    requires out in work.c && out !in pivots && out != CONSTANT && CONSTANT !in pivots
    requires forall k :: k in pivots ==> k !in work.c
    ensures LaterOnly(pivots[out := PivotFor(work, out, p)], [out] + order)
  {
    hide PivotFor;
    PivotForShape(work, out, p);
    var more, order' := pivots[out := PivotFor(work, out, p)], [out] + order;
    assert forall i :: 1 <= i < |order'| ==> order'[i] == order[i - 1];
  }

  lemma ConflictLater(pivots: Pivots, order: seq<Signal>, universe: set<Signal>, work: Constraint, out: Signal, p: Prime)
    requires CONSTANT in universe && CONSTANT !in pivots
    requires LaterOnly(pivots, order) && Within(pivots, universe)
    requires LinearConstraint(work, p) && work.c.Keys <= universe
    requires out in pivots && out in work.c
    ensures var merged := Merge(PivotFor(work, out, p), pivots[out], p);
      && LinearConstraint(merged, p)
      && merged.c.Keys <= universe
      && Weight(order, merged.c.Keys) < Weight(order, work.c.Keys)
  {
    hide PivotFor, Merge, LinearConstraint;
    LinearCoefficient(work, out, p);
    PivotForShape(work, out, p);
    MergeShape(PivotFor(work, out, p), pivots[out], p);
    var merged := Merge(PivotFor(work, out, p), pivots[out], p);
    var i :| 0 <= i < |order| && order[i] == out;
    WeightFalls(order, work.c.Keys, merged.c.Keys, i);
  }

  /** No takeable signal of a pivot occurs less often than the one it eliminates; of equally frequent
      ones it eliminates the largest. */
  ghost predicate Fewest(occurrences: map<Signal, nat>, pv: Pivot, s: Signal, forbidden: set<Signal>) {
    s in occurrences && forall k :: k in pv.sub.to && k !in forbidden ==> k in occurrences && Preferred(occurrences, s, k)
  }

  lemma PivotFewest(occurrences: map<Signal, nat>, forbidden: set<Signal>, work: Constraint, out: Signal, p: Prime)
    requires CONSTANT in forbidden && LinearConstraint(work, p) && out in work.c && out !in forbidden
    requires forall k :: k in work.c && k !in forbidden ==> k in occurrences
    requires forall k :: k in work.c && k !in forbidden ==> Preferred(occurrences, out, k)
    ensures Fewest(occurrences, PivotFor(work, out, p), out, forbidden)
  {
    hide PivotFor;
    PivotForShape(work, out, p);
  }

  method TreatUniqueConstraint4(signals: SignalDefinition4, substitutions: Pivots, lconst: seq<Constraint>, work: Constraint,
                                info: SignalsInformation, signal: Signal, ghost universe: set<Signal>, p: Prime)
    returns (substitutions': Pivots)
    requires CONSTANT in signals.forbidden && CONSTANT in universe
    requires Sound(substitutions, lconst, signals.forbidden, universe, p) && InStep(signals, substitutions)
    requires LinearConstraint(work, p) && work.c.Keys <= universe
    requires signal in work.c && signal !in signals.forbidden
    requires forall k :: k in substitutions ==> k !in work.c
    modifies signals, info
    ensures substitutions'.Keys == substitutions.Keys + {signal}
    ensures Advanced(signals, info, substitutions, substitutions')
    ensures Sound(substitutions', lconst, signals.forbidden, universe, p)
    ensures Collected(substitutions, lconst, work, substitutions', lconst, p)
  {
    LinearCoefficient(work, signal, p);
    PivotStep(substitutions, lconst, signals.forbidden, universe, work, work, signal, p);
    PivotFirst(substitutions, signals.orderSignals, work, signal, p);
    substitutions' := substitutions[signal := PivotFor(work, signal, p)];
    info.RemoveSignal(signal);
    signals.Delete(signal);
  }

  method TreatConstraint4(signals: SignalDefinition4, substitutions: Pivots, lconst: seq<Constraint>, constraint: Constraint,
                          info: SignalsInformation, ghost universe: set<Signal>, p: Prime)
    returns (substitutions': Pivots, lconst': seq<Constraint>)
    requires CONSTANT in signals.forbidden && CONSTANT in universe
    requires Sound(substitutions, lconst, signals.forbidden, universe, p) && InStep(signals, substitutions)
    requires Counted(universe, signals.forbidden, signals.deletedSymbols, info.signalToOccurrences)
    requires LinearConstraint(constraint, p) && constraint.c.Keys <= universe
    modifies signals, info
    ensures Advanced(signals, info, substitutions, substitutions')
    ensures Sound(substitutions', lconst', signals.forbidden, universe, p)
    ensures Collected(substitutions, lconst, constraint, substitutions', lconst', p)
    ensures forall s :: s in substitutions'.Keys - substitutions.Keys ==>
      Fewest(old(info.signalToOccurrences), substitutions'[s], s, signals.forbidden)
  {
    hide PivotFor, Merge, Holds, Collected, Solves, LinearConstraint, Residual, Weight, LaterOnly, Fewest;
    var work := constraint;
    while true
      invariant LinearConstraint(work, p) && work.c.Keys <= universe
      invariant SameUnder(substitutions, constraint, work, p)
      invariant InStep(signals, substitutions) && info.signalToOccurrences == old(info.signalToOccurrences)
      decreases Weight(signals.orderSignals, work.c.Keys)
    {
      if IsEmpty(work) {
        EmptyStep(substitutions, lconst, constraint, work, p);
        return substitutions, lconst;
      }
      var out := TakeSignal4(signals, info, work);
      if out.None? {
        RejectStep(substitutions, lconst, signals.forbidden, universe, constraint, work, p);
        return substitutions, lconst + [work];
      }
      LinearCoefficient(work, out.value, p);
      var pivot := PivotFor(work, out.value, p);
      if out.value !in substitutions {
        PivotStep(substitutions, lconst, signals.forbidden, universe, constraint, work, out.value, p);
        PivotFirst(substitutions, signals.orderSignals, work, out.value, p);
        PivotFewest(info.signalToOccurrences, signals.forbidden, work, out.value, p);
        signals.Delete(out.value);
        info.RemoveSignal(out.value);
        return substitutions[out.value := pivot], lconst;
      }
      ConflictStep(substitutions, signals.forbidden, constraint, work, out.value, p);
      ConflictLater(substitutions, signals.orderSignals, universe, work, out.value, p);
      work := Merge(pivot, substitutions[out.value], p);
    }
  }

  // ----- the whole system

  lemma UniverseMentioned(cs: seq<Constraint>)
    ensures Universe(cs) == {CONSTANT} + Mentioned(cs)
  {
    forall i | 0 <= i < |cs|
      ensures cs[i].c.Keys <= Mentioned(cs)
    {
      MentionedIn(cs, i);
    }
    forall k | k in Mentioned(cs)
      ensures k in Universe(cs)
    {
      MentionedCount(cs, k);
      CountZero(cs, k);
    }
  }

  /** What is left of the system: some constraints untouched, the others emptied. */
  ghost predicate Remainder(cs: seq<Constraint>, rest: seq<Constraint>) {
    |rest| <= |cs| && forall i :: 0 <= i < |rest| ==> rest[i] == cs[i] || rest[i] == EMPTY
  }

  lemma RemainderLinear(cs: seq<Constraint>, rest: seq<Constraint>, i: nat, p: Prime)
    requires LinearSystem(cs, p) && Remainder(cs, rest) && i < |rest|
    ensures LinearConstraint(rest[i], p) && rest[i].c.Keys <= Universe(cs)
  {
  }

  /** Emptying a constraint that has become a pivot keeps the solutions. */
  lemma ProgressEmptied(all: seq<Constraint>, pivots: Pivots, lconst: seq<Constraint>, rest: seq<Constraint>, i: nat,
                        pivots': Pivots, p: Prime)
    requires i < |rest|
    requires Progress(all, pivots, lconst, rest, p)
    requires Collected(pivots, lconst, rest[i], pivots', lconst, p)
    ensures Progress(all, pivots', lconst, rest[i := EMPTY], p)
  {
    var rest' := rest[i := EMPTY];
    forall w: Assignment
      ensures AllHold(all, w, p) <==> Solves(pivots', lconst, w, p) && AllHold(rest', w, p)
    {
      EmptyHolds(w, p);
      if AllHold(rest', w, p) && Holds(rest[i], w, p) {
        forall j | 0 <= j < |rest|
          ensures Holds(rest[j], w, p)
        {
          assert j != i ==> rest'[j] == rest[j];
        }
      }
    }
  }

  /** A signal of a remaining constraint is counted at least once. */
  lemma CountPositive(occurrences: map<Signal, nat>, rest: seq<Constraint>, i: nat)
    requires i < |rest| && Tracks(occurrences, rest)
    ensures forall k :: k in rest[i].c && k in occurrences ==> occurrences[k] > 0
  {
    MentionedIn(rest, i);
    forall k | k in rest[i].c && k in occurrences
      ensures occurrences[k] > 0
    {
      MentionedCount(rest, k);
    }
  }

  /** Taking a constraint keeps the counts in step with what is left. */
  lemma TracksEmptied(before: map<Signal, nat>, after: map<Signal, nat>, rest: seq<Constraint>, i: nat)
    requires i < |rest| && Tracks(before, rest)
    requires forall k :: k in after ==> k in before && after[k] + (if k in rest[i].c then 1 else 0) == before[k]
    ensures Tracks(after, rest[i := EMPTY])
  {
    forall k | k in after
      ensures after[k] == Count(rest[i := EMPTY], k)
    {
      CountEmptied(rest, i, k);
    }
  }

  lemma TracksPopped(before: map<Signal, nat>, after: map<Signal, nat>, rest: seq<Constraint>)
    requires rest != [] && Tracks(before, rest)
    requires forall k :: k in after ==>
      k in before && after[k] + (if k in rest[|rest| - 1].c then 1 else 0) == before[k]
    ensures Tracks(after, rest[..|rest| - 1])
  {
  }

  /** What version 4 keeps between two constraints. */
  ghost predicate Stage(signals: SignalDefinition4, info: SignalsInformation, all: seq<Constraint>,
                        universe: set<Signal>, substitutions: Pivots, lconst: seq<Constraint>, rest: seq<Constraint>, p: Prime)
    reads signals, info
  {
    && universe == Universe(all) && CONSTANT in universe
    && InStep(signals, substitutions)
    && Sound(substitutions, lconst, signals.forbidden, universe, p)
    && Counted(universe, signals.forbidden, signals.deletedSymbols, info.signalToOccurrences)
    && Tracks(info.signalToOccurrences, rest)
    && Remainder(all, rest)
    && Progress(all, substitutions, lconst, rest, p)
  }

  lemma StageStart(signals: SignalDefinition4, info: SignalsInformation, all: seq<Constraint>, p: Prime)
    requires CONSTANT in signals.forbidden && signals.deletedSymbols == {} && signals.orderSignals == []
    requires Tracks(info.signalToOccurrences, all)
    requires info.signalToOccurrences.Keys == Mentioned(all) - signals.forbidden
    ensures Stage(signals, info, all, Universe(all), map[], [], all, p)
  {
    UniverseMentioned(all);
    ProgressStart(all, p);
  }

  ghost predicate NoneLeft(substitutions: Pivots, rest: seq<Constraint>) {
    forall s, i :: s in substitutions && 0 <= i < |rest| ==> s !in rest[i].c
  }

  /** A signal that occurs in one constraint only is eliminated with it. */
  method TakeUnique(signals: SignalDefinition4, info: SignalsInformation, ghost all: seq<Constraint>, ghost universe: set<Signal>,
                    substitutions: Pivots, rest: seq<Constraint>, signal: Signal, index: nat, p: Prime)
    returns (substitutions': Pivots, rest': seq<Constraint>)
    requires CONSTANT in signals.forbidden && LinearSystem(all, p)
    requires Stage(signals, info, all, universe, substitutions, [], rest, p) && NoneLeft(substitutions, rest)
    requires index < |rest| && signal in rest[index].c && signal !in signals.forbidden
    requires forall j :: 0 <= j < |rest| && j != index ==> signal !in rest[j].c
    modifies signals, info
    ensures Stage(signals, info, all, universe, substitutions', [], rest', p) && NoneLeft(substitutions', rest')
    ensures substitutions'.Keys == substitutions.Keys + {signal} && rest' == rest[index := EMPTY]
  {
    hide PivotFor, Holds, Collected, Solves, LinearConstraint, Progress, Universe, Sound, Count, LinearSystem;
    var actual := rest[index];
    rest' := rest[index := EMPTY];
    ghost var before := info.signalToOccurrences;
    CountPositive(before, rest, index);
    RemainderLinear(all, rest, index, p);
    info.RemoveConstraint(actual, signals);
    substitutions' := TreatUniqueConstraint4(signals, substitutions, [], actual, info, signal, universe, p);
    ProgressEmptied(all, substitutions, [], rest, index, substitutions', p);
    TracksEmptied(before, info.signalToOccurrences, rest, index);
  }

  /** The last remaining constraint is taken and treated. */
  method TakeLast(signals: SignalDefinition4, info: SignalsInformation, ghost all: seq<Constraint>, ghost universe: set<Signal>,
                  substitutions: Pivots, lconst: seq<Constraint>, rest: seq<Constraint>, p: Prime)
    returns (substitutions': Pivots, lconst': seq<Constraint>)
    requires CONSTANT in signals.forbidden && LinearSystem(all, p)
    requires Stage(signals, info, all, universe, substitutions, lconst, rest, p) && rest != []
    modifies signals, info
    ensures Stage(signals, info, all, universe, substitutions', lconst', rest[..|rest| - 1], p)
    ensures substitutions.Keys <= substitutions'.Keys
  {
    hide PivotFor, Holds, Collected, Solves, LinearConstraint, Progress, Universe, Sound, Count, LinearSystem;
    var last := |rest| - 1;
    var actual := rest[last];
    assert rest == rest[..last] + [actual];
    ghost var before := info.signalToOccurrences;
    CountPositive(before, rest, last);
    RemainderLinear(all, rest, last, p);
    info.RemoveConstraint(actual, signals);
    TracksPopped(before, info.signalToOccurrences, rest);
    substitutions', lconst' := TreatConstraint4(signals, substitutions, lconst, actual, info, universe, p);
    ProgressStep(all, substitutions, lconst, rest[..last], actual, substitutions', lconst', p);
  }

  /** A signal counted once can be taken as long as its constraint is there. */
  lemma UniqueRemains(all: seq<Constraint>, rest: seq<Constraint>, signal: Signal, index: nat)
    requires Remainder(all, rest) && index < |rest| == |all|
    requires Count(all, signal) == 1 && signal in all[index].c && !IsEmpty(rest[index])
    ensures signal in rest[index].c
    ensures forall j :: 0 <= j < |rest| && j != index ==> signal !in rest[j].c
  {
    CountOne(all, index, signal);
  }

  method SubstitutionProcess4(signals: SignalDefinition4, constraints: seq<Constraint>, p: Prime)
    returns (substitutions: Pivots, lconst: seq<Constraint>)
    requires CONSTANT in signals.forbidden && signals.deletedSymbols == {} && signals.orderSignals == []
    requires LinearSystem(constraints, p)
    modifies signals
    ensures InStep(signals, substitutions)
    ensures Sound(substitutions, lconst, signals.forbidden, Universe(constraints), p)
    ensures Progress(constraints, substitutions, lconst, [], p)
    ensures OwnTaken(constraints, signals.forbidden, substitutions.Keys)
  {
    ghost var universe := Universe(constraints);
    var info, uniques := SignalsInformation.New(constraints, signals);
    StageStart(signals, info, constraints, p);
    UniquesOwn(constraints, signals.forbidden, uniques);
    var rest;
    substitutions, rest := TakeUniques(signals, info, constraints, universe, uniques, p);
    lconst := [];
    hide Holds, Solves, LinearSystem, Progress, Universe, Sound, Tracks, Counted, LeastOwn;
    while rest != []
      invariant Stage(signals, info, constraints, universe, substitutions, lconst, rest, p)
      invariant OwnTaken(constraints, signals.forbidden, substitutions.Keys)
    {
      substitutions, lconst := TakeLast(signals, info, constraints, universe, substitutions, lconst, rest, p);
      rest := rest[..|rest| - 1];
    }
  }

  /** A takeable signal that occurs in that constraint only. */
  ghost predicate Own(cs: seq<Constraint>, forbidden: set<Signal>, i: nat, s: Signal)
    requires i < |cs|
  {
    s in cs[i].c && s !in forbidden && Count(cs, s) == 1
  }

  /** The least of the signals that a constraint has for itself. */
  ghost predicate LeastOwn(cs: seq<Constraint>, forbidden: set<Signal>, i: nat, s: Signal)
    requires i < |cs|
  {
    Own(cs, forbidden, i, s) && forall t :: Own(cs, forbidden, i, t) ==> s <= t
  }

  /** Every constraint that has a signal for itself has lost the least one. */
  ghost predicate OwnTaken(cs: seq<Constraint>, forbidden: set<Signal>, taken: set<Signal>) {
    forall i, s :: 0 <= i < |cs| && LeastOwn(cs, forbidden, i, s) ==> s in taken
  }

  /** The table lists exactly the signals that a constraint has for itself. */
  ghost predicate ListsOwn(cs: seq<Constraint>, forbidden: set<Signal>, uniques: map<Signal, nat>) {
    && (forall k :: k in uniques ==> uniques[k] < |cs| && Own(cs, forbidden, uniques[k], k))
    && (forall i: nat, k :: i < |cs| && Own(cs, forbidden, i, k) ==> k in uniques && uniques[k] == i)
  }

  lemma UniquesOwn(cs: seq<Constraint>, forbidden: set<Signal>, uniques: map<Signal, nat>)
    requires forall k :: k in uniques <==> k in Mentioned(cs) - forbidden && Count(cs, k) == 1
    requires forall k :: k in uniques ==> uniques[k] < |cs| && k in cs[uniques[k]].c
    ensures ListsOwn(cs, forbidden, uniques)
  {
    forall i: nat, k | i < |cs| && Own(cs, forbidden, i, k)
      ensures k in uniques && uniques[k] == i
    {
      MentionedIn(cs, i);
      CountOne(cs, i, k);
    }
  }

  /** How far the first phase has come: after n signals exactly the constraints of these are gone, and exactly
      the least own signals have been taken. */
  ghost predicate Swept(cs: seq<Constraint>, forbidden: set<Signal>, uniques: map<Signal, nat>, done: seq<Signal>,
                        taken: set<Signal>, rest: seq<Constraint>)
    requires ListsOwn(cs, forbidden, uniques) && |rest| == |cs|
  {
    && (forall s :: s in done ==> s in uniques && IsEmpty(rest[uniques[s]]))
    && (forall i :: 0 <= i < |cs| ==> rest[i] == cs[i] || exists s :: s in done && s in uniques && uniques[s] == i)
    && (forall s :: s in done && LeastOwn(cs, forbidden, uniques[s], s) ==> s in taken)
    && (forall s :: s in taken ==> s in uniques && LeastOwn(cs, forbidden, uniques[s], s))
  }

  /** Among signals in ascending order a constraint is met first under its least own signal. */
  lemma FirstMet(cs: seq<Constraint>, forbidden: set<Signal>, uniques: map<Signal, nat>, order: seq<Signal>, n: nat,
                 taken: set<Signal>, rest: seq<Constraint>)
    requires ListsOwn(cs, forbidden, uniques) && |rest| == |cs| && n < |order|
    requires Ascending.Increasing(order) && forall s :: s in order <==> s in uniques
    requires Swept(cs, forbidden, uniques, order[..n], taken, rest)
    ensures IsEmpty(rest[uniques[order[n]]]) <==> !LeastOwn(cs, forbidden, uniques[order[n]], order[n])
  {
    hide Swept, Own, Count;
    var s := order[n];
    assert s in order && s in uniques;
    if LeastOwn(cs, forbidden, uniques[s], s) {
      NotMet(cs, forbidden, uniques, order, n, taken, rest);
    } else {
      assert Own(cs, forbidden, uniques[s], s);
      var t :| Own(cs, forbidden, uniques[s], t) && t < s;
      MetBefore(cs, forbidden, uniques, order, n, taken, rest, t);
    }
  }

  lemma MetBefore(cs: seq<Constraint>, forbidden: set<Signal>, uniques: map<Signal, nat>, order: seq<Signal>, n: nat,
                  taken: set<Signal>, rest: seq<Constraint>, t: Signal)
    requires ListsOwn(cs, forbidden, uniques) && |rest| == |cs| && n < |order|
    requires Ascending.Increasing(order) && (forall s :: s in order <==> s in uniques) && order[n] in uniques
    requires Swept(cs, forbidden, uniques, order[..n], taken, rest)
    requires Own(cs, forbidden, uniques[order[n]], t) && t < order[n]
    ensures IsEmpty(rest[uniques[order[n]]])
  {
    hide Own, LeastOwn, Count, IsEmpty;
    assert t in uniques && uniques[t] == uniques[order[n]];
    assert t in order;
    var m :| 0 <= m < |order| && order[m] == t;
    assert m < n;
    assert order[..n][m] == t;
  }

  lemma NotMet(cs: seq<Constraint>, forbidden: set<Signal>, uniques: map<Signal, nat>, order: seq<Signal>, n: nat,
               taken: set<Signal>, rest: seq<Constraint>)
    requires ListsOwn(cs, forbidden, uniques) && |rest| == |cs| && n < |order| && Ascending.Increasing(order)
    requires order[n] in uniques && LeastOwn(cs, forbidden, uniques[order[n]], order[n])
    requires Swept(cs, forbidden, uniques, order[..n], taken, rest)
    ensures !IsEmpty(rest[uniques[order[n]]])
  {
    hide Count, Swept;
    if IsEmpty(rest[uniques[order[n]]]) {
      assert order[n] in cs[uniques[order[n]]].c;
      var m := MetAt(cs, forbidden, uniques, order, n, taken, rest);
    }
  }

  /** An emptied constraint has been met under one of the signals before. */
  lemma MetAt(cs: seq<Constraint>, forbidden: set<Signal>, uniques: map<Signal, nat>, order: seq<Signal>, n: nat,
              taken: set<Signal>, rest: seq<Constraint>) returns (m: nat)
    requires ListsOwn(cs, forbidden, uniques) && |rest| == |cs| && n < |order| && order[n] in uniques
    requires Swept(cs, forbidden, uniques, order[..n], taken, rest)
    requires rest[uniques[order[n]]] != cs[uniques[order[n]]]
    ensures m < n && Own(cs, forbidden, uniques[order[n]], order[m])
  {
    hide Count, Own;
    var i := uniques[order[n]];
    var t :| t in order[..n] && t in uniques && uniques[t] == i;
    m :| 0 <= m < n && order[m] == t;
  }

  lemma SweepStep(cs: seq<Constraint>, forbidden: set<Signal>, uniques: map<Signal, nat>, done: seq<Signal>, s: Signal,
                  taken: set<Signal>, rest: seq<Constraint>)
    requires ListsOwn(cs, forbidden, uniques) && |rest| == |cs| && Swept(cs, forbidden, uniques, done, taken, rest)
    requires s in uniques && (IsEmpty(rest[uniques[s]]) <==> !LeastOwn(cs, forbidden, uniques[s], s))
    ensures IsEmpty(rest[uniques[s]]) ==> Swept(cs, forbidden, uniques, done + [s], taken, rest)
    ensures !IsEmpty(rest[uniques[s]]) ==> Swept(cs, forbidden, uniques, done + [s], taken + {s}, rest[uniques[s] := EMPTY])
  {
    hide LeastOwn, Own;
    forall t | t in done
      ensures t in done + [s]
    {
    }
  }

  lemma SweptAll(cs: seq<Constraint>, forbidden: set<Signal>, uniques: map<Signal, nat>, order: seq<Signal>,
                 taken: set<Signal>, rest: seq<Constraint>)
    requires ListsOwn(cs, forbidden, uniques) && |rest| == |cs| && forall s :: s in order <==> s in uniques
    requires Swept(cs, forbidden, uniques, order, taken, rest)
    ensures OwnTaken(cs, forbidden, taken)
    ensures forall s :: s in taken ==> exists i: nat :: i < |cs| && LeastOwn(cs, forbidden, i, s)
  {
    forall i, s | 0 <= i < |cs| && LeastOwn(cs, forbidden, i, s)
      ensures s in taken
    {
      assert Own(cs, forbidden, i, s);
    }
  }

  /** The first phase: the signals that occur once, in ascending order. */
  method TakeUniques(signals: SignalDefinition4, info: SignalsInformation, constraints: seq<Constraint>,
                     ghost universe: set<Signal>, uniques: map<Signal, nat>, p: Prime)
    returns (substitutions: Pivots, rest: seq<Constraint>)
    requires CONSTANT in signals.forbidden && LinearSystem(constraints, p)
    requires Stage(signals, info, constraints, universe, map[], [], constraints, p)
    requires ListsOwn(constraints, signals.forbidden, uniques)
    modifies signals, info
    ensures Stage(signals, info, constraints, universe, substitutions, [], rest, p)
    ensures OwnTaken(constraints, signals.forbidden, substitutions.Keys)
    ensures forall s :: s in substitutions ==> exists i: nat :: i < |constraints| && LeastOwn(constraints, signals.forbidden, i, s)
  {
    hide Sweeping, Stage, ListsOwn, LeastOwn, OwnTaken, LinearSystem;
    substitutions, rest := map[], constraints;
    var order := Ascending.Sorted(uniques.Keys);
    SweepingStart(signals, info, constraints, universe, uniques, order, p);
    for n := 0 to |order|
      invariant Sweeping(signals, info, constraints, universe, uniques, order, n, substitutions, rest, p)
    {
      substitutions, rest := SweepOne(signals, info, constraints, universe, uniques, order, n, substitutions, rest, p);
    }
    SweepingEnd(signals, info, constraints, universe, uniques, order, substitutions, rest, p);
  }

  /** What the first phase keeps. */
  ghost predicate Sweeping(signals: SignalDefinition4, info: SignalsInformation, all: seq<Constraint>, universe: set<Signal>,
                           uniques: map<Signal, nat>, order: seq<Signal>, n: nat, substitutions: Pivots, rest: seq<Constraint>, p: Prime)
    reads signals, info
  {
    && Stage(signals, info, all, universe, substitutions, [], rest, p) && |rest| == |all| && NoneLeft(substitutions, rest)
    && ListsOwn(all, signals.forbidden, uniques) && n <= |order| && Ascending.Increasing(order) && ListsAll(order, uniques)
    && Swept(all, signals.forbidden, uniques, order[..n], substitutions.Keys, rest)
  }

  ghost predicate ListsAll(order: seq<Signal>, uniques: map<Signal, nat>) {
    forall s :: s in order <==> s in uniques
  }

  lemma SweepingStart(signals: SignalDefinition4, info: SignalsInformation, all: seq<Constraint>, universe: set<Signal>,
                      uniques: map<Signal, nat>, order: seq<Signal>, p: Prime)
    requires Stage(signals, info, all, universe, map[], [], all, p) && ListsOwn(all, signals.forbidden, uniques)
    requires Ascending.Increasing(order) && forall s :: s in order <==> s in uniques.Keys
    ensures Sweeping(signals, info, all, universe, uniques, order, 0, map[], all, p)
  {
    hide Stage, ListsOwn;
    SweepStart(all, signals.forbidden, uniques);
    var none: Pivots := map[];
    assert order[..0] == [] && none.Keys == {};
  }

  lemma SweepingEnd(signals: SignalDefinition4, info: SignalsInformation, all: seq<Constraint>, universe: set<Signal>,
                    uniques: map<Signal, nat>, order: seq<Signal>, substitutions: Pivots, rest: seq<Constraint>, p: Prime)
    requires Sweeping(signals, info, all, universe, uniques, order, |order|, substitutions, rest, p)
    ensures Stage(signals, info, all, universe, substitutions, [], rest, p)
    ensures OwnTaken(all, signals.forbidden, substitutions.Keys)
    ensures forall s :: s in substitutions ==> exists i: nat :: i < |all| && LeastOwn(all, signals.forbidden, i, s)
  {
    hide Stage, ListsOwn, Swept, LeastOwn, OwnTaken;
    assert order[..|order|] == order;
    SweptAll(all, signals.forbidden, uniques, order, substitutions.Keys, rest);
  }

  /** One signal of the table: its constraint is taken unless it has been taken already. */
  method SweepOne(signals: SignalDefinition4, info: SignalsInformation, ghost all: seq<Constraint>, ghost universe: set<Signal>,
                  uniques: map<Signal, nat>, order: seq<Signal>, n: nat, substitutions: Pivots, rest: seq<Constraint>, p: Prime)
    returns (substitutions': Pivots, rest': seq<Constraint>)
    requires CONSTANT in signals.forbidden && LinearSystem(all, p) && n < |order|
    requires Sweeping(signals, info, all, universe, uniques, order, n, substitutions, rest, p)
    modifies signals, info
    ensures Sweeping(signals, info, all, universe, uniques, order, n + 1, substitutions', rest', p)
  {
    hide Stage, LinearSystem, Own, LeastOwn, Swept, NoneLeft, ListsOwn;
    var signal := order[n];
    assert signal in order && order[..n + 1] == order[..n] + [signal];
    ListedIndex(all, signals.forbidden, uniques, signal);
    var index := uniques[signal];
    FirstMet(all, signals.forbidden, uniques, order, n, substitutions.Keys, rest);
    SweepStep(all, signals.forbidden, uniques, order[..n], signal, substitutions.Keys, rest);
    substitutions', rest' := substitutions, rest;
    if !IsEmpty(rest[index]) {
      UniqueThere(signals, info, all, universe, substitutions, rest, uniques, signal, p);
      substitutions', rest' := TakeUnique(signals, info, all, universe, substitutions, rest, signal, index, p);
    }
  }

  lemma ListedIndex(cs: seq<Constraint>, forbidden: set<Signal>, uniques: map<Signal, nat>, signal: Signal)
    requires ListsOwn(cs, forbidden, uniques) && signal in uniques
    ensures uniques[signal] < |cs|
  {
  }

  lemma UniqueThere(signals: SignalDefinition4, info: SignalsInformation, all: seq<Constraint>, universe: set<Signal>,
                    substitutions: Pivots, rest: seq<Constraint>, uniques: map<Signal, nat>, signal: Signal, p: Prime)
    requires Stage(signals, info, all, universe, substitutions, [], rest, p) && ListsOwn(all, signals.forbidden, uniques)
    requires signal in uniques && |rest| == |all| && !IsEmpty(rest[uniques[signal]])
    ensures signal in rest[uniques[signal]].c && signal !in signals.forbidden
    ensures forall j :: 0 <= j < |rest| && j != uniques[signal] ==> signal !in rest[j].c
  {
    hide Holds, Solves, LinearSystem, Progress, Universe, Sound, Tracks, Counted, Count, InStep;
    assert Own(all, signals.forbidden, uniques[signal], signal);
    UniqueRemains(all, rest, signal, uniques[signal]);
  }

  lemma SweepStart(cs: seq<Constraint>, forbidden: set<Signal>, uniques: map<Signal, nat>)
    requires ListsOwn(cs, forbidden, uniques)
    ensures Swept(cs, forbidden, uniques, [], {}, cs)
  {
  }
}
