/** How many constraints of a system mention a signal, and the table that keeps
    these counts: SignalsInformation in circom_algebra/src/simplification_utils.rs. */
module Occurrences {
  import opened Wrappers
  import opened Coefficients
  import opened Constraints

  class SignalDefinition4 {
    var deletedSymbols: set<Signal>
    const forbidden: set<Signal>
    var orderSignals: seq<Signal>  // the last eliminated comes first

    constructor (forbidden: set<Signal>)
      ensures this.forbidden == forbidden && deletedSymbols == {} && orderSignals == []
    {
      this.forbidden := forbidden;
      deletedSymbols := {};
      orderSignals := [];
    }

    predicate CanBeTaken(k: Signal) {
      k !in forbidden
    }

    predicate IsDeleted(k: Signal)
      reads this
    {
      k in deletedSymbols
    }

    method Delete(k: Signal)
      modifies this
      ensures deletedSymbols == old(deletedSymbols) + {k}
      ensures orderSignals == [k] + old(orderSignals)
    {
      deletedSymbols := deletedSymbols + {k};
      orderSignals := [k] + orderSignals;
    }
  }

  /** The number of constraints whose linear part mentions k. */
  ghost function Count(cs: seq<Constraint>, k: Signal): nat {
    if cs == [] then 0
    else
      var last := |cs| - 1;
      Count(cs[..last], k) + if k in cs[last].c then 1 else 0
  }

  /** The table agrees with the constraints still to be treated. */
  ghost predicate Tracks(occurrences: map<Signal, nat>, cs: seq<Constraint>) {
    forall k :: k in occurrences ==> occurrences[k] == Count(cs, k)
  }

  lemma {:induction false} CountZero(cs: seq<Constraint>, k: Signal)
    ensures Count(cs, k) == 0 <==> forall i :: 0 <= i < |cs| ==> k !in cs[i].c
  {
    if cs != [] {
      var last := |cs| - 1;
      CountZero(cs[..last], k);
      if Count(cs, k) == 0 {
        forall i | 0 <= i < |cs|
          ensures k !in cs[i].c
        {
          assert i < last ==> cs[..last][i] == cs[i];
        }
      }
      if forall i :: 0 <= i < |cs| ==> k !in cs[i].c {
        assert forall i :: 0 <= i < last ==> cs[..last][i] == cs[i];
      }
    }
  }

  /** Emptying one constraint lowers the counts of exactly its signals by one. */
  lemma {:induction false} CountEmptied(cs: seq<Constraint>, i: nat, k: Signal)
    requires i < |cs|
    ensures Count(cs[i := EMPTY], k) == Count(cs, k) - if k in cs[i].c then 1 else 0
  {
    var last := |cs| - 1;
    var ds := cs[i := EMPTY];
    if i == last {
      assert ds[..last] == cs[..last];
    } else {
      assert ds[..last] == cs[..last][i := EMPTY];
      CountEmptied(cs[..last], i, k);
    }
  }

  /** A signal counted once occurs in one constraint only. */
  lemma CountOne(cs: seq<Constraint>, i: nat, k: Signal)
    requires i < |cs| && k in cs[i].c && Count(cs, k) == 1
    ensures forall j :: 0 <= j < |cs| && j != i ==> k !in cs[j].c
  {
    var ds := cs[i := EMPTY];
    CountEmptied(cs, i, k);
    CountZero(ds, k);
    assert forall j :: 0 <= j < |cs| && j != i ==> ds[j] == cs[j];
  }

  /** The signals a system mentions. */
  ghost function Mentioned(cs: seq<Constraint>): set<Signal> {
    if cs == [] then {}
    else
      var last := |cs| - 1;
      Mentioned(cs[..last]) + cs[last].c.Keys
  }

  lemma {:induction false} MentionedIn(cs: seq<Constraint>, i: nat)
    requires i < |cs|
    ensures cs[i].c.Keys <= Mentioned(cs)
  {
    var last := |cs| - 1;
    if i < last {
      MentionedIn(cs[..last], i);
      assert cs[..last][i] == cs[i];
    }
  }

  lemma {:induction false} MentionedCount(cs: seq<Constraint>, k: Signal)
    ensures k in Mentioned(cs) <==> Count(cs, k) > 0
  {
    if cs != [] {
      MentionedCount(cs[..|cs| - 1], k);
    }
  }

  /** Counting one more constraint keeps the table in step. */
  lemma CountNext(cs: seq<Constraint>, pos: nat, occurrences: map<Signal, nat>, occurrences': map<Signal, nat>)
    requires pos < |cs| && Tracks(occurrences, cs[..pos])
    requires forall k :: k in occurrences' ==>
      && (k in cs[pos].c || k in occurrences)
      && occurrences'[k] == (if k in occurrences then occurrences[k] else 0) + (if k in cs[pos].c then 1 else 0)
      && (k !in occurrences ==> k !in Mentioned(cs[..pos]))
    ensures Tracks(occurrences', cs[..pos + 1])
    ensures Mentioned(cs[..pos + 1]) == Mentioned(cs[..pos]) + cs[pos].c.Keys
  {
    assert cs[..pos + 1][..pos] == cs[..pos];
    forall k | k in occurrences'
      ensures occurrences'[k] == Count(cs[..pos + 1], k)
    {
      MentionedCount(cs[..pos], k);
    }
  }

  class SignalsInformation {
    var signalToOccurrences: map<Signal, nat>

    constructor ()
      ensures signalToOccurrences == map[]
    {
      signalToOccurrences := map[];
    }

    /** The counts of the takeable signals of a system, and for every signal that
        is counted once the constraint that mentions it. */
    static method New(constraints: seq<Constraint>, signals: SignalDefinition4)
      returns (info: SignalsInformation, uniques: map<Signal, nat>)
      ensures fresh(info)
      ensures Tracks(info.signalToOccurrences, constraints)
      ensures info.signalToOccurrences.Keys == Mentioned(constraints) - signals.forbidden
      ensures forall k :: k in uniques <==> k in info.signalToOccurrences && Count(constraints, k) == 1
      ensures forall k :: k in uniques ==> uniques[k] < |constraints| && k in constraints[uniques[k]].c
    {
      var occurrences: map<Signal, nat>, rep: map<Signal, nat> := map[], map[];
      for pos := 0 to |constraints|
        invariant Tracks(occurrences, constraints[..pos])
        invariant rep.Keys == occurrences.Keys == Mentioned(constraints[..pos]) - signals.forbidden
        invariant forall k :: k in rep ==> rep[k] < pos && k in constraints[rep[k]].c
      {
        var occurrences', rep' := AddConstraint(constraints[pos], pos, signals, occurrences, rep);
        CountNext(constraints, pos, occurrences, occurrences');
        occurrences, rep := occurrences', rep';
      }
      assert constraints[..|constraints|] == constraints;
      uniques := Uniques(occurrences, rep);
      info := new SignalsInformation();
      info.signalToOccurrences := occurrences;
    }

    /** The signals counted once, each with the constraint that mentions it. */
    static method Uniques(occurrences: map<Signal, nat>, rep: map<Signal, nat>) returns (uniques: map<Signal, nat>)
      requires rep.Keys == occurrences.Keys
      ensures forall k :: k in uniques <==> k in occurrences && occurrences[k] == 1
      ensures forall k :: k in uniques ==> uniques[k] == rep[k]
    {
      uniques := map[];
      var rest := occurrences.Keys;
      while rest != {}
        invariant rest <= occurrences.Keys
        invariant forall k :: k in uniques <==> k in occurrences.Keys - rest && occurrences[k] == 1
        invariant forall k :: k in uniques ==> uniques[k] == rep[k]
      {
        var k :| k in rest;
        if occurrences[k] == 1 {
          uniques := uniques[k := rep[k]];
        }
        rest := rest - {k};
      }
    }

    /** The inner loop of New: one more constraint is counted. */
    static method AddConstraint(constraint: Constraint, pos: nat, signals: SignalDefinition4,
                                occurrences: map<Signal, nat>, rep: map<Signal, nat>)
      returns (occurrences': map<Signal, nat>, rep': map<Signal, nat>)
      requires rep.Keys == occurrences.Keys
      ensures rep'.Keys == occurrences'.Keys == occurrences.Keys + (constraint.c.Keys - signals.forbidden)
      ensures forall k :: k in occurrences' ==>
        && occurrences'[k] == (if k in occurrences then occurrences[k] else 0)
                            + (if k in constraint.c && k !in signals.forbidden then 1 else 0)
        && rep'[k] == if k in rep then rep[k] else pos
    {
      occurrences', rep' := occurrences, rep;
      var rest := constraint.c.Keys;
      while rest != {}
        invariant rest <= constraint.c.Keys
        invariant rep'.Keys == occurrences'.Keys == occurrences.Keys + (constraint.c.Keys - rest - signals.forbidden)
        invariant forall k :: k in occurrences' ==>
          && occurrences'[k] == (if k in occurrences then occurrences[k] else 0)
                              + (if k in constraint.c.Keys - rest && k !in signals.forbidden then 1 else 0)
          && rep'[k] == if k in rep then rep[k] else pos
      {
        var k :| k in rest;
        if signals.CanBeTaken(k) {
          if k in occurrences' {
            occurrences' := occurrences'[k := occurrences'[k] + 1];
          } else {
            occurrences' := occurrences'[k := 1];
            rep' := rep'[k := pos];
          }
        }
        rest := rest - {k};
      }
    }

    /** A constraint is taken out of the system; no count falls below zero. */
    method RemoveConstraint(constraint: Constraint, signals: SignalDefinition4)
      requires forall k :: k in constraint.c && k in signalToOccurrences ==> signalToOccurrences[k] > 0
      modifies this
      ensures signalToOccurrences.Keys == old(signalToOccurrences.Keys)
      ensures forall k :: k in signalToOccurrences ==>
        signalToOccurrences[k] ==
        old(signalToOccurrences[k]) - if k in constraint.c && k !in signals.forbidden then 1 else 0
    {
      var rest := constraint.c.Keys;
      while rest != {}
        invariant rest <= constraint.c.Keys
        invariant signalToOccurrences.Keys == old(signalToOccurrences.Keys)
        invariant forall k :: k in signalToOccurrences ==>
          signalToOccurrences[k] ==
          old(signalToOccurrences[k]) - if k in constraint.c.Keys - rest && k !in signals.forbidden then 1 else 0
      {
        var k :| k in rest;
        if signals.CanBeTaken(k) && k in signalToOccurrences {
          signalToOccurrences := signalToOccurrences[k := signalToOccurrences[k] - 1];
        }
        rest := rest - {k};
      }
    }

    method RemoveSignal(signal: Signal)
      modifies this
      ensures signalToOccurrences == old(signalToOccurrences) - {signal}
    {
      signalToOccurrences := signalToOccurrences - {signal};
    }
  }

  /** `k` beats `j` as a pivot: fewer occurrences, the larger signal on a tie. */
  ghost predicate Preferred(occurrences: map<Signal, nat>, k: Signal, j: Signal)
    requires k in occurrences && j in occurrences
  {
    occurrences[k] < occurrences[j] || (occurrences[k] == occurrences[j] && j <= k)
  }

  /** A deleted signal if there is one, otherwise the takeable signal that occurs least. */
  method TakeSignal4(signals: SignalDefinition4, info: SignalsInformation, constraint: Constraint)
    returns (ret: Option<Signal>)
    requires forall k :: k in constraint.c && k !in signals.forbidden && k !in signals.deletedSymbols ==>
      k in info.signalToOccurrences
    ensures ret.None? <==> constraint.c.Keys <= signals.forbidden
    ensures ret.Some? ==> ret.value in constraint.c && ret.value !in signals.forbidden
    ensures ret.Some? && ret.value !in signals.deletedSymbols ==>
      forall k :: k in constraint.c && k !in signals.forbidden ==>
        k !in signals.deletedSymbols && Preferred(info.signalToOccurrences, ret.value, k)
  {
    ret := None;
    var least := 0;
    var rest := constraint.c.Keys;
    while rest != {}
      invariant rest <= constraint.c.Keys
      invariant ret.None? <==> constraint.c.Keys - rest <= signals.forbidden
      invariant ret.Some? ==> ret.value in constraint.c && ret.value !in signals.forbidden
      invariant ret.Some? ==> ret.value !in signals.deletedSymbols && least == info.signalToOccurrences[ret.value]
      invariant ret.Some? ==> forall k :: k in constraint.c.Keys - rest && k !in signals.forbidden ==>
        k !in signals.deletedSymbols && Preferred(info.signalToOccurrences, ret.value, k)
    {
      var k :| k in rest;
      rest := rest - {k};
      if signals.CanBeTaken(k) {
        if signals.IsDeleted(k) {
          return Some(k);
        }
        var occurrences := info.signalToOccurrences[k];
        if ret.None? || occurrences < least {
          ret, least := Some(k), occurrences;
        } else if occurrences == least && ret.value < k {
          ret := Some(k);
        }
      }
    }
  }
}
