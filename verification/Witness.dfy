/** Renumbering the signals that are kept: rebuild_witness in
    constraint_list/src/constraint_simplification.rs and get_witness_as_vec in
    constraint_list/src/lib.rs. */
module Witness {
  import opened Coefficients
  import opened SignalIndex

  type SignalMap = map<Signal, nat>

  /** How many of the first n signals are kept. */
  ghost function KeptBefore(deleted: set<Signal>, n: nat): nat {
    if n == 0 then 0 else KeptBefore(deleted, n - 1) + if n - 1 in deleted then 0 else 1
  }

  lemma {:induction false} KeptBeforeOther(deleted: set<Signal>, s: Signal, n: nat)
    requires n <= s
    ensures KeptBefore(deleted + {s}, n) == KeptBefore(deleted, n)
  {
    if n != 0 {
      KeptBeforeOther(deleted, s, n - 1);
    }
  }

  lemma {:induction false} KeptBeforeGrows(deleted: set<Signal>, m: nat, n: nat)
    requires m <= n
    ensures KeptBefore(deleted, m) <= KeptBefore(deleted, n)
    ensures m < n && m !in deleted ==> KeptBefore(deleted, m) < KeptBefore(deleted, n)
  {
    if m < n {
      KeptBeforeGrows(deleted, m, n - 1);
    }
  }

  /** Every number below the count belongs to a kept signal. */
  lemma {:induction false} KeptBeforeOnto(deleted: set<Signal>, n: nat, v: nat) returns (s: Signal)
    requires v < KeptBefore(deleted, n)
    ensures s < n && s !in deleted && KeptBefore(deleted, s) == v
  {
    if v < KeptBefore(deleted, n - 1) {
      s := KeptBeforeOnto(deleted, n - 1, v);
    } else {
      s := n - 1;
    }
  }

  /** The signals that the renumbering drops besides the deleted ones. */
  ghost function Unused(maxSignal: nat, deleted: set<Signal>, forbidden: set<Signal>, used: set<Signal>): set<Signal> {
    set s | 0 <= s < maxSignal && s !in deleted && s !in forbidden && s !in used
  }

  /** The kept signals, each numbered by the kept signals before it. */
  ghost predicate Renumbering(m: SignalMap, maxSignal: nat, deleted: set<Signal>) {
    && (forall s: Signal :: s in m <==> s < maxSignal && s !in deleted)
    && (forall s :: s in m ==> m[s] == KeptBefore(deleted, s))
  }

  /** After n signals: the free positions are those from the number of kept signals on. */
  ghost predicate Rebuilt(m: SignalMap, free: seq<nat>, n: nat, deleted: set<Signal>) {
    && KeptBefore(deleted, n) <= n && |free| == n - KeptBefore(deleted, n)
    && (forall i :: 0 <= i < |free| ==> free[i] == KeptBefore(deleted, n) + i)
    && Renumbering(m, n, deleted)
  }

  method RebuildWitness(maxSignal: nat, deleted: set<Signal>, forbidden: set<Signal>, nonLinearMap: Index, removeUnused: bool)
    returns (m: SignalMap, deleted': set<Signal>)
    ensures deleted' == deleted + if removeUnused then Unused(maxSignal, deleted, forbidden, nonLinearMap.Keys) else {}
    ensures Renumbering(m, maxSignal, deleted')
  {
    m, deleted' := map[], deleted;
    var free: seq<nat> := [];
    assert Unused(0, deleted, forbidden, nonLinearMap.Keys) == {};
    for signal := 0 to maxSignal
      invariant deleted' == deleted + if removeUnused then Unused(signal, deleted, forbidden, nonLinearMap.Keys) else {}
      invariant Rebuilt(m, free, signal, deleted')
    {
      hide Rebuilt, Unused;
      UnusedStep(signal, deleted, forbidden, nonLinearMap.Keys);
      if signal in deleted' {
        SignalSkipped(m, free, signal, deleted');
        free := free + [signal];
      } else if removeUnused && signal !in forbidden && signal !in nonLinearMap {
        SignalDropped(m, free, signal, deleted');
        deleted' := deleted' + {signal};
        free := free + [signal];
      } else if free != [] {
        SignalMoved(m, free, signal, deleted');
        var newPos := free[0];
        free := free[1..];
        m := m[signal := newPos];
        free := free + [signal];
      } else {
        SignalStays(m, free, signal, deleted');
        m := m[signal := signal];
      }
    }
  }

  /** One more signal is unused, or not; deleted signals are not counted. */
  lemma UnusedStep(n: nat, deleted: set<Signal>, forbidden: set<Signal>, used: set<Signal>)
    ensures Unused(n + 1, deleted, forbidden, used) == Unused(n, deleted, forbidden, used) +
      if n !in deleted && n !in forbidden && n !in used then {n} else {}
    ensures n !in Unused(n, deleted, forbidden, used)
  {
  }

  lemma KeptStep(deleted: set<Signal>, n: nat)
    ensures KeptBefore(deleted, n + 1) == KeptBefore(deleted, n) + if n in deleted then 0 else 1
  {
  }

  lemma SignalSkipped(m: SignalMap, free: seq<nat>, n: nat, deleted: set<Signal>)
    requires Rebuilt(m, free, n, deleted) && n in deleted
    ensures Rebuilt(m, free + [n], n + 1, deleted)
  {
    hide KeptBefore;
    KeptStep(deleted, n);
  }

  lemma SignalDropped(m: SignalMap, free: seq<nat>, n: nat, deleted: set<Signal>)
    requires Rebuilt(m, free, n, deleted)
    ensures Rebuilt(m, free + [n], n + 1, deleted + {n})
  {
    hide KeptBefore;
    StillRenumbering(m, n, deleted);
    assert Rebuilt(m, free, n, deleted + {n});
    SignalSkipped(m, free, n, deleted + {n});
  }

  lemma SignalMoved(m: SignalMap, free: seq<nat>, n: nat, deleted: set<Signal>)
    requires Rebuilt(m, free, n, deleted) && n !in deleted && free != []
    ensures Rebuilt(m[n := free[0]], free[1..] + [n], n + 1, deleted)
  {
    hide KeptBefore;
    KeptStep(deleted, n);
    var more := free[1..] + [n];
    assert forall i :: 0 <= i < |free| - 1 ==> more[i] == free[i + 1];
  }

  lemma SignalStays(m: SignalMap, free: seq<nat>, n: nat, deleted: set<Signal>)
    requires Rebuilt(m, free, n, deleted) && n !in deleted && free == []
    ensures Rebuilt(m[n := n], free, n + 1, deleted)
  {
    hide KeptBefore;
    KeptStep(deleted, n);
  }

  lemma StillRenumbering(m: SignalMap, n: nat, deleted: set<Signal>)
    requires Renumbering(m, n, deleted)
    ensures Renumbering(m, n, deleted + {n})
    ensures KeptBefore(deleted + {n}, n) == KeptBefore(deleted, n)
  {
    KeptBeforeOther(deleted, n, n);
    forall s | s in m
      ensures m[s] == KeptBefore(deleted + {n}, s)
    {
      KeptBeforeOther(deleted, n, s);
    }
  }

  /** The renumbering is an order-preserving bijection onto the numbers below its size. */
  lemma RenumberingBijective(m: SignalMap, maxSignal: nat, deleted: set<Signal>)
    requires Renumbering(m, maxSignal, deleted)
    ensures |m| == KeptBefore(deleted, maxSignal)
    ensures forall s, t :: s in m && t in m && s < t ==> m[s] < m[t]
    ensures forall s :: s in m ==> m[s] < |m|
    ensures forall v :: 0 <= v < |m| ==> v in m.Values
  {
    RenumberingSize(m, maxSignal, deleted);
    forall s, t | s in m && t in m && s < t
      ensures m[s] < m[t]
    {
      KeptBeforeGrows(deleted, s, t);
    }
    forall s | s in m
      ensures m[s] < |m|
    {
      KeptBeforeGrows(deleted, s, maxSignal);
    }
    forall v: nat | v < |m|
      ensures v in m.Values
    {
      var s := KeptBeforeOnto(deleted, maxSignal, v);
      assert m[s] == v;
    }
  }

  lemma RenumberingSize(m: SignalMap, maxSignal: nat, deleted: set<Signal>)
    requires Renumbering(m, maxSignal, deleted)
    ensures |m| == KeptBefore(deleted, maxSignal)
  {
    KeptSize(deleted, maxSignal);
    assert m.Keys == KeptUpTo(deleted, maxSignal);
  }

  ghost function KeptUpTo(deleted: set<Signal>, n: nat): set<Signal> {
    set s: Signal | s < n && s !in deleted
  }

  lemma {:induction false} KeptSize(deleted: set<Signal>, n: nat)
    ensures |KeptUpTo(deleted, n)| == KeptBefore(deleted, n)
  {
    if n == 0 {
      assert KeptUpTo(deleted, n) == {};
    } else {
      KeptSize(deleted, n - 1);
      assert KeptUpTo(deleted, n) == KeptUpTo(deleted, n - 1) + if n - 1 in deleted then {} else {n - 1};
    }
  }

  /** The inverse of the renumbering as a vector. */
  method GetWitnessAsVec(signalMap: SignalMap, ghost maxSignal: nat, ghost deleted: set<Signal>) returns (vector: seq<Signal>)
    requires Renumbering(signalMap, maxSignal, deleted)
    ensures |vector| == |signalMap|
    ensures forall s :: s in signalMap ==> signalMap[s] < |vector| && vector[signalMap[s]] == s
    ensures forall v :: 0 <= v < |vector| ==> vector[v] in signalMap && signalMap[vector[v]] == v
  {
    RenumberingBijective(signalMap, maxSignal, deleted);
    vector := seq(|signalMap|, _ => 0);
    var rest := signalMap.Keys;
    while rest != {}
      invariant rest <= signalMap.Keys
      invariant |vector| == |signalMap|
      invariant forall s :: s in signalMap.Keys - rest ==> vector[signalMap[s]] == s
    {
      var key :| key in rest;
      vector := vector[signalMap[key] := key];
      rest := rest - {key};
    }
    forall v: nat | v < |vector|
      ensures vector[v] in signalMap && signalMap[vector[v]] == v
    {
      assert v in signalMap.Values;
      var s :| s in signalMap && signalMap[s] == v;
    }
  }
}
