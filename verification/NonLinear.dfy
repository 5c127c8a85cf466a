/** The non-linear constraints of all components and the three substitution frames:
    constraint_list/src/non_linear_utils.rs and build_relevant_set. */
module NonLinear {
  import opened Field
  import opened Coefficients
  import opened Constraints
  import opened Elimination
  import opened Clusters
  import opened Stages
  import opened Frames
  import opened Storage

  /** A component with its non-linear constraints and its subcomponents. */
  datatype Encoding = Node(nonLinear: seq<Constraint>, edges: seq<Encoding>)

  ghost function Flatten(e: Encoding): seq<Constraint>
    decreases e, 1
  {
    e.nonLinear + FlattenEdges(e.edges)
  }

  ghost function FlattenEdges(es: seq<Encoding>): seq<Constraint>
    decreases es, 0
  {
    if es == [] then [] else FlattenEdges(es[..|es| - 1]) + Flatten(es[|es| - 1])
  }

  // ----- relevant signals

  function Unwrapped(renames: Encoded, signal: Signal): Signal {
    if signal in renames && renames[signal].Sig? then renames[signal].symbol else signal
  }

  /** The signals as they appear after renaming, without the deleted ones. */
  ghost function Relevant(signals: set<Signal>, renames: Encoded, deletes: Encoded): set<Signal> {
    set s | s in signals && Unwrapped(renames, s) !in deletes :: Unwrapped(renames, s)
  }

  lemma RelevantUnion(s: set<Signal>, t: set<Signal>, renames: Encoded, deletes: Encoded)
    ensures Relevant(s + t, renames, deletes) == Relevant(s, renames, deletes) + Relevant(t, renames, deletes)
  {
    forall k
      ensures k in Relevant(s + t, renames, deletes) <==>
              k in Relevant(s, renames, deletes) + Relevant(t, renames, deletes)
    {
      if k in Relevant(s, renames, deletes) {
        var x :| x in s && Unwrapped(renames, x) !in deletes && k == Unwrapped(renames, x);
        assert x in s + t;
      }
      if k in Relevant(t, renames, deletes) {
        var x :| x in t && Unwrapped(renames, x) !in deletes && k == Unwrapped(renames, x);
        assert x in s + t;
      }
    }
  }

  lemma SignalsOfAllConcat(cs: seq<Constraint>, ds: seq<Constraint>)
    ensures SignalsOfAll(cs + ds) == SignalsOfAll(cs) + SignalsOfAll(ds)
  {
    hide SignalsOf;
    var es := cs + ds;
    forall s
      ensures s in SignalsOfAll(es) <==> s in SignalsOfAll(cs) + SignalsOfAll(ds)
    {
      if s in SignalsOfAll(cs) {
        var i :| 0 <= i < |cs| && s in SignalsOf(cs[i]);
        assert s in SignalsOf(es[i]);
      }
      if s in SignalsOfAll(ds) {
        var i :| 0 <= i < |ds| && s in SignalsOf(ds[i]);
        assert s in SignalsOf(es[|cs| + i]);
      }
    }
  }

  method BuildRelevantSet(e: Encoding, relevant: set<Signal>, renames: Encoded, deletes: Encoded) returns (r: set<Signal>)
    ensures r == relevant + Relevant(SignalsOfAll(Flatten(e)), renames, deletes)
    decreases e
  {
    hide Relevant, SignalsOfAll;
    r := relevant;
    RelevantNone(renames, deletes);
    for i := 0 to |e.nonLinear|
      invariant r == relevant + Relevant(SignalsOfAll(e.nonLinear[..i]), renames, deletes)
    {
      assert e.nonLinear[..i + 1] == e.nonLinear[..i] + [e.nonLinear[i]];
      SignalsOfAllConcat(e.nonLinear[..i], [e.nonLinear[i]]);
      SignalsOfAllOne(e.nonLinear[i]);
      RelevantUnion(SignalsOfAll(e.nonLinear[..i]), SignalsOf(e.nonLinear[i]), renames, deletes);
      r := AddRelevant(SignalsOf(e.nonLinear[i]), r, renames, deletes);
    }
    assert e.nonLinear[..|e.nonLinear|] == e.nonLinear;
    ghost var own := SignalsOfAll(e.nonLinear);
    assert FlattenEdges(e.edges[..0]) == [] && own + {} == own;
    for i := 0 to |e.edges|
      invariant r == relevant + Relevant(own + SignalsOfAll(FlattenEdges(e.edges[..i])), renames, deletes)
    {
      assert e.edges[..i + 1][..i] == e.edges[..i];
      SignalsOfAllConcat(FlattenEdges(e.edges[..i]), Flatten(e.edges[i]));
      RelevantUnion(own + SignalsOfAll(FlattenEdges(e.edges[..i])), SignalsOfAll(Flatten(e.edges[i])), renames, deletes);
      assert own + SignalsOfAll(FlattenEdges(e.edges[..i])) + SignalsOfAll(Flatten(e.edges[i]))
          == own + SignalsOfAll(FlattenEdges(e.edges[..i + 1]));
      r := BuildRelevantSet(e.edges[i], r, renames, deletes);
    }
    assert e.edges[..|e.edges|] == e.edges;
    SignalsOfAllConcat(e.nonLinear, FlattenEdges(e.edges));
  }

  lemma RelevantNone(renames: Encoded, deletes: Encoded)
    ensures SignalsOfAll([]) == {} && Relevant({}, renames, deletes) == {}
  {
  }

  lemma SignalsOfAllOne(c: Constraint)
    ensures SignalsOfAll([c]) == SignalsOf(c)
  {
    assert [c][0] == c;
  }

  /** The inner loop, over the signals of one constraint. */
  method AddRelevant(signals: set<Signal>, relevant: set<Signal>, renames: Encoded, deletes: Encoded) returns (r: set<Signal>)
    ensures r == relevant + Relevant(signals, renames, deletes)
  {
    r := relevant;
    var rest := signals;
    while rest != {}
      invariant rest <= signals
      invariant r == relevant + Relevant(signals - rest, renames, deletes)
    {
      var s :| s in rest;
      var signal := Unwrapped(renames, s);
      assert signals - (rest - {s}) == signals - rest + {s};
      RelevantUnion(signals - rest, {s}, renames, deletes);
      if signal !in deletes {
        r := r + {signal};
      }
      rest := rest - {s};
    }
    assert signals - rest == signals;
  }

  // ----- frames applied in turn

  ghost predicate ObeysFrames(w: Assignment, frames: seq<Encoded>, p: Prime) {
    forall i :: 0 <= i < |frames| ==> ObeysFrame(w, frames[i], p)
  }

  ghost predicate GoodFrames(frames: seq<Encoded>, p: Prime) {
    forall i :: 0 <= i < |frames| ==> GoodFrame(frames[i], p)
  }

  /** The signals that may be left of a set once all frames have been applied. */
  ghost function Reached(frames: seq<Encoded>, signals: set<Signal>): set<Signal> {
    if frames == [] then signals
    else
      var last := |frames| - 1;
      var before := Reached(frames[..last], signals);
      before + Targets(frames[last], before) - frames[last].Keys
  }

  lemma {:induction false} ReachedMonotone(frames: seq<Encoded>, s: set<Signal>, t: set<Signal>)
    requires s <= t
    ensures Reached(frames, s) <= Reached(frames, t)
  {
    if frames != [] {
      var last := |frames| - 1;
      ReachedMonotone(frames[..last], s, t);
      TargetsMonotone(frames[last], Reached(frames[..last], s), Reached(frames[..last], t));
    }
  }

  lemma TargetsMonotone(enc: Encoded, s: set<Signal>, t: set<Signal>)
    requires s <= t
    ensures Targets(enc, s) <= Targets(enc, t)
  {
  }

  method ApplyFrames(constraint: Constraint, frames: seq<Encoded>, p: Prime) returns (c: Constraint)
    requires GoodFrames(frames, p) && ReducedConstraint(constraint, p)
    ensures CanonicalConstraint(c, p)
    ensures forall w: Assignment :: ObeysFrames(w, frames, p) ==> (Holds(c, w, p) <==> Holds(constraint, w, p))
    ensures SignalsOf(c) <= Reached(frames, SignalsOf(constraint))
  {
    hide GoodFrame, ObeysFrame, Holds, ReducedConstraint, SignalsOf, Targets, CanonicalConstraint;
    c := constraint;
    for i := 0 to |frames|
      invariant ReducedConstraint(c, p)
      invariant forall w: Assignment :: ObeysFrames(w, frames, p) ==> (Holds(c, w, p) <==> Holds(constraint, w, p))
      invariant SignalsOf(c) <= Reached(frames[..i], SignalsOf(constraint))
    {
      assert frames[..i + 1][..i] == frames[..i];
      TargetsMonotone(frames[i], SignalsOf(c), Reached(frames[..i], SignalsOf(constraint)));
      var next, _ := FastEncodedConstraintSubstitution(c, frames[i], p);
      c := next;
    }
    assert frames[..|frames|] == frames;
    FixCanonical(c, p);
    FixSignals(c, p);
    FixedHolds(c, p);
    c := Fix(c, p);
  }

  /** A list of constraints divided into a stored and a linear part. */
  ghost predicate Divided(all: seq<Constraint>, stored: seq<Constraint>, linear: seq<Constraint>,
                          frames: seq<Encoded>, signals: set<Signal>, p: Prime)
  {
    && (forall w: Assignment :: ObeysFrames(w, frames, p) ==>
        (AllHold(all, w, p) <==> AllHold(stored, w, p) && AllHold(linear, w, p)))
    && LinearSystem(linear, p)
    && (forall i :: 0 <= i < |stored| ==> CanonicalConstraint(stored[i], p) && !IsLinear(stored[i]))
    && SignalsOfAll(stored) <= signals && SignalsOfAll(linear) <= signals
  }

  lemma DividedConcat(all: seq<Constraint>, stored: seq<Constraint>, linear: seq<Constraint>,
                      all': seq<Constraint>, stored': seq<Constraint>, linear': seq<Constraint>,
                      frames: seq<Encoded>, signals: set<Signal>, p: Prime)
    requires Divided(all, stored, linear, frames, signals, p)
    requires Divided(all', stored', linear', frames, signals, p)
    ensures Divided(all + all', stored + stored', linear + linear', frames, signals, p)
  {
    hide AllHold, ObeysFrames, LinearConstraint, CanonicalConstraint, SignalsOfAll;
    SignalsOfAllConcat(stored, stored');
    SignalsOfAllConcat(linear, linear');
    forall w: Assignment | ObeysFrames(w, frames, p)
      ensures AllHold(all + all', w, p) <==> AllHold(stored + stored', w, p) && AllHold(linear + linear', w, p)
    {
      AllHoldConcat(all, all', w, p);
      AllHoldConcat(stored, stored', w, p);
      AllHoldConcat(linear, linear', w, p);
    }
  }

  lemma DividedOne(c: Constraint, r: Constraint, frames: seq<Encoded>, signals: set<Signal>, p: Prime)
    requires CanonicalConstraint(r, p) && SignalsOf(r) <= signals
    requires forall w: Assignment :: ObeysFrames(w, frames, p) ==> (Holds(r, w, p) <==> Holds(c, w, p))
    ensures IsLinear(r) ==> Divided([c], [], [r], frames, signals, p)
    ensures !IsLinear(r) ==> Divided([c], [r], [], frames, signals, p)
  {
    SignalsOfAllOne(r);
    assert SignalsOfAll([]) == {};
    assert [r][0] == r && [c][0] == c;
    hide SignalsOfAll, SignalsOf, Canonical, ObeysFrames;
    forall w: Assignment
      ensures AllHold([c], w, p) <==> Holds(c, w, p)
      ensures AllHold([r], w, p) <==> Holds(r, w, p)
      ensures AllHold([], w, p)
    {
    }
  }

  method ObtainAndSimplifyNonLinear(e: Encoding, storage: ConstraintStorage, frames: seq<Encoded>, ghost signals: set<Signal>, p: Prime)
    returns (linear: seq<Constraint>, ghost stored: seq<Constraint>)
    requires GoodFrames(frames, p)
    requires forall i :: 0 <= i < |Flatten(e)| ==> ReducedConstraint(Flatten(e)[i], p)
    requires Reached(frames, SignalsOfAll(Flatten(e))) <= signals
    modifies storage
    ensures storage.constraints == old(storage.constraints) + stored
    ensures Divided(Flatten(e), stored, linear, frames, signals, p)
    decreases e
  {
    hide *;
    linear, stored := [], [];
    DividedNone(frames, signals, p);
    for i := 0 to |e.nonLinear|
      invariant storage.constraints == old(storage.constraints) + stored
      invariant Divided(e.nonLinear[..i], stored, linear, frames, signals, p)
    {
      OwnPart(e, i, frames, signals, p);
      var constraint := ApplyFrames(e.nonLinear[i], frames, p);
      DividedOne(e.nonLinear[i], constraint, frames, signals, p);
      DividedNext(e.nonLinear, i, constraint, stored, linear, frames, signals, p);
      if IsLinear(constraint) {
        linear := linear + [constraint];
      } else {
        var _ := storage.AddConstraint(constraint);
        stored := stored + [constraint];
      }
    }
    NoEdges(e);
    for i := 0 to |e.edges|
      invariant storage.constraints == old(storage.constraints) + stored
      invariant Divided(e.nonLinear + FlattenEdges(e.edges[..i]), stored, linear, frames, signals, p)
    {
      OwnEdge(e, i, frames, signals, p);
      ghost var before := e.nonLinear + FlattenEdges(e.edges[..i]);
      var linearInNext;
      ghost var storedInNext;
      linearInNext, storedInNext := ObtainAndSimplifyNonLinear(e.edges[i], storage, frames, signals, p);
      DividedConcat(before, stored, linear, Flatten(e.edges[i]), storedInNext, linearInNext, frames, signals, p);
      MoreEdges(e, i);
      linear, stored := linear + linearInNext, stored + storedInNext;
    }
    AllEdges(e);
  }

  lemma OwnPart(e: Encoding, i: nat, frames: seq<Encoded>, signals: set<Signal>, p: Prime)
    requires i < |e.nonLinear| && Reached(frames, SignalsOfAll(Flatten(e))) <= signals
    requires forall j :: 0 <= j < |Flatten(e)| ==> ReducedConstraint(Flatten(e)[j], p)
    ensures ReducedConstraint(e.nonLinear[i], p) && Reached(frames, SignalsOf(e.nonLinear[i])) <= signals
  {
    hide ReducedConstraint, Reached, SignalsOf;
    assert e.nonLinear[i] == Flatten(e)[i];
    PartReached(Flatten(e), [e.nonLinear[i]], frames, signals);
    SignalsOfAllOne(e.nonLinear[i]);
  }

  lemma OwnEdge(e: Encoding, i: nat, frames: seq<Encoded>, signals: set<Signal>, p: Prime)
    requires i < |e.edges| && Reached(frames, SignalsOfAll(Flatten(e))) <= signals
    requires forall j :: 0 <= j < |Flatten(e)| ==> ReducedConstraint(Flatten(e)[j], p)
    ensures Reached(frames, SignalsOfAll(Flatten(e.edges[i]))) <= signals
    ensures forall j :: 0 <= j < |Flatten(e.edges[i])| ==> ReducedConstraint(Flatten(e.edges[i])[j], p)
  {
    hide ReducedConstraint, Reached, SignalsOfAll, Flatten;
    EdgePart(e, i);
    PartReached(Flatten(e), Flatten(e.edges[i]), frames, signals);
  }

  lemma NoEdges(e: Encoding)
    ensures e.nonLinear[..|e.nonLinear|] == e.nonLinear + FlattenEdges(e.edges[..0])
  {
  }

  lemma MoreEdges(e: Encoding, i: nat)
    requires i < |e.edges|
    ensures e.nonLinear + FlattenEdges(e.edges[..i + 1]) == e.nonLinear + FlattenEdges(e.edges[..i]) + Flatten(e.edges[i])
  {
    hide Flatten;
    assert e.edges[..i + 1][..i] == e.edges[..i];
  }

  lemma AllEdges(e: Encoding)
    ensures e.nonLinear + FlattenEdges(e.edges[..|e.edges|]) == Flatten(e)
  {
    assert e.edges[..|e.edges|] == e.edges;
  }

  lemma DividedNext(all: seq<Constraint>, i: nat, c: Constraint, stored: seq<Constraint>, linear: seq<Constraint>,
                    frames: seq<Encoded>, signals: set<Signal>, p: Prime)
    requires i < |all| && Divided(all[..i], stored, linear, frames, signals, p)
    requires IsLinear(c) ==> Divided([all[i]], [], [c], frames, signals, p)
    requires !IsLinear(c) ==> Divided([all[i]], [c], [], frames, signals, p)
    ensures IsLinear(c) ==> Divided(all[..i + 1], stored, linear + [c], frames, signals, p)
    ensures !IsLinear(c) ==> Divided(all[..i + 1], stored + [c], linear, frames, signals, p)
  {
    hide Divided, IsLinear;
    assert all[..i + 1] == all[..i] + [all[i]];
    if IsLinear(c) {
      DividedConcat(all[..i], stored, linear, [all[i]], [], [c], frames, signals, p);
      assert stored + [] == stored;
    } else {
      DividedConcat(all[..i], stored, linear, [all[i]], [c], [], frames, signals, p);
      assert linear + [] == linear;
    }
  }

  lemma DividedNone(frames: seq<Encoded>, signals: set<Signal>, p: Prime)
    ensures Divided([], [], [], frames, signals, p)
  {
  }

  lemma PartReached(all: seq<Constraint>, part: seq<Constraint>, frames: seq<Encoded>, signals: set<Signal>)
    requires forall i :: 0 <= i < |part| ==> part[i] in all
    requires Reached(frames, SignalsOfAll(all)) <= signals
    ensures Reached(frames, SignalsOfAll(part)) <= signals
  {
    hide SignalsOf, Reached;
    forall s | s in SignalsOfAll(part)
      ensures s in SignalsOfAll(all)
    {
      var i :| 0 <= i < |part| && s in SignalsOf(part[i]);
      assert part[i] in all;
      var j :| 0 <= j < |all| && all[j] == part[i];
    }
    ReachedMonotone(frames, SignalsOfAll(part), SignalsOfAll(all));
  }

  lemma EdgePart(e: Encoding, i: nat)
    requires i < |e.edges|
    ensures forall j :: 0 <= j < |Flatten(e.edges[i])| ==> Flatten(e.edges[i])[j] in Flatten(e)
  {
    EdgesPart(e.edges, i);
    forall j | 0 <= j < |Flatten(e.edges[i])|
      ensures Flatten(e.edges[i])[j] in Flatten(e)
    {
      assert Flatten(e.edges[i])[j] in FlattenEdges(e.edges);
      var k :| 0 <= k < |FlattenEdges(e.edges)| && FlattenEdges(e.edges)[k] == Flatten(e.edges[i])[j];
      assert Flatten(e)[|e.nonLinear| + k] == Flatten(e.edges[i])[j];
    }
  }

  lemma {:induction false} EdgesPart(es: seq<Encoding>, i: nat)
    requires i < |es|
    ensures forall j :: 0 <= j < |Flatten(es[i])| ==> Flatten(es[i])[j] in FlattenEdges(es)
  {
    var last := |es| - 1;
    if i < last {
      EdgesPart(es[..last], i);
      assert es[..last][i] == es[i];
    }
  }
}
