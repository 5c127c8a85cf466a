/** The index from signals to stored constraints and the substitution pass over it:
    build_non_linear_signal_map and apply_substitution_to_map in
    constraint_list/src/constraint_simplification.rs. */
module SignalIndex {
  import opened Field
  import opened Coefficients
  import opened Constraints
  import opened Elimination
  import opened BackSubstitution
  import opened Clusters
  import opened Stages
  import opened Frames
  import opened Storage

  type Index = map<Signal, seq<nat>>

  /** Every signal of a stored constraint lists that constraint. */
  ghost predicate Complete(cs: seq<Constraint>, index: Index) {
    forall id: nat, s: Signal :: 0 <= id < |cs| && s in SignalsOf(cs[id]) ==> s in index && id in index[s]
  }

  /** Every list has an entry, and all entries are below n. */
  ghost predicate ValidIds(index: Index, n: nat) {
    && (forall s :: s in index ==> index[s] != [])
    && forall s: Signal, id: nat :: s in index && id in index[s] ==> id < n
  }

  function Push(index: Index, s: Signal, id: nat): Index {
    index[s := (if s in index then index[s] else []) + [id]]
  }

  /** One id is listed under every signal of a set, in any order. */
  method PushAll(index: Index, signals: set<Signal>, id: nat) returns (r: Index)
    ensures r.Keys == index.Keys + signals
    ensures forall s :: s in r ==> r[s] == (if s in index then index[s] else []) + (if s in signals then [id] else [])
  {
    r := index;
    var rest := signals;
    while rest != {}
      invariant rest <= signals
      invariant r.Keys == index.Keys + (signals - rest)
      invariant forall s :: s in r ==>
        r[s] == (if s in index then index[s] else []) + (if s in signals - rest then [id] else [])
    {
      var s :| s in rest;
      r := Push(r, s, id);
      rest := rest - {s};
    }
  }

  /** More listed ids never hurt. */
  ghost predicate Extends(index: Index, r: Index, signals: set<Signal>, id: nat) {
    && r.Keys == index.Keys + signals
    && (forall s :: s in index ==> s in r)
    && (forall s: Signal, k: nat :: s in index && k in index[s] ==> k in r[s])
    && (forall s :: s in signals ==> s in r && id in r[s])
    && (forall s: Signal, k: nat :: s in r && k in r[s] ==> (s in index && k in index[s]) || (s in signals && k == id))
  }

  lemma PushAllExtends(index: Index, r: Index, signals: set<Signal>, id: nat)
    requires r.Keys == index.Keys + signals
    requires forall s :: s in r ==> r[s] == (if s in index then index[s] else []) + (if s in signals then [id] else [])
    ensures Extends(index, r, signals, id)
  {
  }

  /** Only constraints below n are listed, and only under their own signals. */
  ghost predicate Listed(index: Index, cs: seq<Constraint>, n: nat)
    requires n <= |cs|
  {
    forall s: Signal, k: nat :: s in index && k in index[s] ==> k < n && s in SignalsOf(cs[k])
  }

  lemma ListedNone(cs: seq<Constraint>)
    ensures Listed(map[], cs, 0)
  {
  }

  lemma ListedOnly(index: Index, r: Index, cs: seq<Constraint>, id: nat)
    requires id < |cs| && Listed(index, cs, id) && Extends(index, r, SignalsOf(cs[id]), id)
    ensures Listed(r, cs, id + 1)
  {
    hide SignalsOf;
    forall s: Signal, k: nat | s in r && k in r[s]
      ensures k < id + 1 && s in SignalsOf(cs[k])
    {
      if s in index && k in index[s] {
        ListedAt(index, cs, id, s, k);
      } else {
        assert s in SignalsOf(cs[id]) && k == id;
      }
    }
  }

  lemma ListedAt(index: Index, cs: seq<Constraint>, n: nat, s: Signal, k: nat)
    requires n <= |cs| && Listed(index, cs, n) && s in index && k in index[s]
    ensures k < n && s in SignalsOf(cs[k])
  {
  }

  method BuildNonLinearSignalMap(storage: ConstraintStorage) returns (index: Index)
    ensures Complete(storage.constraints, index)
    ensures Listed(index, storage.constraints, |storage.constraints|)
    ensures ValidIds(index, |storage.constraints|) && index.Keys == SignalsOfAll(storage.constraints)
  {
    hide SignalsOf, Extends, Listed, ValidIds;
    ListedNone(storage.constraints);
    index := map[];
    for id := 0 to |storage.constraints|
      invariant forall k: nat, s: Signal :: 0 <= k < id && s in SignalsOf(storage.constraints[k]) ==> s in index && k in index[s]
      invariant Listed(index, storage.constraints, id)
      invariant forall s :: s in index ==> index[s] != []
    {
      var before := index;
      index := PushAll(index, SignalsOf(storage.constraints[id]), id);
      PushAllExtends(before, index, SignalsOf(storage.constraints[id]), id);
      ExtendsMembers(before, index, SignalsOf(storage.constraints[id]), id);
      ListedOnly(before, index, storage.constraints, id);
    }
    ListedKeys(index, storage.constraints);
  }

  /** A complete index without empty lists has exactly the signals of the constraints. */
  lemma ListedKeys(index: Index, cs: seq<Constraint>)
    requires Complete(cs, index) && Listed(index, cs, |cs|) && forall s :: s in index ==> index[s] != []
    ensures ValidIds(index, |cs|) && index.Keys == SignalsOfAll(cs)
  {
    hide SignalsOf;
    forall s: Signal, id: nat | s in index && id in index[s]
      ensures id < |cs| && s in SignalsOfAll(cs)
    {
      ListedAt(index, cs, |cs|, s, id);
    }
    forall s | s in index
      ensures s in SignalsOfAll(cs)
    {
      assert index[s][0] in index[s];
    }
    forall s | s in SignalsOfAll(cs)
      ensures s in index
    {
      var id: nat :| id < |cs| && s in SignalsOf(cs[id]);
    }
  }

  lemma ExtendsMembers(index: Index, r: Index, signals: set<Signal>, id: nat)
    requires Extends(index, r, signals, id)
    ensures r.Keys == index.Keys + signals
    ensures forall s :: s in index ==> s in r
    ensures forall s: Signal, k: nat :: s in index && k in index[s] ==> k in r[s]
    ensures forall s :: s in signals ==> s in r && id in r[s]
    ensures forall s: Signal, k: nat :: s in r && k in r[s] ==> (s in index && k in index[s]) || (s in signals && k == id)
  {
  }

  // ----- one substitution

  /** A stored constraint before and after a substitution has been applied to it. */
  ghost predicate Rewritten(c: Constraint, r: Constraint, s: Substitution, p: Prime) {
    && CanonicalConstraint(r, p)
    && (forall w: Assignment :: Obeys(w, s, p) ==> (Holds(r, w, p) <==> Holds(c, w, p)))
    && SignalsOf(r) <= SignalsOf(c) + (s.to.Keys - {CONSTANT})
    && s.from !in SignalsOf(r)
    && (IsLinear(c) ==> IsLinear(r)) && (c == EMPTY ==> r == EMPTY)
  }

  lemma FixApplyEmpty(s: Substitution, p: Prime)
    requires s.from != CONSTANT
    ensures Fix(Apply(EMPTY, s, p), p) == EMPTY
  {
    assert Substituted(map[], s, p) == map[CONSTANT := 0];
    assert DropZeros(map[CONSTANT := 0]) == map[];
    FixLinear(Apply(EMPTY, s, p), p);
  }

  lemma FixApplyRewritten(c: Constraint, s: Substitution, p: Prime)
    requires CanonicalConstraint(c, p) && s.from != CONSTANT && s.from !in s.to
    ensures Rewritten(c, Fix(Apply(c, s, p), p), s, p)
  {
    var a := Apply(c, s, p);
    ApplySignals(c, s, p);
    FixSignals(a, p);
    FixCanonical(a, p);
    FixApplyEmpty(s, p);
    forall w: Assignment | Obeys(w, s, p)
      ensures Holds(Fix(a, p), w, p) <==> Holds(c, w, p)
    {
      ApplyHolds(c, s, w, p);
      FixHolds(a, w, p);
    }
    if IsLinear(c) {
      assert LinearShape(c);
      ApplyLinearShape(c, s, p);
      assert DropZeros(a.a) == map[];
      FixLinear(a, p);
    }
  }

  /** Rewriting twice with the same substitution. */
  lemma RewrittenAgain(c: Constraint, d: Constraint, e: Constraint, s: Substitution, p: Prime)
    requires Rewritten(c, d, s, p) && Rewritten(d, e, s, p)
    ensures Rewritten(c, e, s, p)
  {
    hide Holds, SignalsOf, CanonicalConstraint, Obeys;
  }

  ghost predicate CanonicalAll(cs: seq<Constraint>, p: Prime) {
    forall i :: 0 <= i < |cs| ==> CanonicalConstraint(cs[i], p)
  }

  /** The constraints in `ids` have been rewritten, the others are as before. */
  ghost predicate RewrittenAt(cs: seq<Constraint>, rs: seq<Constraint>, ids: seq<nat>, s: Substitution, p: Prime) {
    && |rs| == |cs|
    && (forall id: nat :: 0 <= id < |cs| && id in ids ==> Rewritten(cs[id], rs[id], s, p))
    && (forall id: nat :: 0 <= id < |cs| && id !in ids ==> rs[id] == cs[id])
  }

  lemma RewrittenStep(cs: seq<Constraint>, rs: seq<Constraint>, ids: seq<nat>, id: nat, r: Constraint, s: Substitution, p: Prime)
    requires RewrittenAt(cs, rs, ids, s, p) && id < |cs|
    requires Rewritten(rs[id], r, s, p)
    ensures RewrittenAt(cs, rs[id := r], ids + [id], s, p)
  {
    hide Rewritten;
    if id in ids {
      RewrittenAgain(cs[id], rs[id], r, s, p);
    }
  }

  /** The index after every id of `ids` has been listed under every key. */
  ghost predicate Grown(index: Index, index': Index, ids: seq<nat>, keys: set<Signal>, n: nat) {
    && ValidIds(index', n) && index'.Keys == index.Keys + (if ids == [] then {} else keys)
    && (forall s :: s in index ==> s in index')
    && (forall s: Signal, id: nat :: s in index && id in index[s] ==> id in index'[s])
    && (forall id: nat, s: Signal :: id in ids && s in keys ==> s in index' && id in index'[s])
  }

  lemma GrownStep(index: Index, index': Index, r: Index, ids: seq<nat>, id: nat, keys: set<Signal>, n: nat)
    requires Grown(index, index', ids, keys, n) && id < n && Extends(index', r, keys, id)
    ensures Grown(index, r, ids + [id], keys, n)
  {
    ExtendsMembers(index', r, keys, id);
    forall s | s in r
      ensures r[s] != []
    {
      if s in index' {
        assert index'[s][0] in index'[s];
      }
    }
    assert id in ids + [id];
  }

  /** Of the ids given, exactly those of linear constraints are in `linear`. */
  ghost predicate LinearAmong(cs: seq<Constraint>, ids: seq<nat>, linear: seq<nat>) {
    && (forall id: nat :: id in ids ==> id < |cs|)
    && (forall id: nat :: id in linear ==> id in ids && IsLinear(cs[id]))
    && (forall id: nat :: id in ids && IsLinear(cs[id]) ==> id in linear)
  }

  lemma LinearAmongStep(cs: seq<Constraint>, ids: seq<nat>, linear: seq<nat>, id: nat, r: Constraint)
    requires LinearAmong(cs, ids, linear) && id < |cs| && (IsLinear(cs[id]) ==> IsLinear(r))
    ensures LinearAmong(cs[id := r], ids + [id], if IsLinear(r) then linear + [id] else linear)
  {
    hide IsLinear;
  }

  method ConstraintProcessing(storage: ConstraintStorage, index: Index, cIds: seq<nat>, substitution: Substitution, p: Prime)
    returns (index': Index, linear: seq<nat>)
    requires CanonicalAll(storage.constraints, p)
    requires substitution.from != CONSTANT && substitution.from !in substitution.to
    requires forall id: nat :: id in cIds ==> id < |storage.constraints|
    requires ValidIds(index, |storage.constraints|)
    modifies storage
    ensures CanonicalAll(storage.constraints, p)
    ensures RewrittenAt(old(storage.constraints), storage.constraints, cIds, substitution, p)
    ensures ValidIds(index', |storage.constraints|)
    ensures index'.Keys == index.Keys + if cIds == [] then {} else substitution.to.Keys
    ensures forall s :: s in index ==> s in index'
    ensures forall s: Signal, id: nat :: s in index && id in index[s] ==> id in index'[s]
    ensures forall id: nat, s: Signal :: id in cIds && s in substitution.to ==> s in index' && id in index'[s]
    ensures forall id: nat :: id in linear ==> id in cIds && IsLinear(storage.constraints[id])
    ensures forall id: nat :: id in cIds && IsLinear(storage.constraints[id]) ==> id in linear
  {
    linear, index' := [], index;
    ghost var before := storage.constraints;
    assert cIds[..0] == [];
    for i := 0 to |cIds|
      invariant |storage.constraints| == |before| && CanonicalAll(storage.constraints, p)
      invariant RewrittenAt(before, storage.constraints, cIds[..i], substitution, p)
      invariant Grown(index, index', cIds[..i], substitution.to.Keys, |before|)
      invariant LinearAmong(storage.constraints, cIds[..i], linear)
    {
      hide Rewritten, CanonicalConstraint, Grown, RewrittenAt, Extends, LinearAmong, IsLinear;
      var cId := cIds[i];
      assert cId in cIds && cIds[..i + 1] == cIds[..i] + [cId];
      ghost var previous, current := index', storage.constraints;
      var constraint := ProcessOne(storage, cId, substitution, p);
      RewrittenKeeps(current[cId], constraint, substitution, p);
      RewrittenStep(before, current, cIds[..i], cId, constraint, substitution, p);
      LinearAmongStep(current, cIds[..i], linear, cId, constraint);
      if IsLinear(constraint) {
        linear := linear + [cId];
      }
      index' := PushAll(index', substitution.to.Keys, cId);
      PushAllExtends(previous, index', substitution.to.Keys, cId);
      GrownStep(index, previous, index', cIds[..i], cId, substitution.to.Keys, |before|);
    }
    assert cIds[..|cIds|] == cIds;
  }

  /** One stored constraint is rewritten in its place. */
  method ProcessOne(storage: ConstraintStorage, cId: nat, substitution: Substitution, p: Prime) returns (constraint: Constraint)
    requires CanonicalAll(storage.constraints, p) && cId < |storage.constraints|
    requires substitution.from != CONSTANT && substitution.from !in substitution.to
    modifies storage
    ensures Rewritten(old(storage.constraints)[cId], constraint, substitution, p)
    ensures storage.constraints == old(storage.constraints)[cId := constraint]
    ensures CanonicalAll(storage.constraints, p)
  {
    hide Fix, Apply, Rewritten, CanonicalConstraint;
    var read := storage.ReadConstraint(cId);
    constraint := Fix(Apply(read.value, substitution, p), p);
    FixApplyRewritten(read.value, substitution, p);
    RewrittenKeeps(read.value, constraint, substitution, p);
    storage.Replace(cId, constraint);
  }

  lemma RewrittenKeeps(c: Constraint, r: Constraint, s: Substitution, p: Prime)
    requires Rewritten(c, r, s, p)
    ensures CanonicalConstraint(r, p) && (IsLinear(c) ==> IsLinear(r))
  {
  }

  // ----- all substitutions

  /** The signals on right-hand sides. */
  ghost function Rights(subs: seq<Substitution>): set<Signal> {
    set i, t | 0 <= i < |subs| && t in subs[i].to.Keys - {CONSTANT} :: t
  }

  /** The constraints after the first n substitutions. */
  ghost predicate After(before: seq<Constraint>, now: seq<Constraint>, subs: seq<Substitution>, n: nat, p: Prime)
    requires n <= |subs|
  {
    |now| == |before| && forall id :: 0 <= id < |now| ==> AfterOne(before[id], now[id], subs, n, p)
  }

  ghost predicate AfterOne(c: Constraint, r: Constraint, subs: seq<Substitution>, n: nat, p: Prime)
    requires n <= |subs|
  {
    && CanonicalConstraint(r, p)
    && (forall w: Assignment :: ObeysAll(w, subs, p) ==> (Holds(r, w, p) <==> Holds(c, w, p)))
    && SignalsOf(r) <= SignalsOf(c) + Rights(subs)
    && (forall i :: 0 <= i < n ==> subs[i].from !in SignalsOf(r))
    && (IsLinear(c) ==> IsLinear(r)) && (c == EMPTY ==> r == EMPTY)
  }

  lemma AfterRewritten(c: Constraint, r: Constraint, r': Constraint, subs: seq<Substitution>, n: nat, p: Prime)
    requires n < |subs| && NonOverlapping(subs)
    requires AfterOne(c, r, subs, n, p)
    requires Rewritten(r, r', subs[n], p) || (r' == r && subs[n].from !in SignalsOf(r))
    ensures AfterOne(c, r', subs, n + 1, p)
  {
    hide Holds, SignalsOf, Obeys, CanonicalConstraint, IsLinear;
    if Rewritten(r, r', subs[n], p) {
      forall t | t in subs[n].to.Keys - {CONSTANT}
        ensures t in Rights(subs)
      {
      }
      forall w: Assignment | ObeysAll(w, subs, p)
        ensures Holds(r', w, p) <==> Holds(c, w, p)
      {
        assert Obeys(w, subs[n], p);
      }
    }
  }

  /** The whole step: complete index, nobody missed. */
  lemma AfterStep(before: seq<Constraint>, now: seq<Constraint>, next: seq<Constraint>, index: Index, cIds: seq<nat>,
                  subs: seq<Substitution>, n: nat, p: Prime)
    requires n < |subs| && NonOverlapping(subs)
    requires After(before, now, subs, n, p) && Complete(now, index)
    requires RewrittenAt(now, next, cIds, subs[n], p)
    requires cIds == if subs[n].from in index then index[subs[n].from] else []
    ensures After(before, next, subs, n + 1, p)
  {
    hide SignalsOf, Rewritten, AfterOne;
    forall id | 0 <= id < |next|
      ensures AfterOne(before[id], next[id], subs, n + 1, p)
    {
      AfterRewritten(before[id], now[id], next[id], subs, n, p);
    }
  }

  lemma CompleteStep(now: seq<Constraint>, next: seq<Constraint>, index: Index, index': Index, cIds: seq<nat>,
                     s: Substitution, p: Prime)
    requires Complete(now, index) && RewrittenAt(now, next, cIds, s, p)
    requires forall t :: t in index ==> t in index'
    requires forall t: Signal, id: nat :: t in index && id in index[t] ==> id in index'[t]
    requires forall id: nat, t: Signal :: id in cIds && t in s.to ==> t in index' && id in index'[t]
    ensures Complete(next, index')
  {
    hide SignalsOf;
    forall id: nat, t: Signal | id < |next| && t in SignalsOf(next[id])
      ensures t in index' && id in index'[t]
    {
      if id in cIds {
        assert Rewritten(now[id], next[id], s, p);
        assert t in SignalsOf(now[id]) || t in s.to;
      }
    }
  }

  lemma AfterNone(before: seq<Constraint>, subs: seq<Substitution>, p: Prime)
    requires CanonicalAll(before, p)
    ensures After(before, before, subs, 0, p)
  {
  }

  ghost predicate GoodSubstitutions(subs: seq<Substitution>) {
    NonOverlapping(subs) && forall i :: 0 <= i < |subs| ==> subs[i].from != CONSTANT
  }

  /** The ids of constraints that have become linear. */
  ghost predicate LinearIds(before: seq<Constraint>, now: seq<Constraint>, ids: seq<nat>) {
    && |now| == |before|
    && (forall id: nat :: id in ids ==> id < |now| && IsLinear(now[id]))
    && (forall id: nat :: id < |now| && IsLinear(now[id]) && !IsLinear(before[id]) ==> id in ids)
  }

  lemma LinearIdsStep(before: seq<Constraint>, now: seq<Constraint>, next: seq<Constraint>, ids: seq<nat>, more: seq<nat>,
                      cIds: seq<nat>, s: Substitution, p: Prime)
    requires LinearIds(before, now, ids) && RewrittenAt(now, next, cIds, s, p)
    requires forall id: nat :: id in cIds ==> id < |next|
    requires forall id: nat :: id in more ==> id in cIds && IsLinear(next[id])
    requires forall id: nat :: id in cIds && IsLinear(next[id]) ==> id in more
    ensures LinearIds(before, next, ids + more)
  {
    forall id: nat | id in ids
      ensures IsLinear(next[id])
    {
      assert id in cIds ==> Rewritten(now[id], next[id], s, p);
    }
  }

  /** The listed constraints have been moved from the storage to the list. */
  ghost predicate Taken(now: seq<Constraint>, rest: seq<Constraint>, linear: seq<Constraint>, ids: seq<nat>) {
    && |rest| == |now|
    && (forall id: nat :: id < |now| && id in ids ==> rest[id] == EMPTY && now[id] in linear)
    && (forall id: nat :: id < |now| && id !in ids ==> rest[id] == now[id])
    && (forall c :: c in linear ==> c == EMPTY || (c in now && IsLinear(c)))
  }

  /** An id that is listed twice yields the constraint once and then an empty one. */
  method TakeLinear(storage: ConstraintStorage, linearId: seq<nat>, ghost p: Prime) returns (linear: seq<Constraint>)
    requires forall id: nat :: id in linearId ==> id < |storage.constraints| && IsLinear(storage.constraints[id])
    modifies storage
    ensures Taken(old(storage.constraints), storage.constraints, linear, linearId)
    ensures |linear| == |linearId|
  {
    ghost var now := storage.constraints;
    linear := [];
    for i := 0 to |linearId|
      invariant Taken(now, storage.constraints, linear, linearId[..i]) && |linear| == i
    {
      var cId := linearId[i];
      assert cId in linearId;
      assert linearId[..i + 1] == linearId[..i] + [cId];
      var read := storage.ReadConstraint(cId);
      ghost var before := linear;
      linear := linear + [read.value];
      assert forall c :: c in before ==> c in linear;
      storage.Replace(cId, EMPTY);
    }
    assert linearId[..|linearId|] == linearId;
  }

  /** What the pass does to the meaning and the signals of the stored system. */
  ghost predicate Pushed(before: seq<Constraint>, rest: seq<Constraint>, linear: seq<Constraint>,
                         subs: seq<Substitution>, p: Prime)
  {
    && |rest| == |before|
    && (forall w: Assignment :: ObeysAll(w, subs, p) ==>
        (AllHold(before, w, p) <==> AllHold(rest, w, p) && AllHold(linear, w, p)))
    && SignalsOfAll(rest) + SignalsOfAll(linear) <= SignalsOfAll(before) + Rights(subs)
    && (forall i :: 0 <= i < |subs| ==> subs[i].from !in SignalsOfAll(rest) + SignalsOfAll(linear))
    && (forall id :: 0 <= id < |before| && IsLinear(rest[id]) && !IsLinear(before[id]) ==> rest[id] == EMPTY)
    && (forall id :: 0 <= id < |before| && before[id] == EMPTY ==> rest[id] == EMPTY)
    && (subs == [] ==> linear == [])
  }

  /** The signals listed in the index once all substitutions have been pushed through it: the right-hand side of a
      substitution is listed if the signal that it replaces was. */
  ghost function KeysAfter(keys: set<Signal>, subs: seq<Substitution>): set<Signal> {
    if subs == [] then keys
    else
      var last := |subs| - 1;
      var before := KeysAfter(keys, subs[..last]);
      before + if subs[last].from in before then subs[last].to.Keys else {}
  }

  lemma TakenSound(now: seq<Constraint>, rest: seq<Constraint>, linear: seq<Constraint>, ids: seq<nat>, index: Index, p: Prime)
    requires Taken(now, rest, linear, ids) && CanonicalAll(now, p) && Complete(now, index)
    ensures CanonicalAll(rest, p) && LinearSystem(linear, p) && Complete(rest, index)
  {
    forall i | 0 <= i < |linear|
      ensures LinearConstraint(linear[i], p)
    {
      assert linear[i] in linear;
    }
  }

  lemma TakenHolds(now: seq<Constraint>, rest: seq<Constraint>, linear: seq<Constraint>, ids: seq<nat>, w: Assignment, p: Prime)
    requires Taken(now, rest, linear, ids)
    ensures AllHold(now, w, p) <==> AllHold(rest, w, p) && AllHold(linear, w, p)
  {
    EmptyHolds(w, p);
    hide Holds, IsLinear;
    if AllHold(now, w, p) {
      forall id: nat | id < |rest|
        ensures Holds(rest[id], w, p)
      {
      }
      forall i | 0 <= i < |linear|
        ensures Holds(linear[i], w, p)
      {
        assert linear[i] in linear;
      }
    }
    if AllHold(rest, w, p) && AllHold(linear, w, p) {
      forall id: nat | id < |now|
        ensures Holds(now[id], w, p)
      {
        if id in ids {
          assert now[id] in linear;
        } else {
          assert rest[id] == now[id];
        }
      }
    }
  }

  /** No signal comes from anywhere but the constraints. */
  lemma TakenSignals(now: seq<Constraint>, rest: seq<Constraint>, linear: seq<Constraint>, ids: seq<nat>)
    requires Taken(now, rest, linear, ids)
    ensures SignalsOfAll(rest) + SignalsOfAll(linear) <= SignalsOfAll(now)
  {
    assert SignalsOf(EMPTY) == {};
    hide SignalsOf, IsLinear;
    forall s | s in SignalsOfAll(rest)
      ensures s in SignalsOfAll(now)
    {
      var id :| 0 <= id < |rest| && s in SignalsOf(rest[id]);
      assert rest[id] == now[id];
    }
    forall s | s in SignalsOfAll(linear)
      ensures s in SignalsOfAll(now)
    {
      var i :| 0 <= i < |linear| && s in SignalsOf(linear[i]);
      assert linear[i] in linear;
      var id :| 0 <= id < |now| && now[id] == linear[i];
    }
  }

  lemma AfterSignals(before: seq<Constraint>, now: seq<Constraint>, subs: seq<Substitution>, p: Prime)
    requires After(before, now, subs, |subs|, p)
    ensures SignalsOfAll(now) <= SignalsOfAll(before) + Rights(subs)
    ensures forall i :: 0 <= i < |subs| ==> subs[i].from !in SignalsOfAll(now)
  {
    hide SignalsOf, Rights, Holds, CanonicalConstraint;
    forall s | s in SignalsOfAll(now)
      ensures s in SignalsOfAll(before) + Rights(subs)
      ensures forall i :: 0 <= i < |subs| ==> subs[i].from != s
    {
      var id :| 0 <= id < |now| && s in SignalsOf(now[id]);
      assert AfterOne(before[id], now[id], subs, |subs|, p);
    }
  }

  lemma AfterHolds(before: seq<Constraint>, now: seq<Constraint>, subs: seq<Substitution>, w: Assignment, p: Prime)
    requires After(before, now, subs, |subs|, p) && ObeysAll(w, subs, p)
    ensures AllHold(now, w, p) <==> AllHold(before, w, p)
  {
    hide SignalsOf, Rights, Holds, CanonicalConstraint;
    forall id | 0 <= id < |now|
      ensures Holds(now[id], w, p) <==> Holds(before[id], w, p)
    {
      assert AfterOne(before[id], now[id], subs, |subs|, p);
    }
  }

  lemma PushedMeaning(before: seq<Constraint>, now: seq<Constraint>, rest: seq<Constraint>, linear: seq<Constraint>,
                      ids: seq<nat>, subs: seq<Substitution>, p: Prime)
    requires After(before, now, subs, |subs|, p)
    requires LinearIds(before, now, ids) && Taken(now, rest, linear, ids) && (subs == [] ==> linear == [])
    ensures Pushed(before, rest, linear, subs, p)
  {
    hide AllHold, SignalsOfAll, Rights, AfterOne;
    AfterEmpty(before, now, subs, p);
    AfterSignals(before, now, subs, p);
    TakenSignals(now, rest, linear, ids);
    forall w: Assignment | ObeysAll(w, subs, p)
      ensures AllHold(before, w, p) <==> AllHold(rest, w, p) && AllHold(linear, w, p)
    {
      AfterHolds(before, now, subs, w, p);
      TakenHolds(now, rest, linear, ids, w, p);
    }
  }

  lemma AfterEmpty(before: seq<Constraint>, now: seq<Constraint>, subs: seq<Substitution>, p: Prime)
    requires After(before, now, subs, |subs|, p)
    ensures |now| == |before| && forall id :: 0 <= id < |before| && before[id] == EMPTY ==> now[id] == EMPTY
  {
    forall id | 0 <= id < |before| && before[id] == EMPTY
      ensures now[id] == EMPTY
    {
      assert AfterOne(before[id], now[id], subs, |subs|, p);
    }
  }

  method ApplySubstitutionToMap(storage: ConstraintStorage, index: Index, substitutions: seq<Substitution>, p: Prime)
    returns (index': Index, linear: seq<Constraint>)
    requires GoodSubstitutions(substitutions)
    requires CanonicalAll(storage.constraints, p)
    requires Complete(storage.constraints, index) && ValidIds(index, |storage.constraints|)
    modifies storage
    ensures CanonicalAll(storage.constraints, p) && LinearSystem(linear, p)
    ensures Complete(storage.constraints, index') && ValidIds(index', |storage.constraints|)
    ensures Pushed(old(storage.constraints), storage.constraints, linear, substitutions, p)
    ensures index'.Keys == KeysAfter(index.Keys, substitutions)
  {
    hide Holds, SignalsOf, CanonicalConstraint, AfterOne, Rewritten, LinearConstraint;
    index' := index;
    ghost var before := storage.constraints;
    var linearId: seq<nat> := [];
    AfterNone(before, substitutions, p);
    for n := 0 to |substitutions|
      invariant CanonicalAll(storage.constraints, p)
      invariant After(before, storage.constraints, substitutions, n, p)
      invariant Complete(storage.constraints, index') && ValidIds(index', |storage.constraints|)
      invariant LinearIds(before, storage.constraints, linearId) && (n == 0 ==> linearId == [])
      invariant index'.Keys == KeysAfter(index.Keys, substitutions[..n])
    {
      assert substitutions[..n + 1][..n] == substitutions[..n];
      var substitution := substitutions[n];
      ghost var now := storage.constraints;
      if substitution.from in index' {
        var cIds := index'[substitution.from];
        var next, newLinear := ConstraintProcessing(storage, index', cIds, substitution, p);
        AfterStep(before, now, storage.constraints, index', cIds, substitutions, n, p);
        CompleteStep(now, storage.constraints, index', next, cIds, substitution, p);
        LinearIdsStep(before, now, storage.constraints, linearId, newLinear, cIds, substitution, p);
        index', linearId := next, linearId + newLinear;
      } else {
        AfterStep(before, now, now, index', [], substitutions, n, p);
      }
    }
    assert substitutions[..|substitutions|] == substitutions;
    ghost var now := storage.constraints;
    linear := TakeLinear(storage, linearId, p);
    TakenSound(now, storage.constraints, linear, linearId, index', p);
    PushedMeaning(before, now, storage.constraints, linear, linearId, substitutions, p);
  }
}
