/** Subset sums by merging the most frequent pairs: multisubset in
    verkle/utils/multicombs.py. */
module PairMerging {
  import opened Wrappers
  import opened Combinations

  type Pair = (nat, nat)

  // ----- sums under a merge

  lemma {:induction false} SumAgree<T>(numbers: seq<T>, s: set<nat>, t: set<nat>, add: (T, T) -> T, zero: T)
    requires forall i :: 0 <= i < |numbers| ==> (i in s <==> i in t)
    ensures SubsetSum(numbers, s, add, zero) == SubsetSum(numbers, t, add, zero)
  {
    if numbers != [] {
      SumAgree(numbers[..|numbers| - 1], s, t, add, zero);
    }
  }

  lemma {:induction false} SumTakeOut<T(!new)>(numbers: seq<T>, s: set<nat>, x: nat, add: (T, T) -> T, zero: T)
    requires CommutativeMonoid(add, zero) && x in s && x < |numbers|
    ensures SubsetSum(numbers, s, add, zero) == add(SubsetSum(numbers, s - {x}, add, zero), numbers[x])
  {
    hide CommutativeMonoid;
    var last := |numbers| - 1;
    var front := numbers[..last];
    if x == last {
      SumAgree(front, s, s - {x}, add, zero);
    } else {
      SumTakeOut(front, s, x, add, zero);
      Associates(add, zero, SubsetSum(front, s - {x}, add, zero), numbers[x], numbers[last]);
    }
  }

  /** Two members replaced by one that is their sum. */
  lemma MergedSum<T(!new)>(numbers: seq<T>, s: set<nat>, x: nat, y: nat, add: (T, T) -> T, zero: T)
    requires CommutativeMonoid(add, zero) && x in s && y in s && x != y && x < |numbers| && y < |numbers|
    ensures var more := numbers + [add(numbers[x], numbers[y])];
      SubsetSum(more, s - {x, y} + {|numbers|}, add, zero) == SubsetSum(numbers, s, add, zero)
    ensures s == {x, y} ==> SubsetSum(numbers, s, add, zero) == add(numbers[x], numbers[y])
  {
    var z := add(numbers[x], numbers[y]);
    var more, t := numbers + [z], s - {x, y} + {|numbers|};
    assert more[..|numbers|] == numbers;
    var rest := SubsetSum(numbers, s - {x, y}, add, zero);
    SumAgree(numbers, t, s - {x, y}, add, zero);
    SumTakeOut(numbers, s, y, add, zero);
    SumTakeOut(numbers, s - {y}, x, add, zero);
    assert s - {y} - {x} == s - {x, y};
    Associates(add, zero, rest, numbers[x], numbers[y]);
    if s == {x, y} {
      SumOfEmpty(numbers, s - {x, y}, add, zero);
      ZeroRight(add, zero, z);
    }
  }

  lemma {:induction false} SumOfEmpty<T>(numbers: seq<T>, s: set<nat>, add: (T, T) -> T, zero: T)
    requires s == {}
    ensures SubsetSum(numbers, s, add, zero) == zero
  {
    if numbers != [] {
      SumOfEmpty(numbers[..|numbers| - 1], s, add, zero);
    }
  }

  /** A further number does not matter to subsets of the old ones. */
  lemma SumAppend<T>(numbers: seq<T>, s: set<nat>, z: T, add: (T, T) -> T, zero: T)
    requires |numbers| !in s
    ensures SubsetSum(numbers + [z], s, add, zero) == SubsetSum(numbers, s, add, zero)
  {
    assert (numbers + [z])[..|numbers|] == numbers;
  }

  // ----- sizes

  function SizeAt(subsets: map<nat, set<nat>>, k: nat): nat {
    if k in subsets then |subsets[k]| else 0
  }

  function TotalSize(subsets: map<nat, set<nat>>, n: nat): nat {
    if n == 0 then 0 else TotalSize(subsets, n - 1) + SizeAt(subsets, n - 1)
  }

  ghost predicate NotLarger(after: map<nat, set<nat>>, before: map<nat, set<nat>>) {
    forall k :: SizeAt(after, k) <= SizeAt(before, k)
  }

  lemma {:induction false} TotalFalls(after: map<nat, set<nat>>, before: map<nat, set<nat>>, n: nat)
    requires NotLarger(after, before)
    ensures TotalSize(after, n) <= TotalSize(before, n)
    ensures (exists k: nat :: k < n && SizeAt(after, k) < SizeAt(before, k)) ==> TotalSize(after, n) < TotalSize(before, n)
  {
    if n != 0 {
      TotalFalls(after, before, n - 1);
    }
  }

  // ----- counting pairs

  ghost predicate Both(s: set<nat>, pair: Pair) {
    pair.0 in s && pair.1 in s && pair.0 < pair.1
  }

  ghost predicate Somewhere(subsets: map<nat, set<nat>>, pair: Pair) {
    exists k: nat :: k in subsets && Both(subsets[k], pair)
  }

  /** The number of the first n subsets that contain a pair. */
  ghost function CountOf(subsets: map<nat, set<nat>>, n: nat, pair: Pair): nat {
    if n == 0 then 0
    else CountOf(subsets, n - 1, pair) + if n - 1 in subsets && Both(subsets[n - 1], pair) then 1 else 0
  }

  function GetCount(counts: map<Pair, nat>, pair: Pair): nat {
    if pair in counts then counts[pair] else 0
  }

  ghost predicate Positive(counts: map<Pair, nat>) {
    forall pair :: pair in counts ==> counts[pair] > 0
  }

  method CountPairs(subsets: map<nat, set<nat>>, n: nat) returns (counts: map<Pair, nat>)
    ensures Positive(counts)
    ensures forall pair :: GetCount(counts, pair) == CountOf(subsets, n, pair)
  {
    counts := map[];
    for k := 0 to n
      invariant Positive(counts)
      invariant forall pair :: GetCount(counts, pair) == CountOf(subsets, k, pair)
    {
      if k in subsets {
        counts := CountIn(subsets[k], counts);
      }
    }
  }

  ghost function One(b: bool): nat {
    if b then 1 else 0
  }

  method CountIn(subset: set<nat>, before: map<Pair, nat>) returns (counts: map<Pair, nat>)
    requires Positive(before)
    ensures Positive(counts)
    ensures forall pair :: GetCount(counts, pair) == GetCount(before, pair) + One(Both(subset, pair))
  {
    counts := before;
    var xs := subset;
    while xs != {}
      invariant xs <= subset && Positive(counts)
      invariant forall pair :: GetCount(counts, pair) == GetCount(before, pair) + One(Both(subset, pair) && pair.0 !in xs)
    {
      var x :| x in xs;
      xs := xs - {x};
      var ys := subset;
      while ys != {}
        invariant ys <= subset && Positive(counts)
        invariant forall pair ::
          GetCount(counts, pair) == GetCount(before, pair) + One(Both(subset, pair) && pair.0 !in xs && (pair.0 == x ==> pair.1 !in ys))
      {
        var y :| y in ys;
        ys := ys - {y};
        if y > x {
          counts := counts[(x, y) := GetCount(counts, (x, y)) + 1];
        }
      }
    }
  }

  lemma {:induction false} CountedSomewhere(subsets: map<nat, set<nat>>, n: nat, pair: Pair) returns (k: nat)
    requires CountOf(subsets, n, pair) > 0
    ensures k < n && k in subsets && Both(subsets[k], pair)
  {
    if n - 1 in subsets && Both(subsets[n - 1], pair) {
      k := n - 1;
    } else {
      k := CountedSomewhere(subsets, n - 1, pair);
    }
  }

  /** The pairs with the highest counts, highest first. */
  method MostFrequent(counts: map<Pair, nat>, limit: nat) returns (pairs: seq<Pair>)
    ensures |pairs| == if limit < |counts| then limit else |counts|
    ensures forall i :: 0 <= i < |pairs| ==> pairs[i] in counts
    ensures forall i, j :: 0 <= i < j < |pairs| ==> pairs[i] != pairs[j] && counts[pairs[i]] >= counts[pairs[j]]
    ensures forall pair, i :: pair in counts && pair !in pairs && 0 <= i < |pairs| ==> counts[pair] <= counts[pairs[i]]
  {
    pairs := [];
    var rest := counts.Keys;
    while |pairs| < limit && rest != {}
      invariant rest <= counts.Keys && |pairs| + |rest| == |counts| && |pairs| <= limit
      invariant forall i :: 0 <= i < |pairs| ==> pairs[i] in counts && pairs[i] !in rest
      invariant forall i, j :: 0 <= i < j < |pairs| ==> pairs[i] != pairs[j] && counts[pairs[i]] >= counts[pairs[j]]
      invariant forall pair :: pair in counts && pair !in rest ==> pair in pairs
      invariant forall pair, i :: pair in rest && 0 <= i < |pairs| ==> counts[pair] <= counts[pairs[i]]
      decreases |rest|
    {
      var best := Highest(counts, rest);
      pairs := pairs + [best];
      rest := rest - {best};
    }
  }

  method Highest(counts: map<Pair, nat>, candidates: set<Pair>) returns (best: Pair)
    requires candidates <= counts.Keys && candidates != {}
    ensures best in candidates && forall pair :: pair in candidates ==> counts[pair] <= counts[best]
  {
    best :| best in candidates;
    var rest := candidates - {best};
    while rest != {}
      invariant rest <= candidates && best in candidates
      invariant forall pair :: pair in candidates - rest ==> counts[pair] <= counts[best]
    {
      var pair :| pair in rest;
      if counts[pair] > counts[best] {
        best := pair;
      }
      rest := rest - {pair};
    }
  }

  // ----- merging

  /** What is left of every subset still adds up to its target. */
  ghost predicate OnTarget<T>(numbers: seq<T>, subsets: map<nat, set<nat>>, output: seq<T>, targets: seq<T>,
                              add: (T, T) -> T, zero: T)
  {
    && |output| == |targets|
    && (forall k :: k in subsets ==> k < |targets|)
    && (forall k: nat :: k < |targets| ==> AtTarget(numbers, subsets, output, targets, k, add, zero))
  }

  ghost predicate AtTarget<T>(numbers: seq<T>, subsets: map<nat, set<nat>>, output: seq<T>, targets: seq<T>, k: nat,
                              add: (T, T) -> T, zero: T)
    requires |output| == |targets| && k < |targets|
  {
    if k in subsets then
      && output[k] == zero
      && (forall i :: i in subsets[k] ==> i < |numbers|)
      && SubsetSum(numbers, subsets[k], add, zero) == targets[k]
    else output[k] == targets[k]
  }

  /** One subset after x and y have been merged into a new last number. */
  lemma MergeOne<T(!new)>(numbers: seq<T>, s: set<nat>, x: nat, y: nat, target: T, add: (T, T) -> T, zero: T)
    requires CommutativeMonoid(add, zero) && x < y < |numbers|
    requires (forall i :: i in s ==> i < |numbers|) && SubsetSum(numbers, s, add, zero) == target
    ensures var more := numbers + [add(numbers[x], numbers[y])];
      && (!(x in s && y in s) ==> SubsetSum(more, s, add, zero) == target)
      && (x in s && y in s && s - {x} - {y} == {} ==> target == more[|numbers|])
      && (x in s && y in s ==> SubsetSum(more, s - {x} - {y} + {|numbers|}, add, zero) == target)
  {
    hide CommutativeMonoid, SubsetSum;
    if x in s && y in s {
      assert s - {x} - {y} == s - {x, y};
      MergedSum(numbers, s, x, y, add, zero);
      assert s - {x} - {y} == {} ==> s == {x, y};
    } else {
      SumAppend(numbers, s, add(numbers[x], numbers[y]), add, zero);
    }
  }

  lemma MergeSize(s: set<nat>, x: nat, y: nat, new': nat)
    requires x in s && y in s && x != y && new' !in s
    ensures |s - {x} - {y}| == |s| - 2 && |s - {x} - {y} + {new'}| == |s| - 1
  {
  }

  /** How a subset stands after the merge of one pair: only the keys that are done are rewritten. */
  ghost predicate MergedAt(subsets: map<nat, set<nat>>, subsets': map<nat, set<nat>>, x: nat, y: nat, m: nat, k: nat) {
    if k in subsets && x in subsets[k] && y in subsets[k] then
      if subsets[k] - {x} - {y} == {} then k !in subsets'
      else k in subsets' && subsets'[k] == subsets[k] - {x} - {y} + {m}
    else (k in subsets' <==> k in subsets) && (k in subsets ==> subsets'[k] == subsets[k])
  }

  ghost predicate MergedAll(subsets: map<nat, set<nat>>, subsets': map<nat, set<nat>>, x: nat, y: nat, m: nat) {
    forall k: nat :: MergedAt(subsets, subsets', x, y, m, k)
  }

  method MergePair<T>(numbers: seq<T>, subsets: map<nat, set<nat>>, output: seq<T>, pair: Pair)
    returns (subsets': map<nat, set<nat>>, output': seq<T>)
    requires numbers != [] && forall k :: k in subsets ==> k < |output|
    ensures subsets'.Keys <= subsets.Keys
    ensures MergedAll(subsets, subsets', pair.0, pair.1, |numbers| - 1)
    ensures |output'| == |output|
    ensures forall k :: 0 <= k < |output| ==>
      output'[k] == if k in subsets && k !in subsets' then numbers[|numbers| - 1] else output[k]
  {
    subsets', output' := subsets, output;
    var (maxx, maxy) := pair;
    ghost var m := |numbers| - 1;
    var rest := subsets.Keys;
    while rest != {}
      invariant rest <= subsets.Keys && subsets'.Keys <= subsets.Keys && |output'| == |output|
      invariant forall k :: k in rest ==> k in subsets' && subsets'[k] == subsets[k]
      invariant forall k: nat :: k !in rest ==> MergedAt(subsets, subsets', maxx, maxy, m, k)
      invariant forall k :: 0 <= k < |output| ==>
        output'[k] == if k in subsets && k !in subsets' then numbers[|numbers| - 1] else output[k]
    {
      var key :| key in rest;
      rest := rest - {key};
      var subset := subsets[key];
      if maxx in subset && maxy in subset {
        subset := subset - {maxx} - {maxy};
        if subset == {} {
          output' := output'[key := numbers[|numbers| - 1]];
          subsets' := subsets' - {key};
        } else {
          subsets' := subsets'[key := subset + {|numbers| - 1}];
        }
      }
    }
  }

  lemma MergeOnTarget<T(!new)>(numbers: seq<T>, subsets: map<nat, set<nat>>, output: seq<T>, targets: seq<T>, pair: Pair,
                               subsets': map<nat, set<nat>>, output': seq<T>, add: (T, T) -> T, zero: T)
    requires CommutativeMonoid(add, zero) && pair.0 < pair.1 < |numbers|
    requires OnTarget(numbers, subsets, output, targets, add, zero)
    requires subsets'.Keys <= subsets.Keys && |output'| == |output|
    requires MergedAll(subsets, subsets', pair.0, pair.1, |numbers|)
    requires forall k :: 0 <= k < |output| ==>
      output'[k] == if k in subsets && k !in subsets' then add(numbers[pair.0], numbers[pair.1]) else output[k]
    ensures OnTarget(numbers + [add(numbers[pair.0], numbers[pair.1])], subsets', output', targets, add, zero)
  {
    hide CommutativeMonoid, SubsetSum;
    var more := numbers + [add(numbers[pair.0], numbers[pair.1])];
    forall k: nat | k < |targets|
      ensures AtTarget(more, subsets', output', targets, k, add, zero)
    {
      assert AtTarget(numbers, subsets, output, targets, k, add, zero);
      assert MergedAt(subsets, subsets', pair.0, pair.1, |numbers|, k);
      if k in subsets {
        MergeOne(numbers, subsets[k], pair.0, pair.1, targets[k], add, zero);
      }
    }
  }

  lemma MergeShrinks(subsets: map<nat, set<nat>>, subsets': map<nat, set<nat>>, x: nat, y: nat, m: nat)
    requires x < y && MergedAll(subsets, subsets', x, y, m)
    requires forall k :: k in subsets ==> m !in subsets[k]
    ensures NotLarger(subsets', subsets)
    ensures forall k :: k in subsets && x in subsets[k] && y in subsets[k] ==> SizeAt(subsets', k) < SizeAt(subsets, k)
  {
    forall k: nat
      ensures SizeAt(subsets', k) <= SizeAt(subsets, k)
      ensures k in subsets && x in subsets[k] && y in subsets[k] ==> SizeAt(subsets', k) < SizeAt(subsets, k)
    {
      assert MergedAt(subsets, subsets', x, y, m, k);
      if k in subsets && x in subsets[k] && y in subsets[k] {
        MergeSize(subsets[k], x, y, m);
      }
    }
  }

  /** All chosen pairs are merged, except those that share a number with an earlier one. */
  method MergeRound<T(!new)>(numbers: seq<T>, subsets: map<nat, set<nat>>, output: seq<T>, pairs: seq<Pair>,
                             ghost targets: seq<T>, add: (T, T) -> T, zero: T)
    returns (numbers': seq<T>, subsets': map<nat, set<nat>>, output': seq<T>)
    requires CommutativeMonoid(add, zero) && OnTarget(numbers, subsets, output, targets, add, zero)
    requires pairs != []
    requires forall i :: 0 <= i < |pairs| ==> Somewhere(subsets, pairs[i])
    ensures OnTarget(numbers', subsets', output', targets, add, zero)
    ensures TotalSize(subsets', |targets|) < TotalSize(subsets, |targets|)
  {
    hide CommutativeMonoid, SubsetSum, AtTarget, NotLarger;
    numbers', subsets', output' := numbers, subsets, output;
    PairsInRange(numbers, subsets, output, pairs, targets, add, zero);
    var used: set<nat> := {};
    for i := 0 to |pairs|
      invariant |numbers'| >= |numbers| && OnTarget(numbers', subsets', output', targets, add, zero)
      invariant i == 0 ==> subsets' == subsets && used == {}
      invariant i > 0 ==> TotalSize(subsets', |targets|) < TotalSize(subsets, |targets|)
    {
      var (maxx, maxy) := pairs[i];
      if maxx in used || maxy in used {
        continue;
      }
      used := used + {maxx, maxy};
      ghost var before, beforeNumbers, beforeOutput := subsets', numbers', output';
      var z := add(numbers'[maxx], numbers'[maxy]);
      numbers' := numbers' + [z];
      subsets', output' := MergePair(numbers', subsets', output', pairs[i]);
      MergeOnTarget(beforeNumbers, before, beforeOutput, targets, pairs[i], subsets', output', add, zero);
      RoundShrinks(beforeNumbers, before, beforeOutput, targets, pairs[i], subsets', add, zero);
    }
  }

  lemma PairsInRange<T>(numbers: seq<T>, subsets: map<nat, set<nat>>, output: seq<T>, pairs: seq<Pair>, targets: seq<T>,
                        add: (T, T) -> T, zero: T)
    requires OnTarget(numbers, subsets, output, targets, add, zero)
    requires forall i :: 0 <= i < |pairs| ==> Somewhere(subsets, pairs[i])
    ensures forall i :: 0 <= i < |pairs| ==> pairs[i].0 < pairs[i].1 < |numbers|
  {
    forall i | 0 <= i < |pairs|
      ensures pairs[i].0 < pairs[i].1 < |numbers|
    {
      assert Somewhere(subsets, pairs[i]);
      var k: nat :| k in subsets && Both(subsets[k], pairs[i]);
      assert AtTarget(numbers, subsets, output, targets, k, add, zero);
    }
  }

  lemma RoundShrinks<T>(numbers: seq<T>, before: map<nat, set<nat>>, output: seq<T>, targets: seq<T>, pair: Pair,
                        after: map<nat, set<nat>>, add: (T, T) -> T, zero: T)
    requires OnTarget(numbers, before, output, targets, add, zero) && pair.0 < pair.1
    requires MergedAll(before, after, pair.0, pair.1, |numbers|)
    ensures TotalSize(after, |targets|) <= TotalSize(before, |targets|)
    ensures Somewhere(before, pair) ==>
      TotalSize(after, |targets|) < TotalSize(before, |targets|)
  {
    forall k | k in before
      ensures |numbers| !in before[k]
    {
      assert AtTarget(numbers, before, output, targets, k, add, zero);
    }
    MergeShrinks(before, after, pair.0, pair.1, |numbers|);
    TotalFalls(after, before, |targets|);
    if k: nat :| k in before && Both(before[k], pair) {
      assert k < |targets| && SizeAt(after, k) < SizeAt(before, k);
    }
  }

  // ----- the whole

  ghost function Targets<T>(numbers: seq<T>, subsets: seq<set<nat>>, add: (T, T) -> T, zero: T): (r: seq<T>)
    ensures |r| == |subsets|
    ensures forall k :: 0 <= k < |r| ==> r[k] == SubsetSum(numbers, subsets[k], add, zero)
  {
    if subsets == [] then []
    else Targets(numbers, subsets[..|subsets| - 1], add, zero) + [SubsetSum(numbers, subsets[|subsets| - 1], add, zero)]
  }

  /** The subset sums, or None when the allowed number of rounds was not enough, which
      takes subsets of that total size.  limit stands for the cutoff that the source
      computes from a logarithm: any will do. */
  method Multisubset<T(!new)>(numbers: seq<T>, subsets: seq<set<nat>>, rounds: nat, limit: nat -> nat,
                              add: (T, T) -> T, zero: T) returns (r: Option<seq<T>>)
    requires CommutativeMonoid(add, zero)
    requires forall k :: 0 <= k < |subsets| ==> forall i :: i in subsets[k] ==> i < |numbers|
    ensures r.Some? ==> |r.value| == |subsets|
    ensures r.Some? ==> forall k :: 0 <= k < |subsets| ==> r.value[k] == SubsetSum(numbers, subsets[k], add, zero)
    ensures SizeOf(subsets) < rounds ==> r.Some?
  {
    hide CommutativeMonoid, SubsetSum, AtTarget;
    ghost var targets := Targets(numbers, subsets, add, zero);
    var numbers' := numbers;
    var n := |subsets|;
    var subsets': map<nat, set<nat>> := map k: nat | k < n :: subsets[k];
    var output := seq(n, _ => zero);
    StartOnTarget(numbers, subsets, subsets', output, add, zero);
    SizeOfStart(subsets, subsets', n);
    ghost var initial := TotalSize(subsets', n);
    for roundcount := 0 to rounds
      invariant OnTarget(numbers', subsets', output, targets, add, zero)
      invariant roundcount + TotalSize(subsets', n) <= initial
    {
      var counts := CountPairs(subsets', n);
      var pairs := MostFrequent(counts, limit(|numbers'|));
      if pairs == [] {
        var o := AddUp(numbers', subsets', output, targets, add, zero);
        return Some(o);
      }
      forall i | 0 <= i < |pairs|
        ensures Somewhere(subsets', pairs[i])
      {
        assert CountOf(subsets', n, pairs[i]) == GetCount(counts, pairs[i]) > 0;
        var k := CountedSomewhere(subsets', n, pairs[i]);
      }
      numbers', subsets', output := MergeRound(numbers', subsets', output, pairs, targets, add, zero);
    }
    r := None;
  }

  function SizeOf(subsets: seq<set<nat>>): nat {
    if subsets == [] then 0 else SizeOf(subsets[..|subsets| - 1]) + |subsets[|subsets| - 1]|
  }

  lemma {:induction false} SizeOfStart(subsets: seq<set<nat>>, m: map<nat, set<nat>>, n: nat)
    requires n <= |subsets| && forall k :: 0 <= k < |subsets| ==> k in m && m[k] == subsets[k]
    ensures TotalSize(m, n) == SizeOf(subsets[..n])
    ensures n == |subsets| ==> TotalSize(m, n) == SizeOf(subsets)
  {
    if n != 0 {
      SizeOfStart(subsets, m, n - 1);
      assert subsets[..n][..n - 1] == subsets[..n - 1];
    }
    assert subsets[..|subsets|] == subsets;
  }

  lemma StartOnTarget<T>(numbers: seq<T>, subsets: seq<set<nat>>, m: map<nat, set<nat>>, output: seq<T>,
                         add: (T, T) -> T, zero: T)
    requires forall k :: 0 <= k < |subsets| ==> forall i :: i in subsets[k] ==> i < |numbers|
    requires forall k: nat :: k in m <==> k < |subsets|
    requires forall k :: k in m ==> m[k] == subsets[k]
    requires |output| == |subsets| && forall k :: 0 <= k < |output| ==> output[k] == zero
    ensures OnTarget(numbers, m, output, Targets(numbers, subsets, add, zero), add, zero)
  {
    var targets := Targets(numbers, subsets, add, zero);
    forall k: nat | k < |targets|
      ensures AtTarget(numbers, m, output, targets, k, add, zero)
    {
      assert m[k] == subsets[k];
    }
  }

  /** The members that are left of every subset are added to its output. */
  method AddUp<T(!new)>(numbers: seq<T>, subsets: map<nat, set<nat>>, output: seq<T>, ghost targets: seq<T>,
                        add: (T, T) -> T, zero: T) returns (o: seq<T>)
    requires CommutativeMonoid(add, zero) && OnTarget(numbers, subsets, output, targets, add, zero)
    ensures o == targets
  {
    hide CommutativeMonoid, SubsetSum;
    o := output;
    for key := 0 to |output|
      invariant |o| == |output|
      invariant forall k :: 0 <= k < key ==> o[k] == targets[k]
      invariant forall k :: key <= k < |o| ==> o[k] == output[k]
    {
      assert AtTarget(numbers, subsets, output, targets, key, add, zero);
      if key in subsets {
        var rest := subsets[key];
        AllLeft(numbers, subsets[key], add, zero);
        while rest != {}
          invariant rest <= subsets[key] && |o| == |output|
          invariant o[key] == SubsetSum(numbers, subsets[key] - rest, add, zero)
          invariant forall k :: 0 <= k < key ==> o[k] == targets[k]
          invariant forall k :: key < k < |o| ==> o[k] == output[k]
        {
          var index :| index in rest;
          ghost var done := subsets[key] - rest;
          SumTakeOut(numbers, done + {index}, index, add, zero);
          assert done + {index} - {index} == done;
          assert subsets[key] - (rest - {index}) == done + {index};
          o := o[key := add(o[key], numbers[index])];
          rest := rest - {index};
        }
        assert subsets[key] - rest == subsets[key];
      }
    }
  }

  lemma AllLeft<T>(numbers: seq<T>, s: set<nat>, add: (T, T) -> T, zero: T)
    ensures SubsetSum(numbers, s - s, add, zero) == zero
  {
    SumOfEmpty(numbers, s - s, add, zero);
  }
}
