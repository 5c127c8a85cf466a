/** Reading R1CS files: constraint_writers/src/r1cs_reader.rs.  Errors of the source,
    also where it unwraps, are None. */
module R1csReader {
  import opened Wrappers
  import opened ByteStrings
  import opened R1csFormat

  /** The expected bytes lie at a position. */
  ghost predicate AtPos(data: Bytes, pos: nat, expected: Bytes) {
    pos + |expected| <= |data| && data[pos..pos + |expected|] == expected
  }

  lemma AtSplit(data: Bytes, pos: nat, a: Bytes, b: Bytes)
    requires AtPos(data, pos, a + b)
    ensures AtPos(data, pos, a) && AtPos(data, pos + |a|, b)
  {
    var whole := data[pos..pos + |a + b|];
    assert data[pos..pos + |a|] == whole[..|a|] == (a + b)[..|a|];
    assert data[pos + |a|..pos + |a| + |b|] == whole[|a|..] == (a + b)[|a|..];
  }

  method ReadBigint(file: FileBuffer, size: nat, ghost n: nat) returns (r: Option<nat>)
    modifies file`pos
    ensures old(AtPos(file.data, file.pos, Le(n, size))) && n < Power256(size) ==> r == Some(n) && file.pos == old(file.pos) + size
  {
    var buffer := file.ReadExact(size);
    if buffer.None? {
      return None;
    }
    r := Some(FromLe(buffer.value));
    if n < Power256(size) {
      FromLeLe(n, size);
    }
  }

  // ----- linear combinations

  method ReadLinearCombinationBlock(file: FileBuffer, fieldSize: nat, ghost lc: LinearCombination, ghost order: seq<nat>)
    returns (r: Option<LinearCombination>)
    modifies file`pos
    ensures OrderOf(order, lc) && FitsCombination(lc, fieldSize) && old(AtPos(file.data, file.pos, Block(order, lc, fieldSize))) ==>
      r == Some(lc) && file.pos == old(file.pos) + |Block(order, lc, fieldSize)|
  {
    hide Le, Power256, AtPos;
    ghost var good := OrderOf(order, lc) && FitsCombination(lc, fieldSize) && AtPos(file.data, file.pos, Block(order, lc, fieldSize));
    ghost var start := file.pos;
    if good {
      AtSplit(file.data, file.pos, Le(|order|, 4), Terms(order, lc, fieldSize));
    }
    var count := ReadBigint(file, 4, |order|);
    if count.None? {
      return None;
    }
    var combination := ReadTerms(file, fieldSize, count.value, good, order, lc);
    r := combination;
  }

  /** The first i terms have been read, and the others lie ahead. */
  ghost predicate TermsRead(data: Bytes, pos: nat, end: nat, m: LinearCombination, lc: LinearCombination, order: seq<nat>, i: nat, fieldSize: nat)
  {
    && i <= |order| && (forall k :: 0 <= k < |order| ==> order[k] in lc) && FitsCombination(lc, fieldSize)
    && m.Keys == Taken(order, i) && AgreesOn(m, lc)
    && AtPos(data, pos, Terms(order[i..], lc, fieldSize)) && pos + |Terms(order[i..], lc, fieldSize)| == end
  }

  lemma TermsStart(data: Bytes, pos: nat, lc: LinearCombination, order: seq<nat>, fieldSize: nat)
    requires OrderOf(order, lc) && FitsCombination(lc, fieldSize) && AtPos(data, pos, Terms(order, lc, fieldSize))
    ensures TermsRead(data, pos, pos + |Terms(order, lc, fieldSize)|, map[], lc, order, 0, fieldSize)
  {
    assert order[0..] == order;
  }

  lemma TermsNext(data: Bytes, pos: nat, end: nat, m: LinearCombination, lc: LinearCombination, order: seq<nat>, i: nat, fieldSize: nat,
                  pos': nat)
    requires TermsRead(data, pos, end, m, lc, order, i, fieldSize) && i < |order|
    requires AtPos(data, pos', Terms(order[i + 1..], lc, fieldSize))
    requires pos' + |Terms(order[i + 1..], lc, fieldSize)| == end
    ensures TermsRead(data, pos', end, m[order[i] := lc[order[i]]], lc, order, i + 1, fieldSize)
  {
    TakenMore(order, i);
  }

  lemma TermsEnd(data: Bytes, pos: nat, end: nat, m: LinearCombination, lc: LinearCombination, order: seq<nat>, fieldSize: nat)
    requires TermsRead(data, pos, end, m, lc, order, |order|, fieldSize) && OrderOf(order, lc)
    ensures m == lc && pos == end
  {
    AllTaken(order, lc);
    assert order[|order|..] == [];
  }

  lemma TermsAhead(data: Bytes, pos: nat, end: nat, m: LinearCombination, lc: LinearCombination, order: seq<nat>, i: nat, fieldSize: nat)
    requires TermsRead(data, pos, end, m, lc, order, i, fieldSize) && i < |order|
    ensures order[i..] != [] && FitsCombination(lc, fieldSize) && forall k :: 0 <= k < |order[i..]| ==> order[i..][k] in lc
    ensures AtPos(data, pos, Terms(order[i..], lc, fieldSize)) && pos + |Terms(order[i..], lc, fieldSize)| == end
    ensures order[i..][0] == order[i] && order[i..][1..] == order[i + 1..]
  {
  }

  method ReadTerms(file: FileBuffer, fieldSize: nat, count: nat, ghost good: bool, ghost order: seq<nat>, ghost lc: LinearCombination)
    returns (r: Option<LinearCombination>)
    requires good ==> OrderOf(order, lc) && FitsCombination(lc, fieldSize) && count == |order|
    requires good ==> AtPos(file.data, file.pos, Terms(order, lc, fieldSize))
    modifies file`pos
    ensures good ==> r == Some(lc) && file.pos == old(file.pos) + |Terms(order, lc, fieldSize)|
  {
    ghost var end := if good then file.pos + |Terms(order, lc, fieldSize)| else 0;
    if good {
      TermsStart(file.data, file.pos, lc, order, fieldSize);
    }
    hide TermsRead, OrderOf, FitsCombination, AtPos;
    var combination: LinearCombination := map[];
    for i := 0 to count
      invariant good ==> TermsRead(file.data, file.pos, end, combination, lc, order, i, fieldSize)
    {
      ghost var pos := file.pos;
      if good {
        TermsAhead(file.data, file.pos, end, combination, lc, order, i, fieldSize);
      }
      var id, factor := ReadTerm(file, fieldSize, good, if good then order[i..] else [], lc);
      if id.None? || factor.None? {
        return None;
      }
      if good {
        TermsNext(file.data, pos, end, combination, lc, order, i, fieldSize, file.pos);
      }
      combination := combination[id.value := factor.value];
    }
    if good {
      TermsEnd(file.data, file.pos, end, combination, lc, order, fieldSize);
    }
    r := Some(combination);
  }

  ghost predicate AgreesOn(m: LinearCombination, lc: LinearCombination) {
    forall k :: k in m ==> k in lc && m[k] == lc[k]
  }

  ghost function Taken(order: seq<nat>, i: nat): set<nat>
    requires i <= |order|
  {
    set k | k in order[..i]
  }

  lemma TakenMore(order: seq<nat>, i: nat)
    requires i < |order|
    ensures Taken(order, i + 1) == Taken(order, i) + {order[i]}
  {
    assert order[..i + 1] == order[..i] + [order[i]];
  }

  lemma AllTaken(order: seq<nat>, lc: LinearCombination)
    requires OrderOf(order, lc)
    ensures Taken(order, |order|) == lc.Keys
  {
    assert order[..|order|] == order;
  }

  method ReadTerm(file: FileBuffer, fieldSize: nat, ghost good: bool, ghost rest: seq<nat>, ghost lc: LinearCombination)
    returns (id: Option<nat>, factor: Option<nat>)
    requires good ==> rest != [] && FitsCombination(lc, fieldSize) && (forall i :: 0 <= i < |rest| ==> rest[i] in lc)
    requires good ==> AtPos(file.data, file.pos, Terms(rest, lc, fieldSize))
    modifies file`pos
    ensures good ==> id == Some(rest[0]) && factor == Some(lc[rest[0]])
    ensures good ==> AtPos(file.data, file.pos, Terms(rest[1..], lc, fieldSize))
    ensures good ==> file.pos + |Terms(rest[1..], lc, fieldSize)| == old(file.pos) + |Terms(rest, lc, fieldSize)|
  {
    hide Le, Power256, AtPos;
    factor := None;
    if good {
      AtSplit(file.data, file.pos, Le(rest[0], 4), Le(lc[rest[0]], fieldSize) + Terms(rest[1..], lc, fieldSize));
      AtSplit(file.data, file.pos + 4, Le(lc[rest[0]], fieldSize), Terms(rest[1..], lc, fieldSize));
    }
    id := ReadBigint(file, 4, if good then rest[0] else 0);
    if id.None? {
      return;
    }
    factor := ReadBigint(file, fieldSize, if good then lc[rest[0]] else 0);
  }

  method ReadConstraint(file: FileBuffer, fieldSize: nat, ghost good: bool, ghost o: Orders, ghost cn: Constraint)
    returns (r: Option<Constraint>)
    requires good ==> OrdersOf(o, cn) && FitsConstraint(cn, fieldSize) && AtPos(file.data, file.pos, ConstraintBytes(o, cn, fieldSize))
    modifies file`pos
    ensures good ==> r == Some(cn) && file.pos == old(file.pos) + |ConstraintBytes(o, cn, fieldSize)|
  {
    hide AtPos, FitsCombination, Terms;
    if good {
      ConstraintParts(file.data, file.pos, o, cn, fieldSize);
    }
    var a := ReadBlock(file, fieldSize, good, o.a, cn.a);
    if a.None? { return None; }
    var b := ReadBlock(file, fieldSize, good, o.b, cn.b);
    if b.None? { return None; }
    var c := ReadBlock(file, fieldSize, good, o.c, cn.c);
    if c.None? { return None; }
    r := Some(Constraint(a.value, b.value, c.value));
  }

  lemma ConstraintParts(data: Bytes, pos: nat, o: Orders, cn: Constraint, fieldSize: nat)
    requires OrdersOf(o, cn) && AtPos(data, pos, ConstraintBytes(o, cn, fieldSize))
    ensures var a, b := |Block(o.a, cn.a, fieldSize)|, |Block(o.b, cn.b, fieldSize)|;
      && AtPos(data, pos, Block(o.a, cn.a, fieldSize)) && AtPos(data, pos + a, Block(o.b, cn.b, fieldSize))
      && AtPos(data, pos + a + b, Block(o.c, cn.c, fieldSize))
      && |ConstraintBytes(o, cn, fieldSize)| == a + b + |Block(o.c, cn.c, fieldSize)|
  {
    hide AtPos;
    var a, b, c := Block(o.a, cn.a, fieldSize), Block(o.b, cn.b, fieldSize), Block(o.c, cn.c, fieldSize);
    AtSplit(data, pos, a, b + c);
    AtSplit(data, pos + |a|, b, c);
  }

  method ReadBlock(file: FileBuffer, fieldSize: nat, ghost good: bool, ghost order: seq<nat>, ghost lc: LinearCombination)
    returns (r: Option<LinearCombination>)
    requires good ==> OrderOf(order, lc) && FitsCombination(lc, fieldSize) && AtPos(file.data, file.pos, Block(order, lc, fieldSize))
    modifies file`pos
    ensures good ==> r == Some(lc) && file.pos == old(file.pos) + |Block(order, lc, fieldSize)|
  {
    r := ReadLinearCombinationBlock(file, fieldSize, lc, order);
  }

  // ----- sections

  /** The type of a section; its size is skipped. */
  method ReadSection(file: FileBuffer, header: Bytes, ghost s: Section) returns (goBack: Option<nat>)
    requires |header| == 4
    modifies file`pos
    ensures s.kind < 256 && header == TypeBytes(s.kind) && old(AtPos(file.data, file.pos, Frame(s))) ==>
      goBack.Some? && file.pos == old(file.pos) + 12 && AtPos(file.data, file.pos, s.body)
  {
    if s.kind < 256 && header == TypeBytes(s.kind) && AtPos(file.data, file.pos, Frame(s)) {
      AtSplit(file.data, file.pos, TypeBytes(s.kind), Le(|s.body|, 8) + s.body);
      AtSplit(file.data, file.pos + 4, Le(|s.body|, 8), s.body);
    }
    var buffer := file.ReadExact(4);
    if buffer.None? || buffer.value != header {
      return None;
    }
    goBack := Some(file.pos);
    file.Seek(file.pos + |PLACE_HOLDER|);
  }

  method ReadHeader(file: FileBuffer, ghost good: bool, ghost h: Header) returns (r: Option<Header>)
    requires good ==> FitsHeader(h) && AtPos(file.data, file.pos, HeaderBody(h))
    modifies file`pos
    ensures good ==> r == Some(h)
  {
    hide AtPos, Le, Power256;
    if good {
      HeaderParts(file.data, file.pos, h);
    }
    var fieldSize := ReadBigint(file, 4, h.fieldSize);
    if fieldSize.None? { return None; }
    var field := ReadBigint(file, fieldSize.value, h.field);
    if field.None? { return None; }
    var totalWires := ReadBigint(file, 4, h.totalWires);
    if totalWires.None? { return None; }
    var publicOutputs := ReadBigint(file, 4, h.publicOutputs);
    if publicOutputs.None? { return None; }
    var publicInputs := ReadBigint(file, 4, h.publicInputs);
    if publicInputs.None? { return None; }
    var privateInputs := ReadBigint(file, 4, h.privateInputs);
    if privateInputs.None? { return None; }
    var numberOfLabels := ReadBigint(file, 8, h.numberOfLabels);
    if numberOfLabels.None? { return None; }
    var numberOfConstraints := ReadBigint(file, 4, h.numberOfConstraints);
    if numberOfConstraints.None? { return None; }
    r := Some(Header(field.value, fieldSize.value, totalWires.value, publicOutputs.value, publicInputs.value,
                     privateInputs.value, numberOfLabels.value, numberOfConstraints.value));
  }

  lemma HeaderParts(data: Bytes, pos: nat, h: Header)
    requires AtPos(data, pos, HeaderBody(h))
    ensures AtPos(data, pos, Le(h.fieldSize, 4)) && AtPos(data, pos + 4, Le(h.field, h.fieldSize))
    ensures var q := pos + 4 + h.fieldSize;
      && AtPos(data, q, Le(h.totalWires, 4)) && AtPos(data, q + 4, Le(h.publicOutputs, 4))
      && AtPos(data, q + 8, Le(h.publicInputs, 4)) && AtPos(data, q + 12, Le(h.privateInputs, 4))
      && AtPos(data, q + 16, Le(h.numberOfLabels, 8)) && AtPos(data, q + 24, Le(h.numberOfConstraints, 4))
  {
    hide AtPos, Le;
    var q := pos + 4 + h.fieldSize;
    var last := Le(h.numberOfConstraints, 4);
    var labels := Le(h.numberOfLabels, 8) + last;
    var private' := Le(h.privateInputs, 4) + labels;
    var public := Le(h.publicInputs, 4) + private';
    var outputs := Le(h.publicOutputs, 4) + public;
    var wires := Le(h.totalWires, 4) + outputs;
    AtSplit(data, pos, Le(h.fieldSize, 4), Le(h.field, h.fieldSize) + wires);
    AtSplit(data, pos + 4, Le(h.field, h.fieldSize), wires);
    AtSplit(data, q, Le(h.totalWires, 4), outputs);
    AtSplit(data, q + 4, Le(h.publicOutputs, 4), public);
    AtSplit(data, q + 8, Le(h.publicInputs, 4), private');
    AtSplit(data, q + 12, Le(h.privateInputs, 4), labels);
    AtSplit(data, q + 16, Le(h.numberOfLabels, 8), last);
  }

  method ReadConstraints(file: FileBuffer, fieldSize: nat, count: nat, ghost good: bool, ghost os: seq<Orders>, ghost cs: seq<Constraint>)
    returns (r: Option<seq<Constraint>>)
    requires good ==> AllOrders(os, cs) && |cs| == count && (forall i :: 0 <= i < |cs| ==> FitsConstraint(cs[i], fieldSize))
    requires good ==> AtPos(file.data, file.pos, ConstraintsBody(os, cs, fieldSize))
    modifies file`pos
    ensures good ==> r == Some(cs)
  {
    hide AtPos, OrdersOf, FitsConstraint, ConstraintBytes;
    var constraints: seq<Constraint> := [];
    if good {
      assert os[0..] == os && cs[0..] == cs;
    }
    while |constraints| < count
      invariant good ==> |constraints| <= count && constraints == cs[..|constraints|] && AllOrders(os[|constraints|..], cs[|constraints|..])
      invariant good ==> AtPos(file.data, file.pos, ConstraintsBody(os[|constraints|..], cs[|constraints|..], fieldSize))
      decreases count - |constraints|
    {
      ghost var i := |constraints|;
      ghost var o, cn := if good then os[i] else Orders([], [], []), if good then cs[i] else Constraint(map[], map[], map[]);
      if good {
        assert os[i..][1..] == os[i + 1..] && cs[i..][1..] == cs[i + 1..];
        AtSplit(file.data, file.pos, ConstraintBytes(o, cn, fieldSize), ConstraintsBody(os[i + 1..], cs[i + 1..], fieldSize));
      }
      var c := ReadConstraint(file, fieldSize, good, o, cn);
      if c.None? {
        return None;
      }
      constraints := constraints + [c.value];
      assert good ==> cs[..i + 1] == cs[..i] + [cs[i]];
    }
    assert good ==> cs[..|cs|] == cs;
    r := Some(constraints);
  }

  method ReadNumbers(file: FileBuffer, count: nat, len: nat, ghost good: bool, ghost ns: seq<nat>) returns (r: Option<seq<nat>>)
    requires good ==> |ns| == count && FitsNumbers(ns, len) && AtPos(file.data, file.pos, Numbers(ns, len))
    modifies file`pos
    ensures good ==> r == Some(ns) && file.pos == old(file.pos) + |Numbers(ns, len)|
  {
    hide AtPos, Le, Power256;
    var numbers: seq<nat> := [];
    ghost var end := if good then file.pos + |Numbers(ns, len)| else 0;
    assert good ==> ns[0..] == ns;
    for i := 0 to count
      invariant good ==> numbers == ns[..i] && AtPos(file.data, file.pos, Numbers(ns[i..], len))
      invariant good ==> file.pos + |Numbers(ns[i..], len)| == end
    {
      ghost var n := if good then ns[i] else 0;
      if good {
        assert ns[i..][1..] == ns[i + 1..];
        AtSplit(file.data, file.pos, Le(n, len), Numbers(ns[i + 1..], len));
      }
      var x := ReadBigint(file, len, n);
      if x.None? {
        return None;
      }
      numbers := numbers + [x.value];
      assert good ==> ns[..i + 1] == ns[..i] + [ns[i]];
    }
    if good {
      assert ns[..|ns|] == ns && ns[|ns|..] == [];
    }
    r := Some(numbers);
  }

  /** Up to the next zero byte. */
  method ReadName(file: FileBuffer, ghost good: bool, ghost name: Bytes) returns (r: Option<Bytes>)
    requires good ==> AtPos(file.data, file.pos, name + [0]) && forall i :: 0 <= i < |name| ==> name[i] != 0
    modifies file`pos
    ensures good ==> r == Some(name) && file.pos == old(file.pos) + |name| + 1
  {
    var read: Bytes := [];
    ghost var start := file.pos;
    while true
      invariant good ==> |read| <= |name| && read == name[..|read|] && file.pos == start + |read|
      invariant file.pos <= |file.data| || file.pos == start
      decreases if file.pos <= |file.data| then |file.data| - file.pos else 0
    {
      ghost var i := |read|;
      if good {
        assert file.data[start + i] == (name + [0])[i];
        assert i < |name| ==> (name + [0])[i] == name[i] != 0;
        assert name[..|name|] == name;
      }
      var buffer := file.ReadExact(1);
      if buffer.None? {
        return None;
      }
      if buffer.value[0] == 0 {
        return Some(read);
      }
      read := read + [buffer.value[0]];
      assert good ==> name[..i + 1] == name[..i] + [name[i]];
    }
  }

  method ReadGateUsage(file: FileBuffer, fieldSize: nat, ghost good: bool, ghost u: GateUsage) returns (r: Option<GateUsage>)
    requires good ==> FitsUsage(u, fieldSize) && AtPos(file.data, file.pos, UsageBytes(u, fieldSize))
    modifies file`pos
    ensures good ==> r == Some(u) && file.pos == old(file.pos) + |UsageBytes(u, fieldSize)|
  {
    hide AtPos, Le, Power256;
    if good {
      var rest := Le(|u.parameters|, 4) + Numbers(u.parameters, fieldSize);
      assert u.name + ([0] + rest) == (u.name + [0]) + rest;
      AtSplit(file.data, file.pos, u.name + [0], rest);
      AtSplit(file.data, file.pos + |u.name| + 1, Le(|u.parameters|, 4), Numbers(u.parameters, fieldSize));
    }
    var name := ReadName(file, good, u.name);
    if name.None? { return None; }
    var count := ReadBigint(file, 4, |u.parameters|);
    if count.None? { return None; }
    var parameters := ReadNumbers(file, count.value, fieldSize, good, u.parameters);
    if parameters.None? { return None; }
    r := Some(GateUsage(name.value, parameters.value));
  }

  method ReadGateUsages(file: FileBuffer, fieldSize: nat, ghost good: bool, ghost us: seq<GateUsage>) returns (r: Option<seq<GateUsage>>)
    requires good ==> |us| < Power256(4) && (forall i :: 0 <= i < |us| ==> FitsUsage(us[i], fieldSize))
    requires good ==> AtPos(file.data, file.pos, UsagesBody(us, fieldSize))
    modifies file`pos
    ensures good ==> r == Some(us)
  {
    hide AtPos, Le, Power256, FitsUsage, UsageBytes;
    if good {
      AtSplit(file.data, file.pos, Le(|us|, 4), UsagesBytes(us, fieldSize));
      assert us[0..] == us;
    }
    var count := ReadBigint(file, 4, |us|);
    if count.None? { return None; }
    var usages: seq<GateUsage> := [];
    for i := 0 to count.value
      invariant good ==> count.value == |us| && usages == us[..i] && AtPos(file.data, file.pos, UsagesBytes(us[i..], fieldSize))
    {
      ghost var u := if good then us[i] else GateUsage([], []);
      if good {
        assert us[i..][1..] == us[i + 1..];
        AtSplit(file.data, file.pos, UsageBytes(u, fieldSize), UsagesBytes(us[i + 1..], fieldSize));
      }
      var x := ReadGateUsage(file, fieldSize, good, u);
      if x.None? { return None; }
      usages := usages + [x.value];
      assert good ==> us[..i + 1] == us[..i] + [us[i]];
    }
    assert good ==> us[..|us|] == us;
    r := Some(usages);
  }

  method ReadGateApplication(file: FileBuffer, ghost good: bool, ghost g: GateApplication) returns (r: Option<GateApplication>)
    requires good ==> FitsApplication(g) && AtPos(file.data, file.pos, ApplicationBytes(g))
    modifies file`pos
    ensures good ==> r == Some(g) && file.pos == old(file.pos) + |ApplicationBytes(g)|
  {
    hide AtPos, Le, Power256;
    if good {
      AtSplit(file.data, file.pos, Le(g.index, 4), Le(|g.signals|, 4) + Numbers(g.signals, 8));
      AtSplit(file.data, file.pos + 4, Le(|g.signals|, 4), Numbers(g.signals, 8));
    }
    var index := ReadBigint(file, 4, g.index);
    if index.None? { return None; }
    var count := ReadBigint(file, 4, |g.signals|);
    if count.None? { return None; }
    var signals := ReadNumbers(file, count.value, 8, good, g.signals);
    if signals.None? { return None; }
    r := Some(GateApplication(index.value, signals.value));
  }

  method ReadGateApplications(file: FileBuffer, ghost good: bool, ghost gs: seq<GateApplication>) returns (r: Option<seq<GateApplication>>)
    requires good ==> |gs| < Power256(4) && (forall i :: 0 <= i < |gs| ==> FitsApplication(gs[i]))
    requires good ==> AtPos(file.data, file.pos, ApplicationsBody(gs))
    modifies file`pos
    ensures good ==> r == Some(gs)
  {
    hide AtPos, Le, Power256, FitsApplication, ApplicationBytes;
    if good {
      AtSplit(file.data, file.pos, Le(|gs|, 4), ApplicationsBytes(gs));
      assert gs[0..] == gs;
    }
    var count := ReadBigint(file, 4, |gs|);
    if count.None? { return None; }
    var applications: seq<GateApplication> := [];
    for i := 0 to count.value
      invariant good ==> count.value == |gs| && applications == gs[..i] && AtPos(file.data, file.pos, ApplicationsBytes(gs[i..]))
    {
      ghost var g := if good then gs[i] else GateApplication(0, []);
      if good {
        assert gs[i..][1..] == gs[i + 1..];
        AtSplit(file.data, file.pos, ApplicationBytes(g), ApplicationsBytes(gs[i + 1..]));
      }
      var x := ReadGateApplication(file, good, g);
      if x.None? { return None; }
      applications := applications + [x.value];
      assert good ==> gs[..i + 1] == gs[..i] + [gs[i]];
    }
    assert good ==> gs[..|gs|] == gs;
    r := Some(applications);
  }

  // ----- a whole file

  /** A file that holds these sections, which describe these contents. */
  ghost predicate IsFile(data: Bytes, ss: seq<Section>, info: R1cs) {
    Kinds(ss) && Describes(ss, info) && Fits(info) && data == Layout(SectionCount(info), ss)
  }

  ghost function StartOf(ss: seq<Section>, i: nat): nat
    requires i <= |ss| && Kinds(ss)
  {
    12 + |Frames(ss[..i])|
  }

  lemma {:induction false} FrameAt(ss: seq<Section>, i: nat)
    requires Kinds(ss) && i < |ss|
    ensures |Frames(ss[..i])| + |Frame(ss[i])| <= |Frames(ss)|
    ensures Frames(ss)[|Frames(ss[..i])|..|Frames(ss[..i])| + |Frame(ss[i])|] == Frame(ss[i])
  {
    hide *;
    var last := |ss| - 1;
    var front := ss[..last];
    FramesLast(ss);
    if i < last {
      FrameAt(front, i);
      assert front[..i] == ss[..i] && front[i] == ss[i];
      SliceStays(Frames(front), Frame(ss[last]), |Frames(ss[..i])|, |Frames(ss[..i])| + |Frame(ss[i])|);
    } else {
      SliceBehind(Frames(front), Frame(ss[last]));
    }
  }

  lemma FramesLast(ss: seq<Section>)
    requires Kinds(ss) && ss != []
    ensures Kinds(ss[..|ss| - 1]) && (forall i :: 0 <= i < |ss| ==> ss[i].kind < 256)
    ensures Frames(ss) == Frames(ss[..|ss| - 1]) + Frame(ss[|ss| - 1])
  {
  }

  lemma SliceStays(a: Bytes, b: Bytes, i: nat, j: nat)
    requires i <= j <= |a|
    ensures (a + b)[i..j] == a[i..j]
  {
  }

  lemma SliceBehind(a: Bytes, b: Bytes)
    ensures (a + b)[|a|..|a| + |b|] == b
  {
  }

  lemma SectionAt(data: Bytes, ss: seq<Section>, info: R1cs, i: nat)
    requires IsFile(data, ss, info) && i < |ss|
    ensures AtPos(data, StartOf(ss, i), Frame(ss[i])) && StartOf(ss, i + 1) == StartOf(ss, i) + 12 + |ss[i].body|
  {
    hide *;
    FileParts(data, ss, info);
    FrameAt(ss, i);
    NextStart(ss, i);
    Behind(data, Preamble(SectionCount(info)), Frames(ss), |Frames(ss[..i])|, Frame(ss[i]));
    StartIs(ss, i);
  }

  lemma FileParts(data: Bytes, ss: seq<Section>, info: R1cs)
    requires IsFile(data, ss, info)
    ensures Kinds(ss) && SectionCount(info) < 256
    ensures forall i :: 0 <= i < |ss| ==> ss[i].kind < 256
    ensures data == Preamble(SectionCount(info)) + Frames(ss)
  {
  }

  lemma StartIs(ss: seq<Section>, i: nat)
    requires i <= |ss| && Kinds(ss)
    ensures forall j :: 0 <= j < |ss[..i]| ==> ss[..i][j].kind < 256
    ensures StartOf(ss, i) == 12 + |Frames(ss[..i])|
  {
  }

  lemma NextStart(ss: seq<Section>, i: nat)
    requires Kinds(ss) && i < |ss|
    ensures StartOf(ss, i + 1) == StartOf(ss, i) + 12 + |ss[i].body|
  {
    assert ss[..i + 1][..i] == ss[..i];
  }

  lemma Behind(data: Bytes, a: Bytes, b: Bytes, p: nat, f: Bytes)
    requires data == a + b && p + |f| <= |b| && b[p..p + |f|] == f
    ensures AtPos(data, |a| + p, f)
  {
    assert data[|a| + p..|a| + p + |f|] == b[p..p + |f|];
  }

  method ReadInitialization(file: FileBuffer, ghost ss: seq<Section>, ghost info: R1cs) returns (r: Option<nat>)
    requires file.pos == 0
    modifies file`pos
    ensures IsFile(file.data, ss, info) ==> r == Some(SectionCount(info)) && file.pos == 12
  {
    if IsFile(file.data, ss, info) {
      PreambleAt(file.data, ss, info);
    }
    var magic := file.ReadExact(4);
    if magic.None? || magic.value != MAGIC { return None; }
    var version := file.ReadExact(4);
    if version.None? || version.value != VERSION { return None; }
    var count := file.ReadExact(4);
    if count.None? { return None; }
    r := Some(count.value[0]);
  }

  lemma PreambleAt(data: Bytes, ss: seq<Section>, info: R1cs)
    requires IsFile(data, ss, info)
    ensures |data| >= 12 && data[0..4] == MAGIC && data[4..8] == VERSION && data[8..12] == [SectionCount(info), 0, 0, 0]
  {
    var p := Preamble(SectionCount(info));
    assert data[..12] == p;
    assert data[0..4] == p[0..4] && data[4..8] == p[4..8] && data[8..12] == p[8..12];
  }

  type Starts = map<nat, nat>

  /** The first i sections have been found. */
  ghost predicate Found(starts: Starts, ss: seq<Section>, i: nat)
    requires Kinds(ss) && i <= |ss|
  {
    forall j :: 0 <= j < i ==> ss[j].kind in starts && starts[ss[j].kind] == StartOf(ss, j)
  }

  lemma FoundMore(starts: Starts, data: Bytes, ss: seq<Section>, info: R1cs, i: nat)
    requires IsFile(data, ss, info) && i < |ss| && Found(starts, ss, i)
    ensures Found(starts[ss[i].kind := StartOf(ss, i)], ss, i + 1)
  {
  }

  /** Where every section begins; a later section of a type hides an earlier one. */
  method FindSections(file: FileBuffer, count: nat, ghost ss: seq<Section>, ghost info: R1cs) returns (r: Option<Starts>)
    requires IsFile(file.data, ss, info) ==> count == SectionCount(info) && file.pos == 12
    modifies file`pos
    ensures IsFile(file.data, ss, info) ==> r.Some? && Found(r.value, ss, |ss|)
  {
    hide Frame, Layout, Frames, BodyOf, Fits, AtPos;
    ghost var good := IsFile(file.data, ss, info);
    var currentOffset := 0;
    var starts: Starts := map[];
    StartZero(ss);
    for i := 0 to count
      invariant good ==> Found(starts, ss, i) && file.pos + currentOffset == StartOf(ss, i)
    {
      var newOffset := file.pos + currentOffset;
      file.Seek(newOffset);
      var kind, size := ReadFrame(file, good, ss, info, i);
      if kind.None? || size.None? || !(1 <= kind.value <= count) {
        return None;
      }
      if good {
        SectionAt(file.data, ss, info, i);
        FoundMore(starts, file.data, ss, info, i);
      }
      starts := starts[kind.value := newOffset];
      currentOffset := size.value;
    }
    r := Some(starts);
  }

  lemma StartZero(ss: seq<Section>)
    ensures Kinds(ss) ==> StartOf(ss, 0) == 12
  {
    if Kinds(ss) {
      assert ss[..0] == [];
    }
  }

  method ReadFrame(file: FileBuffer, ghost good: bool, ghost ss: seq<Section>, ghost info: R1cs, ghost i: nat)
    returns (kind: Option<nat>, size: Option<nat>)
    requires good ==> IsFile(file.data, ss, info) && i < |ss| && file.pos == StartOf(ss, i)
    modifies file`pos
    ensures good ==> kind == Some(ss[i].kind) && size == Some(|ss[i].body|) && file.pos == StartOf(ss, i) + 12
  {
    hide Layout, Frames, BodyOf, Fits, AtPos, Le, Power256;
    kind, size := None, None;
    if good {
      SectionAt(file.data, ss, info, i);
      AtSplit(file.data, file.pos, TypeBytes(ss[i].kind), Le(|ss[i].body|, 8) + ss[i].body);
      AtSplit(file.data, file.pos + 4, Le(|ss[i].body|, 8), ss[i].body);
      AtIs(file.data, file.pos, TypeBytes(ss[i].kind));
    }
    var buffer := file.ReadExact(4);
    if buffer.None? {
      return;
    }
    kind := Some(buffer.value[0]);
    size := ReadBigint(file, 8, if good then |ss[i].body| else 0);
  }

  lemma AtIs(data: Bytes, pos: nat, expected: Bytes)
    requires AtPos(data, pos, expected)
    ensures pos + |expected| <= |data| && data[pos..pos + |expected|] == expected
  {
  }

  /** The section of a kind, with the cursor at its body. */
  method EnterSection(file: FileBuffer, starts: Starts, kind: nat, ghost good: bool, ghost ss: seq<Section>, ghost info: R1cs)
    returns (goBack: Option<nat>, ghost body: Bytes)
    requires 1 <= kind <= 5
    requires good ==> IsFile(file.data, ss, info) && Found(starts, ss, |ss|) && kind <= SectionCount(info)
    modifies file`pos
    ensures good ==> goBack.Some? && BodyOf(Section(kind, body), info) && AtPos(file.data, file.pos, body)
  {
    hide Layout, Frames, Frame, BodyOf, Fits, AtPos;
    body := [];
    ghost var s := Section(kind, []);
    if good {
      assert HasKind(ss, kind);
      var i :| 0 <= i < |ss| && ss[i].kind == kind;
      SectionAt(file.data, ss, info, i);
      s := ss[i];
      body := s.body;
    }
    if kind !in starts {
      return None, body;
    }
    file.Seek(starts[kind]);
    goBack := ReadSection(file, TypeBytes(kind), s);
  }

  /** The size is read again; the cursor stays. */
  method EndSection(file: FileBuffer, goBack: nat) returns (size: Option<nat>)
    modifies file`pos
    ensures file.pos == old(file.pos)
  {
    var goBack1 := file.pos;
    file.Seek(goBack);
    size := ReadBigint(file, 8, 0);
    file.Seek(goBack1);
  }

  method ReadPlainSections(file: FileBuffer, starts: Starts, ghost ss: seq<Section>, ghost info: R1cs)
    returns (r: Option<(Header, seq<Constraint>, seq<nat>)>)
    requires IsFile(file.data, ss, info) ==> Found(starts, ss, |ss|)
    modifies file`pos
    ensures IsFile(file.data, ss, info) ==> r == Some((info.header, info.constraints, info.signals))
  {
    hide Describes, Layout, AtPos, HeaderBody, ConstraintsBody, Numbers, FitsConstraint, FitsNumbers, AllOrders, FitsHeader;
    ghost var good := IsFile(file.data, ss, info);
    var start;
    ghost var body;
    start, body := EnterSection(file, starts, HEADER, good, ss, info);
    if start.None? { return None; }
    var header := ReadHeader(file, good, info.header);
    if header.None? { return None; }
    var _ := EndSection(file, start.value);
    start, body := EnterSection(file, starts, CONSTRAINTS, good, ss, info);
    if start.None? { return None; }
    ghost var os: seq<Orders> := [];
    if good {
      os :| AllOrders(os, info.constraints) && body == ConstraintsBody(os, info.constraints, info.header.fieldSize);
    }
    var constraints := ReadConstraints(file, header.value.fieldSize, header.value.numberOfConstraints, good, os, info.constraints);
    if constraints.None? { return None; }
    var _ := EndSection(file, start.value);
    start, body := EnterSection(file, starts, WIRE2LABEL, good, ss, info);
    if start.None? { return None; }
    var signals := ReadNumbers(file, header.value.totalWires, 8, good, info.signals);
    if signals.None? { return None; }
    var _ := EndSection(file, start.value);
    r := Some((header.value, constraints.value, signals.value));
  }

  method ReadGateSections(file: FileBuffer, starts: Starts, fieldSize: nat, ghost ss: seq<Section>, ghost info: R1cs)
    returns (r: Option<(seq<GateUsage>, seq<GateApplication>)>)
    requires IsFile(file.data, ss, info) ==> Found(starts, ss, |ss|) && info.customGates && fieldSize == info.header.fieldSize
    modifies file`pos
    ensures IsFile(file.data, ss, info) ==> r.Some? && info.gatesUsed == Some(r.value.0) && info.gatesApplied == Some(r.value.1)
  {
    hide Describes, Layout, AtPos, UsagesBody, ApplicationsBody, FitsUsage, FitsApplication;
    ghost var good := IsFile(file.data, ss, info);
    var start;
    ghost var body;
    start, body := EnterSection(file, starts, GATES_USED, good, ss, info);
    if start.None? { return None; }
    var usages := ReadGateUsages(file, fieldSize, good, if good then info.gatesUsed.value else []);
    if usages.None? { return None; }
    var _ := EndSection(file, start.value);
    start, body := EnterSection(file, starts, GATES_APPLIED, good, ss, info);
    if start.None? { return None; }
    var applications := ReadGateApplications(file, good, if good then info.gatesApplied.value else []);
    if applications.None? { return None; }
    var _ := EndSection(file, start.value);
    r := Some((usages.value, applications.value));
  }

  /** Reads back what a file describes, whatever the order of its sections. */
  method ReadR1cs(file: FileBuffer, ghost ss: seq<Section>, ghost info: R1cs) returns (r: Option<R1cs>)
    requires file.pos == 0
    modifies file`pos
    ensures IsFile(file.data, ss, info) ==> r == Some(info)
  {
    hide Describes, Layout, BodyOf;
    var count := ReadInitialization(file, ss, info);
    if count.None? { return None; }
    var starts := FindSections(file, count.value, ss, info);
    if starts.None? { return None; }
    var plain := ReadPlainSections(file, starts.value, ss, info);
    if plain.None? { return None; }
    var (header, constraints, signals) := plain.value;
    if count.value != 5 {
      return Some(R1cs(header, constraints, signals, false, None, None));
    }
    var gates := ReadGateSections(file, starts.value, header.fieldSize, ss, info);
    if gates.None? { return None; }
    r := Some(R1cs(header, constraints, signals, true, Some(gates.value.0), Some(gates.value.1)));
  }
}
