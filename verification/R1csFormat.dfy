/** The layout of an R1CS file: constraint_writers/src/r1cs_writer.rs. */
module R1csFormat {
  import opened Wrappers
  import opened ByteStrings

  // ----- little-endian numbers

  /** A number in a field of len bytes. */
  function Le(n: nat, len: nat): (r: Bytes)
    ensures |r| == len
  {
    if len == 0 then [] else [n % 256] + Le(n / 256, len - 1)
  }

  function FromLe(bs: Bytes): nat {
    if bs == [] then 0 else bs[0] + 256 * FromLe(bs[1..])
  }

  /** The bytes of a number without leading zeros; zero takes one byte. */
  function MinimalLe(n: nat): (r: Bytes)
    ensures |r| >= 1
  {
    if n < 256 then [n] else [n % 256] + MinimalLe(n / 256)
  }

  lemma {:induction false} FromLeLe(n: nat, len: nat)
    requires n < Power256(len)
    ensures FromLe(Le(n, len)) == n
  {
    if len > 0 {
      FromLeLe(n / 256, len - 1);
      assert Le(n, len)[1..] == Le(n / 256, len - 1);
    }
  }

  lemma {:induction false} LeZeros(bs: Bytes, len: nat)
    requires |bs| == len && forall i :: 0 <= i < len ==> bs[i] == 0
    ensures bs == Le(0, len)
  {
    if len > 0 {
      LeZeros(bs[1..], len - 1);
      assert bs == [bs[0]] + bs[1..];
    }
  }

  /** Filling up with zeros gives the field, when the number fits. */
  lemma {:induction false} PaddedMinimal(n: nat, len: nat, padding: Bytes)
    requires n < Power256(len) && len >= 1
    requires |MinimalLe(n)| + |padding| == len
    requires forall i :: 0 <= i < |padding| ==> padding[i] == 0
    ensures MinimalLe(n) + padding == Le(n, len)
  {
    assert Power256(1) == 256 * Power256(0) == 256;
    if n < 256 {
      assert |padding| == len - 1;
      LeZeros(padding, len - 1);
      assert n / 256 == 0;
    } else {
      PaddedMinimal(n / 256, len - 1, padding);
      assert MinimalLe(n) + padding == [n % 256] + (MinimalLe(n / 256) + padding);
    }
  }

  // ----- what a file holds

  type LinearCombination = map<nat, nat>

  datatype Constraint = Constraint(a: LinearCombination, b: LinearCombination, c: LinearCombination)

  datatype Header = Header(
    field: nat,
    fieldSize: nat,
    totalWires: nat,
    publicOutputs: nat,
    publicInputs: nat,
    privateInputs: nat,
    numberOfLabels: nat,
    numberOfConstraints: nat)

  datatype GateUsage = GateUsage(name: Bytes, parameters: seq<nat>)

  datatype GateApplication = GateApplication(index: nat, signals: seq<nat>)

  datatype R1cs = R1cs(
    header: Header,
    constraints: seq<Constraint>,
    signals: seq<nat>,
    customGates: bool,
    gatesUsed: Option<seq<GateUsage>>,
    gatesApplied: Option<seq<GateApplication>>)

  // ----- bodies of sections

  /** The terms of a linear combination in some order. */
  function Terms(order: seq<nat>, lc: LinearCombination, fieldSize: nat): Bytes
    requires forall i :: 0 <= i < |order| ==> order[i] in lc
  {
    if order == [] then []
    else Le(order[0], 4) + (Le(lc[order[0]], fieldSize) + Terms(order[1..], lc, fieldSize))
  }

  ghost predicate OrderOf(order: seq<nat>, lc: LinearCombination) {
    && |order| == |lc|
    && (forall i :: 0 <= i < |order| ==> order[i] in lc)
    && (forall k :: k in lc ==> k in order)
    && (forall i, j :: 0 <= i < j < |order| ==> order[i] != order[j])
  }

  function Block(order: seq<nat>, lc: LinearCombination, fieldSize: nat): Bytes
    requires forall i :: 0 <= i < |order| ==> order[i] in lc
  {
    Le(|order|, 4) + Terms(order, lc, fieldSize)
  }

  /** The order in which the terms of three combinations are written. */
  datatype Orders = Orders(a: seq<nat>, b: seq<nat>, c: seq<nat>)

  ghost predicate OrdersOf(o: Orders, cn: Constraint) {
    OrderOf(o.a, cn.a) && OrderOf(o.b, cn.b) && OrderOf(o.c, cn.c)
  }

  ghost function ConstraintBytes(o: Orders, cn: Constraint, fieldSize: nat): Bytes
    requires OrdersOf(o, cn)
  {
    Block(o.a, cn.a, fieldSize) + (Block(o.b, cn.b, fieldSize) + Block(o.c, cn.c, fieldSize))
  }

  ghost predicate AllOrders(os: seq<Orders>, cs: seq<Constraint>) {
    |os| == |cs| && forall i :: 0 <= i < |cs| ==> OrdersOf(os[i], cs[i])
  }

  ghost function ConstraintsBody(os: seq<Orders>, cs: seq<Constraint>, fieldSize: nat): Bytes
    requires AllOrders(os, cs)
  {
    if cs == [] then [] else ConstraintBytes(os[0], cs[0], fieldSize) + ConstraintsBody(os[1..], cs[1..], fieldSize)
  }

  function HeaderBody(h: Header): Bytes {
    Le(h.fieldSize, 4) + (Le(h.field, h.fieldSize) + (Le(h.totalWires, 4) + (Le(h.publicOutputs, 4) + (Le(h.publicInputs, 4)
      + (Le(h.privateInputs, 4) + (Le(h.numberOfLabels, 8) + Le(h.numberOfConstraints, 4)))))))
  }

  /** Numbers in fields of one size. */
  function Numbers(ns: seq<nat>, len: nat): Bytes {
    if ns == [] then [] else Le(ns[0], len) + Numbers(ns[1..], len)
  }

  function UsageBytes(u: GateUsage, fieldSize: nat): Bytes {
    u.name + ([0] + (Le(|u.parameters|, 4) + Numbers(u.parameters, fieldSize)))
  }

  function UsagesBytes(us: seq<GateUsage>, fieldSize: nat): Bytes {
    if us == [] then [] else UsageBytes(us[0], fieldSize) + UsagesBytes(us[1..], fieldSize)
  }

  function UsagesBody(us: seq<GateUsage>, fieldSize: nat): Bytes {
    Le(|us|, 4) + UsagesBytes(us, fieldSize)
  }

  function ApplicationBytes(g: GateApplication): Bytes {
    Le(g.index, 4) + (Le(|g.signals|, 4) + Numbers(g.signals, 8))
  }

  function ApplicationsBytes(gs: seq<GateApplication>): Bytes {
    if gs == [] then [] else ApplicationBytes(gs[0]) + ApplicationsBytes(gs[1..])
  }

  function ApplicationsBody(gs: seq<GateApplication>): Bytes {
    Le(|gs|, 4) + ApplicationsBytes(gs)
  }

  // ----- sections

  datatype Section = Section(kind: nat, body: Bytes)

  const HEADER: nat := 1
  const CONSTRAINTS: nat := 2
  const WIRE2LABEL: nat := 3
  const GATES_USED: nat := 4
  const GATES_APPLIED: nat := 5

  const MAGIC: Bytes := [0x72, 0x31, 0x63, 0x73]
  const VERSION: Bytes := [1, 0, 0, 0]
  const PLACE_HOLDER: Bytes := [3, 3, 3, 3, 3, 3, 3, 3]

  function TypeBytes(kind: nat): (r: Bytes)
    requires kind < 256
    ensures |r| == 4
  {
    [kind, 0, 0, 0]
  }

  function Frame(s: Section): (r: Bytes)
    requires s.kind < 256
    ensures |r| == 12 + |s.body|
  {
    TypeBytes(s.kind) + (Le(|s.body|, 8) + s.body)
  }

  ghost predicate Kinds(ss: seq<Section>) {
    forall i :: 0 <= i < |ss| ==> ss[i].kind < 256
  }

  function Frames(ss: seq<Section>): Bytes
    requires forall i :: 0 <= i < |ss| ==> ss[i].kind < 256
  {
    if ss == [] then [] else Frames(ss[..|ss| - 1]) + Frame(ss[|ss| - 1])
  }

  function Preamble(n: nat): (r: Bytes)
    requires n < 256
    ensures |r| == 12
  {
    MAGIC + VERSION + [n, 0, 0, 0]
  }

  function Layout(n: nat, ss: seq<Section>): Bytes
    requires n < 256 && forall i :: 0 <= i < |ss| ==> ss[i].kind < 256
  {
    Preamble(n) + Frames(ss)
  }

  // ----- what fits into the fields

  ghost predicate FitsCombination(lc: LinearCombination, fieldSize: nat) {
    |lc| < Power256(4) && forall k :: k in lc ==> k < Power256(4) && lc[k] < Power256(fieldSize)
  }

  ghost predicate FitsConstraint(cn: Constraint, fieldSize: nat) {
    FitsCombination(cn.a, fieldSize) && FitsCombination(cn.b, fieldSize) && FitsCombination(cn.c, fieldSize)
  }

  ghost predicate FitsHeader(h: Header) {
    && h.fieldSize >= 1 && h.fieldSize < Power256(4) && h.field < Power256(h.fieldSize)
    && h.totalWires < Power256(4) && h.publicOutputs < Power256(4) && h.publicInputs < Power256(4)
    && h.privateInputs < Power256(4) && h.numberOfLabels < Power256(8) && h.numberOfConstraints < Power256(4)
  }

  ghost predicate FitsNumbers(ns: seq<nat>, len: nat) {
    forall i :: 0 <= i < |ns| ==> ns[i] < Power256(len)
  }

  /** No zero byte in the name. */
  ghost predicate FitsUsage(u: GateUsage, fieldSize: nat) {
    && (forall i :: 0 <= i < |u.name| ==> u.name[i] != 0)
    && |u.parameters| < Power256(4) && FitsNumbers(u.parameters, fieldSize)
  }

  ghost predicate FitsApplication(g: GateApplication) {
    g.index < Power256(4) && |g.signals| < Power256(4) && FitsNumbers(g.signals, 8)
  }

  ghost predicate Fits(info: R1cs) {
    && FitsHeader(info.header)
    && |info.constraints| == info.header.numberOfConstraints && |info.signals| == info.header.totalWires
    && (forall i :: 0 <= i < |info.constraints| ==> FitsConstraint(info.constraints[i], info.header.fieldSize))
    && FitsNumbers(info.signals, 8)
    && (info.customGates <==> info.gatesUsed.Some?) && (info.customGates <==> info.gatesApplied.Some?)
    && (info.customGates ==>
      && |info.gatesUsed.value| < Power256(4) && |info.gatesApplied.value| < Power256(4)
      && (forall i :: 0 <= i < |info.gatesUsed.value| ==> FitsUsage(info.gatesUsed.value[i], info.header.fieldSize))
      && (forall i :: 0 <= i < |info.gatesApplied.value| ==> FitsApplication(info.gatesApplied.value[i])))
  }

  /** The terms of every combination may stand in any order. */
  ghost predicate IsConstraintsBody(body: Bytes, cs: seq<Constraint>, fieldSize: nat) {
    exists os: seq<Orders> :: AllOrders(os, cs) && body == ConstraintsBody(os, cs, fieldSize)
  }

  /** The body of a section of a file with these contents. */
  ghost predicate BodyOf(s: Section, info: R1cs) {
    match s.kind
    case 1 => s.body == HeaderBody(info.header)
    case 2 => IsConstraintsBody(s.body, info.constraints, info.header.fieldSize)
    case 3 => s.body == Numbers(info.signals, 8)
    case 4 => info.gatesUsed.Some? && s.body == UsagesBody(info.gatesUsed.value, info.header.fieldSize)
    case 5 => info.gatesApplied.Some? && s.body == ApplicationsBody(info.gatesApplied.value)
    case _ => false
  }

  function SectionCount(info: R1cs): nat {
    if info.customGates then 5 else 3
  }

  /** All sections of a file, in any order. */
  ghost predicate Describes(ss: seq<Section>, info: R1cs) {
    && |ss| == SectionCount(info)
    && (forall i :: 0 <= i < |ss| ==> 1 <= ss[i].kind <= SectionCount(info) && BodyOf(ss[i], info) && |ss[i].body| < Power256(8))
    && (forall i, j :: 0 <= i < j < |ss| ==> ss[i].kind != ss[j].kind)
    && (forall k :: 1 <= k <= SectionCount(info) ==> HasKind(ss, k))
  }

  ghost predicate HasKind(ss: seq<Section>, k: nat) {
    exists i :: 0 <= i < |ss| && ss[i].kind == k
  }

  // ----- a file under a cursor

  class FileBuffer {
    var data: Bytes
    var pos: nat

    constructor ()
      ensures data == [] && pos == 0
    {
      data, pos := [], 0;
    }

    /** Overwrites what is at the cursor and extends the file where it ends. */
    method WriteAll(bytes: Bytes)
      requires pos <= |data|
      modifies this
      ensures pos == old(pos) + |bytes|
      ensures data == old(data)[..old(pos)] + bytes + (if pos < |old(data)| then old(data)[pos..] else [])
    {
      data := data[..pos] + bytes + if pos + |bytes| < |data| then data[pos + |bytes|..] else [];
      pos := pos + |bytes|;
    }

    method Seek(to: nat)
      modifies this`pos
      ensures pos == to
    {
      pos := to;
    }

    /** Fails when fewer bytes are left. */
    method ReadExact(n: nat) returns (r: Option<Bytes>)
      modifies this`pos
      ensures old(pos) + n <= |data| ==> r == Some(data[old(pos)..old(pos) + n]) && pos == old(pos) + n
      ensures old(pos) + n > |data| ==> r == None && pos == old(pos)
    {
      if pos + n > |data| {
        return None;
      }
      r := Some(data[pos..pos + n]);
      pos := pos + n;
    }
  }
}
