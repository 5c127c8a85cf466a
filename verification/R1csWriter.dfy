/** Writing R1CS files: constraint_writers/src/r1cs_writer.rs, and the order of sections in
    constraint_list/src/r1cs_porting.rs. */
module R1csWriter {
  import opened ByteStrings
  import opened R1csFormat

  // ----- numbers

  method IntoFormat(number: Bytes, withBytes: nat) returns (value: Bytes, size: nat)
    ensures size == |value| == if |number| < withBytes then withBytes else |number|
    ensures value[..|number|] == number && forall i :: |number| <= i < |value| ==> value[i] == 0
  {
    value := number;
    while |value| < withBytes
      invariant |number| <= |value| && (|value| <= withBytes || value == number)
      invariant value[..|number|] == number && forall i :: |number| <= i < |value| ==> value[i] == 0
    {
      value := value + [0];
    }
    size := |value|;
  }

  /** A number in a field, padded with zeros.  It takes exactly the bytes of the field if it fits;
      otherwise it takes more. */
  method BigintAsBytes(number: nat, withBytes: nat) returns (value: Bytes, size: nat)
    ensures size == |value| && (size == withBytes <==> withBytes >= 1 && number < Power256(withBytes))
    ensures withBytes >= 1 && number < Power256(withBytes) ==> value == Le(number, withBytes)
    ensures size > withBytes ==> value == MinimalLe(number)
  {
    var minimal := MinimalLe(number);
    value, size := IntoFormat(minimal, withBytes);
    assert value == minimal + value[|minimal|..];
    if withBytes >= 1 && number < Power256(withBytes) {
      MinimalFits(number, withBytes);
      PaddedMinimal(number, withBytes, value[|minimal|..]);
    } else {
      MinimalExceeds(number, withBytes);
      assert value == minimal;
    }
  }

  lemma {:induction false} MinimalExceeds(n: nat, len: nat)
    requires len == 0 || n >= Power256(len)
    ensures |MinimalLe(n)| > len
  {
    if len > 1 {
      MinimalExceeds(n / 256, len - 1);
    }
  }

  lemma {:induction false} MinimalFits(n: nat, len: nat)
    requires len >= 1 && n < Power256(len)
    ensures |MinimalLe(n)| <= len
  {
    assert Power256(1) == 256 * Power256(0) == 256;
    if n >= 256 {
      MinimalFits(n / 256, len - 1);
    }
  }

  // ----- linear combinations

  /** Lexicographic order of byte strings. */
  predicate LexLess(a: Bytes, b: Bytes) {
    if b == [] then false
    else if a == [] then true
    else a[0] < b[0] || (a[0] == b[0] && LexLess(a[1..], b[1..]))
  }

  lemma {:induction false} LexTransitive(a: Bytes, b: Bytes, c: Bytes)
    requires !LexLess(b, a) && !LexLess(c, b)
    ensures !LexLess(c, a)
  {
    if a != [] && b != [] && c != [] {
      if a[0] == b[0] && b[0] == c[0] {
        LexTransitive(a[1..], b[1..], c[1..]);
      }
    }
  }

  predicate KeyBefore(x: nat, y: nat) {
    !LexLess(MinimalLe(y), MinimalLe(x))
  }

  lemma {:induction false} LexTotal(a: Bytes, b: Bytes)
    ensures !(LexLess(a, b) && LexLess(b, a))
  {
    if a != [] && b != [] {
      LexTotal(a[1..], b[1..]);
    }
  }

  /** The keys sorted as byte strings. */
  method SortedKeys(keys: set<nat>) returns (order: seq<nat>)
    ensures |order| == |keys| && (forall k :: k in keys <==> k in order)
    ensures forall i, j :: 0 <= i < j < |order| ==> order[i] != order[j] && KeyBefore(order[i], order[j])
  {
    hide LexLess, KeyBefore;
    order := [];
    var rest := keys;
    while rest != {}
      invariant rest <= keys && |order| + |rest| == |keys|
      invariant forall k :: k in keys <==> k in order || k in rest
      invariant forall i :: 0 <= i < |order| ==> order[i] !in rest
      invariant forall i, k :: 0 <= i < |order| && k in rest ==> KeyBefore(order[i], k)
      invariant forall i, j :: 0 <= i < j < |order| ==> order[i] != order[j] && KeyBefore(order[i], order[j])
      decreases |rest|
    {
      var best := LeastKey(rest);
      order := order + [best];
      rest := rest - {best};
    }
  }

  method LeastKey(keys: set<nat>) returns (best: nat)
    requires keys != {}
    ensures best in keys && forall k :: k in keys ==> KeyBefore(best, k)
  {
    best :| best in keys;
    var rest := keys - {best};
    SelfBefore(best);
    while rest != {}
      invariant rest <= keys && best in keys
      invariant forall k :: k in keys - rest ==> KeyBefore(best, k)
    {
      var k :| k in rest;
      if LexLess(MinimalLe(k), MinimalLe(best)) {
        LexTotal(MinimalLe(k), MinimalLe(best));
        forall x | x in keys - rest
          ensures KeyBefore(k, x)
        {
          LexTransitive(MinimalLe(k), MinimalLe(best), MinimalLe(x));
        }
        SelfBefore(k);
        best := k;
      }
      rest := rest - {k};
    }
  }

  lemma SelfBefore(k: nat)
    ensures KeyBefore(k, k)
  {
    LexTotal(MinimalLe(k), MinimalLe(k));
  }

  method ObtainLinearCombinationBlock(lc: LinearCombination, fieldSize: nat)
    returns (block: Bytes, size: nat, ghost order: seq<nat>)
    requires fieldSize >= 1 && FitsCombination(lc, fieldSize)
    ensures OrderOf(order, lc) && block == Block(order, lc, fieldSize) && size == |block|
    ensures forall i, j :: 0 <= i < j < |order| ==> KeyBefore(order[i], order[j])
  {
    hide KeyBefore, Le;
    var stream, bytes := BigintAsBytes(|lc|, 4);
    var keys := SortedKeys(lc.Keys);
    order := keys;
    var terms, termsSize := WriteTerms(keys, lc, fieldSize);
    block, size := stream + terms, bytes + termsSize;
  }

  method WriteTerms(keys: seq<nat>, lc: LinearCombination, fieldSize: nat) returns (terms: Bytes, size: nat)
    requires fieldSize >= 1 && FitsCombination(lc, fieldSize) && forall k :: 0 <= k < |keys| ==> keys[k] in lc
    ensures terms == Terms(keys, lc, fieldSize) && size == |terms|
  {
    hide Le, Power256;
    terms, size := [], 0;
    assert keys[0..] == keys;
    for i := 0 to |keys|
      invariant size == |terms|
      invariant terms + Terms(keys[i..], lc, fieldSize) == Terms(keys, lc, fieldSize)
    {
      ghost var start := terms;
      var id, idBytes := BigintAsBytes(keys[i], 4);
      var factor, factorBytes := BigintAsBytes(lc[keys[i]], fieldSize);
      size := size + idBytes + factorBytes;
      terms := terms + id + factor;
      TermsStep(start, keys, i, lc, fieldSize);
    }
    assert keys[|keys|..] == [];
    assert terms + [] == terms;
  }

  lemma TermsStep(start: Bytes, keys: seq<nat>, i: nat, lc: LinearCombination, fieldSize: nat)
    requires (forall k :: 0 <= k < |keys| ==> keys[k] in lc) && i < |keys|
    ensures start + Terms(keys[i..], lc, fieldSize)
      == start + Le(keys[i], 4) + Le(lc[keys[i]], fieldSize) + Terms(keys[i + 1..], lc, fieldSize)
  {
    hide Le;
    assert keys[i..][1..] == keys[i + 1..];
  }

  // ----- files

  lemma LayoutMore(n: nat, before: seq<Section>, s: Section)
    requires n < 256 && Kinds(before) && s.kind < 256
    ensures Kinds(before + [s]) && Layout(n, before + [s]) == Layout(n, before) + Frame(s)
  {
    var more := before + [s];
    assert more[..|more| - 1] == before;
  }

  lemma KindsMore(before: seq<Section>, s: Section, k: nat)
    ensures HasKind(before + [s], k) <==> HasKind(before, k) || s.kind == k
  {
    var more := before + [s];
    if HasKind(before, k) {
      var i :| 0 <= i < |before| && before[i].kind == k;
      assert more[i].kind == k;
    }
    assert more[|before|] == s;
  }

  lemma FrameJoined(head: Bytes, kind: nat, body: Bytes)
    requires kind < 256
    ensures head + TypeBytes(kind) + Le(|body|, 8) + body == head + Frame(Section(kind, body))
  {
    Joined(head, TypeBytes(kind), Le(|body|, 8), body);
    hide Le, TypeBytes;
  }

  lemma Joined(a: Bytes, b: Bytes, c: Bytes, d: Bytes)
    ensures a + b + c + d == a + (b + (c + d))
  {
  }

  /** end_section: back to the place holder, the size, and on to where the cursor was. */
  method PatchSize(file: FileBuffer, goBack: nat, size: nat, ghost head: Bytes, ghost body: Bytes)
    requires file.data == head + PLACE_HOLDER + body && file.pos == |file.data|
    requires goBack == |head| && size < Power256(8)
    modifies file
    ensures file.data == head + Le(size, 8) + body && file.pos == |file.data|
  {
    var goBack1 := file.pos;
    file.Seek(goBack);
    var stream, _ := BigintAsBytes(size, 8);
    hide Le, Power256;
    Overwritten(head, PLACE_HOLDER, body, stream);
    file.WriteAll(stream);
    file.Seek(goBack1);
  }

  lemma Overwritten(head: Bytes, before: Bytes, body: Bytes, after: Bytes)
    requires |before| == |after|
    ensures var data := head + before + body;
      data[..|head|] + after + (if |head| + |after| < |data| then data[|head| + |after|..] else []) == head + after + body
  {
  }

  class R1CSWriter {
    var file: FileBuffer
    var fieldSize: nat
    var sections: seq<bool>
    ghost var count: nat
    ghost var done: seq<Section>

    /** The file consists of the finished sections, and the cursor is at its end. */
    ghost predicate Valid()
      reads this, file
    {
      && fieldSize >= 1 && count < 256 && |sections| == 5 && Kinds(done)
      && file.data == Layout(count, done) && file.pos == |file.data|
      && forall k :: 0 <= k < 5 ==> (sections[k] <==> HasKind(done, k + 1))
    }

    constructor (fieldSize: nat, customGates: bool)
      requires fieldSize >= 1
      ensures Valid() && fresh(file) && done == [] && this.fieldSize == fieldSize
      ensures count == if customGates then 5 else 3
    {
      this.fieldSize := fieldSize;
      sections := [false, false, false, false, false];
      var f := new FileBuffer();
      var n: Byte := if customGates then 5 else 3;
      count, done := n, [];
      file := f;
      new;
      file.WriteAll(MAGIC);
      file.WriteAll(VERSION);
      file.WriteAll([n, 0, 0, 0]);
      assert file.data == Preamble(n) + [];
    }

    /** After a section: its size goes where the place holder was. */
    constructor AfterSection(s: SectionWriter)
      requires s.Valid() && s.size < Power256(8)
      modifies s.file
      ensures Valid() && file == s.file && done == s.before + [Section(s.kind, s.body)] && count == s.count
      ensures fieldSize == s.fieldSize
    {
      file, fieldSize := s.file, s.fieldSize;
      sections := s.sections[s.index := true];
      count, done := s.count, s.before + [Section(s.kind, s.body)];
      new;
      hide Le;
      ghost var frame := Section(s.kind, s.body);
      PatchSize(file, s.goBack, s.size, Layout(s.count, s.before) + TypeBytes(s.kind), s.body);
      hide Layout, Frame, HasKind, Kinds;
      FrameJoined(Layout(s.count, s.before), s.kind, s.body);
      LayoutMore(s.count, s.before, frame);
      forall k | 0 <= k < 5
        ensures sections[k] <==> HasKind(done, k + 1)
      {
        KindsMore(s.before, frame, k + 1);
      }
    }

    /** Type and place holder of a section. */
    method StartSection(kind: nat) returns (s: SectionWriter)
      requires Valid() && 1 <= kind <= 5
      modifies file
      ensures fresh(s) && s.Valid() && s.file == file && s.kind == kind && s.body == [] && s.before == done && s.count == count
      ensures s.fieldSize == fieldSize && s.numberOfConstraints == 0
    {
      s := new SectionWriter(this, kind);
    }
  }

  /** The five section structures of the source, which differ in their index and in what
      they write. */
  class SectionWriter {
    var file: FileBuffer
    var goBack: nat
    var size: nat
    var index: nat
    var fieldSize: nat
    var sections: seq<bool>
    var numberOfConstraints: nat
    ghost var kind: nat
    ghost var count: nat
    ghost var before: seq<Section>
    ghost var body: Bytes

    /** Behind the finished sections: the type, the place holder and what has been written so far. */
    ghost predicate Valid()
      reads this, file
    {
      && fieldSize >= 1 && count < 256 && 1 <= kind <= 5 && index == kind - 1 && |sections| == 5 && Kinds(before)
      && file.data == Layout(count, before) + TypeBytes(kind) + PLACE_HOLDER + body && file.pos == |file.data|
      && goBack == |Layout(count, before)| + 4 && size == |body|
      && forall k :: 0 <= k < 5 ==> (sections[k] <==> HasKind(before, k + 1))
    }

    constructor (w: R1CSWriter, kind: nat)
      requires w.Valid() && 1 <= kind <= 5
      modifies w.file
      ensures Valid() && file == w.file && this.kind == kind && body == [] && before == w.done && count == w.count
      ensures fieldSize == w.fieldSize && numberOfConstraints == 0
    {
      file := w.file;
      fieldSize, sections, index := w.fieldSize, w.sections, kind - 1;
      size, numberOfConstraints := 0, 0;
      this.kind, count, before, body := kind, w.count, w.done, [];
      goBack := w.file.pos + 4;
      new;
      file.WriteAll(TypeBytes(kind));
      file.WriteAll(PLACE_HOLDER);
    }

    /** More of the body. */
    method Append(bytes: Bytes)
      requires Valid()
      modifies this`body, this`size, file
      ensures Valid() && body == old(body) + bytes
    {
      file.WriteAll(bytes);
      size := size + |bytes|;
      body := body + bytes;
      ghost var head := Layout(count, before) + TypeBytes(kind) + PLACE_HOLDER;
      assert head + old(body) + bytes == head + body;
    }

    /** The size goes where the place holder was. */
    method EndSection() returns (w: R1CSWriter)
      requires Valid() && size < Power256(8)
      modifies file
      ensures fresh(w) && w.Valid() && w.file == file && w.done == before + [Section(kind, body)] && w.count == count
      ensures w.fieldSize == fieldSize
    {
      w := new R1CSWriter.AfterSection(this);
    }

    // ----- contents

    method WriteNumber(n: nat, len: nat)
      requires Valid() && len >= 1 && n < Power256(len)
      modifies this`body, this`size, file
      ensures Valid() && body == old(body) + Le(n, len)
    {
      hide Valid;
      var stream, _ := BigintAsBytes(n, len);
      Append(stream);
    }

    method WriteHeader(h: Header)
      requires Valid() && FitsHeader(h) && fieldSize == h.fieldSize
      modifies this`body, this`size, file
      ensures Valid() && body == old(body) + HeaderBody(h)
    {
      hide Valid, Le, Power256;
      ghost var start := body;
      WriteNumber(h.fieldSize, 4);
      WriteNumber(h.field, h.fieldSize);
      WriteNumber(h.totalWires, 4);
      WriteNumber(h.publicOutputs, 4);
      WriteNumber(h.publicInputs, 4);
      WriteNumber(h.privateInputs, 4);
      WriteNumber(h.numberOfLabels, 8);
      WriteNumber(h.numberOfConstraints, 4);
      assert body == start + HeaderBody(h);
    }

    method WriteConstraint(cn: Constraint) returns (ghost o: Orders)
      requires Valid() && FitsConstraint(cn, fieldSize)
      modifies this`body, this`size, this`numberOfConstraints, file
      ensures Valid() && OrdersOf(o, cn) && body == old(body) + ConstraintBytes(o, cn, fieldSize)
      ensures numberOfConstraints == old(numberOfConstraints) + 1
    {
      hide Valid, OrderOf, Block, FitsCombination;
      WidthPositive();
      ghost var start := body;
      var blockA, sizeA, orderA := ObtainLinearCombinationBlock(cn.a, fieldSize);
      var blockB, sizeB, orderB := ObtainLinearCombinationBlock(cn.b, fieldSize);
      var blockC, sizeC, orderC := ObtainLinearCombinationBlock(cn.c, fieldSize);
      o := Orders(orderA, orderB, orderC);
      Append(blockA);
      Append(blockB);
      Append(blockC);
      CountConstraint();
      assert body == start + (blockA + (blockB + blockC));
    }

    method CountConstraint()
      requires Valid()
      modifies this`numberOfConstraints
      ensures Valid() && numberOfConstraints == old(numberOfConstraints) + 1
    {
      numberOfConstraints := numberOfConstraints + 1;
    }

    lemma WidthPositive()
      requires Valid()
      ensures fieldSize >= 1
    {
    }

    method WriteSignal(signal: nat)
      requires Valid() && signal < Power256(8)
      modifies this`body, this`size, file
      ensures Valid() && body == old(body) + Le(signal, 8)
    {
      hide Valid;
      var minimal := MinimalLe(signal);
      var bytes, _ := IntoFormat(minimal, 8);
      MinimalFits(signal, 8);
      PaddedMinimal(signal, 8, bytes[|minimal|..]);
      assert bytes == minimal + bytes[|minimal|..];
      Append(bytes);
    }

    method WriteSignals(signals: seq<nat>)
      requires Valid() && FitsNumbers(signals, 8)
      modifies this`body, this`size, file
      ensures Valid() && body == old(body) + Numbers(signals, 8)
    {
      hide Valid, Le, Power256;
      ghost var start := body;
      assert signals[0..] == signals;
      for i := 0 to |signals|
        invariant Valid() && body + Numbers(signals[i..], 8) == start + Numbers(signals, 8)
      {
        ghost var b := body;
        WriteSignal(signals[i]);
        assert signals[i..][1..] == signals[i + 1..];
        assert b + (Le(signals[i], 8) + Numbers(signals[i + 1..], 8)) == body + Numbers(signals[i + 1..], 8);
      }
      assert signals[|signals|..] == [];
      assert body + [] == body;
    }

    method WriteNumbers(ns: seq<nat>, len: nat)
      requires Valid() && len >= 1 && FitsNumbers(ns, len)
      modifies this`body, this`size, file
      ensures Valid() && body == old(body) + Numbers(ns, len)
    {
      hide Valid, Le, Power256;
      ghost var start := body;
      assert ns[0..] == ns;
      for i := 0 to |ns|
        invariant Valid() && body + Numbers(ns[i..], len) == start + Numbers(ns, len)
      {
        ghost var b := body;
        WriteNumber(ns[i], len);
        assert ns[i..][1..] == ns[i + 1..];
        assert b + (Le(ns[i], len) + Numbers(ns[i + 1..], len)) == body + Numbers(ns[i + 1..], len);
      }
      assert ns[|ns|..] == [];
      assert body + [] == body;
    }

    method WriteGateUsages(us: seq<GateUsage>)
      requires Valid() && |us| < Power256(4) && forall i :: 0 <= i < |us| ==> FitsUsage(us[i], fieldSize)
      modifies this`body, this`size, file
      ensures Valid() && body == old(body) + UsagesBody(us, fieldSize)
    {
      hide Valid, Le, Power256, FitsUsage, UsageBytes;
      ghost var start := body;
      WriteNumber(|us|, 4);
      ghost var head := body;
      assert us[0..] == us;
      for i := 0 to |us|
        invariant Valid() && body + UsagesBytes(us[i..], fieldSize) == head + UsagesBytes(us, fieldSize)
      {
        ghost var b := body;
        WriteGateUsage(us[i]);
        assert us[i..][1..] == us[i + 1..];
        assert b + (UsageBytes(us[i], fieldSize) + UsagesBytes(us[i + 1..], fieldSize)) == body + UsagesBytes(us[i + 1..], fieldSize);
      }
      assert us[|us|..] == [];
      assert body + [] == body;
      assert body == start + UsagesBody(us, fieldSize);
    }

    method WriteGateUsage(u: GateUsage)
      requires Valid() && FitsUsage(u, fieldSize)
      modifies this`body, this`size, file
      ensures Valid() && body == old(body) + UsageBytes(u, fieldSize)
    {
      hide Valid, Le, Power256;
      WidthPositive();
      ghost var start := body;
      Append(u.name);
      Append([0]);
      WriteNumber(|u.parameters|, 4);
      WriteNumbers(u.parameters, fieldSize);
      assert body == start + (u.name + ([0] + (Le(|u.parameters|, 4) + Numbers(u.parameters, fieldSize))));
    }

    method WriteGateApplications(gs: seq<GateApplication>)
      requires Valid() && |gs| < Power256(4) && forall i :: 0 <= i < |gs| ==> FitsApplication(gs[i])
      modifies this`body, this`size, file
      ensures Valid() && body == old(body) + ApplicationsBody(gs)
    {
      hide Valid, Le, Power256, ApplicationBytes;
      ghost var start := body;
      WriteNumber(|gs|, 4);
      ghost var head := body;
      assert gs[0..] == gs;
      for i := 0 to |gs|
        invariant Valid() && body + ApplicationsBytes(gs[i..]) == head + ApplicationsBytes(gs)
      {
        ghost var b := body;
        WriteGateApplication(gs[i]);
        assert gs[i..][1..] == gs[i + 1..];
        assert b + (ApplicationBytes(gs[i]) + ApplicationsBytes(gs[i + 1..])) == body + ApplicationsBytes(gs[i + 1..]);
      }
      assert gs[|gs|..] == [];
      assert body + [] == body;
      assert body == start + ApplicationsBody(gs);
    }

    method WriteGateApplication(g: GateApplication)
      requires Valid() && FitsApplication(g)
      modifies this`body, this`size, file
      ensures Valid() && body == old(body) + ApplicationBytes(g)
    {
      hide Valid, Le, Power256;
      ghost var start := body;
      WriteNumber(g.index, 4);
      WriteNumber(|g.signals|, 4);
      WriteNumbers(g.signals, 8);
      assert body == start + (Le(g.index, 4) + (Le(|g.signals|, 4) + Numbers(g.signals, 8)));
    }
  }

  // ----- a whole file

  lemma {:induction false} ConstraintsMore(os: seq<Orders>, cs: seq<Constraint>, o: Orders, cn: Constraint, fieldSize: nat)
    requires AllOrders(os, cs) && OrdersOf(o, cn)
    ensures AllOrders(os + [o], cs + [cn])
    ensures ConstraintsBody(os + [o], cs + [cn], fieldSize) == ConstraintsBody(os, cs, fieldSize) + ConstraintBytes(o, cn, fieldSize)
    decreases |cs|
  {
    hide OrdersOf, ConstraintBytes;
    if cs == [] {
      assert (os + [o])[1..] == [] && (cs + [cn])[1..] == [];
    } else {
      assert (os + [o])[1..] == os[1..] + [o] && (cs + [cn])[1..] == cs[1..] + [cn];
      ConstraintsMore(os[1..], cs[1..], o, cn, fieldSize);
    }
  }

  method WriteConstraints(w: R1CSWriter, cs: seq<Constraint>) returns (s: SectionWriter)
    requires w.Valid() && forall i :: 0 <= i < |cs| ==> FitsConstraint(cs[i], w.fieldSize)
    modifies w.file
    ensures fresh(s) && s.Valid() && s.file == w.file && s.kind == CONSTRAINTS && s.before == w.done && s.count == w.count
    ensures s.fieldSize == w.fieldSize && s.numberOfConstraints == |cs| && IsConstraintsBody(s.body, cs, w.fieldSize)
  {
    hide FitsConstraint, OrdersOf, ConstraintBytes;
    s := w.StartSection(CONSTRAINTS);
    ghost var os: seq<Orders> := [];
    for i := 0 to |cs|
      invariant s.Valid() && s.file == w.file && s.kind == CONSTRAINTS && s.before == w.done && s.count == w.count
      invariant fresh(s) && s.fieldSize == w.fieldSize && s.numberOfConstraints == i
      invariant AllOrders(os, cs[..i]) && s.body == ConstraintsBody(os, cs[..i], w.fieldSize)
    {
      ghost var o := s.WriteConstraint(cs[i]);
      ConstraintsMore(os, cs[..i], o, cs[i], w.fieldSize);
      os := os + [o];
      assert cs[..i + 1] == cs[..i] + [cs[i]];
    }
    assert cs[..|cs|] == cs;
  }

  /** A section that does not fit into 64 bits of size cannot exist in the source. */
  method Finish(s: SectionWriter) returns (w: R1CSWriter?)
    requires s.Valid()
    modifies s.file
    ensures w != null ==> fresh(w) && w.Valid() && w.file == s.file && w.count == s.count && w.fieldSize == s.fieldSize
    ensures w != null ==> w.done == s.before + [Section(s.kind, s.body)] && |s.body| < Power256(8)
    ensures w == null ==> |s.body| >= Power256(8)
  {
    if s.size >= Power256(8) {
      return null;
    }
    w := s.EndSection();
  }

  /** Constraints first, then header and signals, then the custom gates. */
  method WriteR1cs(info: R1cs) returns (file: FileBuffer?, ghost ss: seq<Section>)
    requires Fits(info)
    ensures file != null ==> fresh(file) && Kinds(ss) && Describes(ss, info) && file.data == Layout(SectionCount(info), ss)
    ensures file != null ==> InOrder(ss, info)
    ensures file == null <==> TooLarge(info)
  {
    hide FitsConstraint, FitsUsage, FitsApplication, FitsNumbers, HeaderBody, Numbers, UsagesBody, ApplicationsBody, IsConstraintsBody,
         FitsHeader, Layout, Power256;
    ss := [];
    var w;
    ghost var body;
    w, body := WritePlainSections(info);
    if w == null { return null, ss; }
    if info.customGates {
      w := WriteGateSections(w, info.gatesUsed.value, info.gatesApplied.value);
      assert BodyOf(Section(GATES_USED, UsagesBody(info.gatesUsed.value, info.header.fieldSize)), info);
      assert BodyOf(Section(GATES_APPLIED, ApplicationsBody(info.gatesApplied.value)), info);
      if w == null { return null, ss; }
    }
    file := w.file;
    ss := w.done;
    DoneLayout(w);
    WrittenInOrder(ss, info);
    DescribedSmall(ss, info);
  }

  lemma DoneLayout(w: R1CSWriter)
    requires w.Valid()
    ensures w.count < 256 && Kinds(w.done) && w.file.data == Layout(w.count, w.done)
  {
  }

  method WritePlainSections(info: R1cs) returns (w: R1CSWriter?, ghost body: Bytes)
    requires Fits(info)
    ensures w != null ==> fresh(w) && fresh(w.file) && w.Valid() && w.fieldSize == info.header.fieldSize && w.count == SectionCount(info)
    ensures w != null ==> IsConstraintsBody(body, info.constraints, info.header.fieldSize)
    ensures w != null ==>
      w.done == [Section(CONSTRAINTS, body), Section(HEADER, HeaderBody(info.header)), Section(WIRE2LABEL, Numbers(info.signals, 8))]
    ensures w != null ==> |body| < Power256(8) && |HeaderBody(info.header)| < Power256(8) && |Numbers(info.signals, 8)| < Power256(8)
    ensures w == null ==> TooLarge(info)
  {
    hide FitsConstraint, FitsUsage, FitsApplication, FitsNumbers, HeaderBody, Numbers, IsConstraintsBody, FitsHeader, Layout, Power256;
    HeaderWidth(info);
    w := new R1CSWriter(info.header.fieldSize, info.customGates);
    w, body := ConstraintsSection(w, info.constraints);
    assert BodyOf(Section(CONSTRAINTS, body), info) && BodyOf(Section(HEADER, HeaderBody(info.header)), info);
    assert BodyOf(Section(WIRE2LABEL, Numbers(info.signals, 8)), info);
    if w == null { return; }
    w := HeaderSection(w, info.header);
    if w == null { return; }
    w := SignalSection(w, info.signals);
  }

  /** A section of these contents would not fit into the 64 bits of its size. */
  ghost predicate TooLarge(info: R1cs) {
    exists s: Section :: BodyOf(s, info) && |s.body| >= Power256(8)
  }

  /** How large a section gets does not depend on the order of terms. */
  lemma {:induction false} TermsSize(o: seq<nat>, o': seq<nat>, lc: LinearCombination, fieldSize: nat)
    requires |o| == |o'| && forall i :: 0 <= i < |o| ==> o[i] in lc && o'[i] in lc
    ensures |Terms(o, lc, fieldSize)| == |Terms(o', lc, fieldSize)|
  {
    if o != [] {
      TermsSize(o[1..], o'[1..], lc, fieldSize);
    }
  }

  lemma ConstraintSize(o: Orders, o': Orders, cn: Constraint, fieldSize: nat)
    requires OrdersOf(o, cn) && OrdersOf(o', cn)
    ensures |ConstraintBytes(o, cn, fieldSize)| == |ConstraintBytes(o', cn, fieldSize)|
  {
    TermsSize(o.a, o'.a, cn.a, fieldSize);
    TermsSize(o.b, o'.b, cn.b, fieldSize);
    TermsSize(o.c, o'.c, cn.c, fieldSize);
  }

  lemma {:induction false} ConstraintsSize(os: seq<Orders>, os': seq<Orders>, cs: seq<Constraint>, fieldSize: nat)
    requires AllOrders(os, cs) && AllOrders(os', cs)
    ensures |ConstraintsBody(os, cs, fieldSize)| == |ConstraintsBody(os', cs, fieldSize)|
  {
    hide OrdersOf, ConstraintBytes;
    if cs != [] {
      ConstraintSize(os[0], os'[0], cs[0], fieldSize);
      ConstraintsSize(os[1..], os'[1..], cs[1..], fieldSize);
    }
  }

  lemma SameSize(s: Section, s': Section, info: R1cs)
    requires s.kind == s'.kind && BodyOf(s, info) && BodyOf(s', info)
    ensures |s.body| == |s'.body|
  {
    hide AllOrders, ConstraintsBody, HeaderBody, UsagesBody, ApplicationsBody, Numbers;
    if s.kind == CONSTRAINTS {
      var os :| AllOrders(os, info.constraints) && s.body == ConstraintsBody(os, info.constraints, info.header.fieldSize);
      var os' :| AllOrders(os', info.constraints) && s'.body == ConstraintsBody(os', info.constraints, info.header.fieldSize);
      ConstraintsSize(os, os', info.constraints, info.header.fieldSize);
    }
  }

  /** If there is a file with these contents, no section is too large. */
  lemma DescribedSmall(ss: seq<Section>, info: R1cs)
    requires Fits(info) && Describes(ss, info)
    ensures !TooLarge(info)
  {
    forall s: Section | BodyOf(s, info)
      ensures |s.body| < Power256(8)
    {
      KindInFile(s, info);
      hide Power256, BodyOf, Fits;
      assert HasKind(ss, s.kind);
      var i :| 0 <= i < |ss| && ss[i].kind == s.kind;
      SameSize(s, ss[i], info);
    }
  }

  lemma KindInFile(s: Section, info: R1cs)
    requires Fits(info) && BodyOf(s, info)
    ensures 1 <= s.kind <= SectionCount(info)
  {
  }

  method WriteGateSections(w: R1CSWriter, us: seq<GateUsage>, gs: seq<GateApplication>) returns (next: R1CSWriter?)
    requires w.Valid() && |us| < Power256(4) && forall i :: 0 <= i < |us| ==> FitsUsage(us[i], w.fieldSize)
    requires |gs| < Power256(4) && forall i :: 0 <= i < |gs| ==> FitsApplication(gs[i])
    modifies w.file
    ensures next != null ==> fresh(next) && next.Valid() && next.file == w.file && next.count == w.count
    ensures next != null ==>
      next.done == w.done + [Section(GATES_USED, UsagesBody(us, w.fieldSize)), Section(GATES_APPLIED, ApplicationsBody(gs))]
    ensures next != null ==> |UsagesBody(us, w.fieldSize)| < Power256(8) && |ApplicationsBody(gs)| < Power256(8)
    ensures next == null ==> |UsagesBody(us, w.fieldSize)| >= Power256(8) || |ApplicationsBody(gs)| >= Power256(8)
  {
    hide FitsUsage, FitsApplication, UsagesBody, ApplicationsBody, Layout, Power256;
    next := GatesUsedSection(w, us);
    if next == null { return; }
    next := GatesAppliedSection(next, gs);
  }

  lemma HeaderWidth(info: R1cs)
    requires Fits(info)
    ensures info.header.fieldSize >= 1
  {
  }

  /** A writer for the same file with one more section. */
  ghost predicate OneMore(next: R1CSWriter, file: FileBuffer, done: seq<Section>, kind: nat, body: Bytes, count: nat, fieldSize: nat)
    reads next, next.file
  {
    && next.Valid() && next.file == file && next.count == count && next.fieldSize == fieldSize
    && next.done == done + [Section(kind, body)] && |body| < Power256(8)
  }

  method ConstraintsSection(w: R1CSWriter, cs: seq<Constraint>) returns (next: R1CSWriter?, ghost body: Bytes)
    requires w.Valid() && forall i :: 0 <= i < |cs| ==> FitsConstraint(cs[i], w.fieldSize)
    modifies w.file
    ensures next != null ==> fresh(next) && OneMore(next, w.file, w.done, CONSTRAINTS, body, w.count, w.fieldSize)
    ensures IsConstraintsBody(body, cs, w.fieldSize) && (next == null ==> |body| >= Power256(8))
  {
    hide FitsConstraint, IsConstraintsBody;
    var s := WriteConstraints(w, cs);
    body := s.body;
    next := Finish(s);
  }

  method HeaderSection(w: R1CSWriter, h: Header) returns (next: R1CSWriter?)
    requires w.Valid() && FitsHeader(h) && w.fieldSize == h.fieldSize
    modifies w.file
    ensures next != null ==> fresh(next) && OneMore(next, w.file, w.done, HEADER, HeaderBody(h), w.count, w.fieldSize)
    ensures next == null ==> |HeaderBody(h)| >= Power256(8)
  {
    hide FitsHeader, HeaderBody;
    var s := w.StartSection(HEADER);
    s.WriteHeader(h);
    assert s.body == HeaderBody(h);
    next := Finish(s);
  }

  method SignalSection(w: R1CSWriter, signals: seq<nat>) returns (next: R1CSWriter?)
    requires w.Valid() && FitsNumbers(signals, 8)
    modifies w.file
    ensures next != null ==> fresh(next) && OneMore(next, w.file, w.done, WIRE2LABEL, Numbers(signals, 8), w.count, w.fieldSize)
    ensures next == null ==> |Numbers(signals, 8)| >= Power256(8)
  {
    hide FitsNumbers, Numbers;
    var s := w.StartSection(WIRE2LABEL);
    s.WriteSignals(signals);
    assert s.body == Numbers(signals, 8);
    next := Finish(s);
  }

  method GatesUsedSection(w: R1CSWriter, us: seq<GateUsage>) returns (next: R1CSWriter?)
    requires w.Valid() && |us| < Power256(4) && forall i :: 0 <= i < |us| ==> FitsUsage(us[i], w.fieldSize)
    modifies w.file
    ensures next != null ==> fresh(next) && OneMore(next, w.file, w.done, GATES_USED, UsagesBody(us, w.fieldSize), w.count, w.fieldSize)
    ensures next == null ==> |UsagesBody(us, w.fieldSize)| >= Power256(8)
  {
    hide FitsUsage, UsagesBody;
    var s := w.StartSection(GATES_USED);
    s.WriteGateUsages(us);
    assert s.body == UsagesBody(us, w.fieldSize);
    next := Finish(s);
  }

  method GatesAppliedSection(w: R1CSWriter, gs: seq<GateApplication>) returns (next: R1CSWriter?)
    requires w.Valid() && |gs| < Power256(4) && forall i :: 0 <= i < |gs| ==> FitsApplication(gs[i])
    modifies w.file
    ensures next != null ==> fresh(next) && OneMore(next, w.file, w.done, GATES_APPLIED, ApplicationsBody(gs), w.count, w.fieldSize)
    ensures next == null ==> |ApplicationsBody(gs)| >= Power256(8)
  {
    hide FitsApplication, ApplicationsBody;
    var s := w.StartSection(GATES_APPLIED);
    s.WriteGateApplications(gs);
    assert s.body == ApplicationsBody(gs);
    next := Finish(s);
  }

  /** Constraints, header, signals, gates used, gates applied. */
  ghost predicate InOrder(ss: seq<Section>, info: R1cs) {
    |ss| == SectionCount(info) && forall i :: 0 <= i < |ss| ==> ss[i].kind == [2, 1, 3, 4, 5][i]
  }

  lemma WrittenInOrder(ss: seq<Section>, info: R1cs)
    requires |ss| == SectionCount(info)
    requires ss[0].kind == CONSTRAINTS && ss[1].kind == HEADER && ss[2].kind == WIRE2LABEL
    requires info.customGates ==> ss[3].kind == GATES_USED && ss[4].kind == GATES_APPLIED
    requires forall i :: 0 <= i < |ss| ==> BodyOf(ss[i], info) && |ss[i].body| < Power256(8)
    ensures Describes(ss, info) && InOrder(ss, info)
  {
    hide BodyOf;
    forall k | 1 <= k <= SectionCount(info)
      ensures HasKind(ss, k)
    {
      var i := if k == 1 then 1 else if k == 2 then 0 else k - 1;
      assert ss[i].kind == k;
    }
  }
}
