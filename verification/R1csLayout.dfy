/** Where the parts of an R1CS file stand, in numbers: a description of the format that does not
    go through the functions of writer and reader. */
module R1csLayout {
  import opened ByteStrings
  import opened R1csFormat
  import opened R1csReader

  /** A number of so many bytes at a position, the least significant byte first. */
  ghost predicate NumberAt(data: Bytes, pos: nat, len: nat, n: nat) {
    && pos + len <= |data| && n < Power256(len)
    && forall i :: 0 <= i < len ==> data[pos + i] == n / Power256(i) % 256
  }

  lemma {:induction false} LeByte(n: nat, len: nat, i: nat)
    requires i < len
    ensures Le(n, len)[i] == n / Power256(i) % 256
  {
    if i > 0 {
      LeByte(n / 256, len - 1, i - 1);
      DivTwice(n, 256, Power256(i - 1));
    }
  }

  lemma LeAt(data: Bytes, pos: nat, len: nat, n: nat)
    requires AtPos(data, pos, Le(n, len)) && n < Power256(len)
    ensures NumberAt(data, pos, len, n)
  {
    hide Le, Power256;
    forall i | 0 <= i < len
      ensures data[pos + i] == n / Power256(i) % 256
    {
      LeByte(n, len, i);
      assert data[pos + i] == data[pos..pos + len][i];
    }
  }

  lemma AtStart(data: Bytes)
    ensures AtPos(data, 0, data)
  {
  }

  /** The number in front, and what comes behind it. */
  lemma NumberFirst(data: Bytes, pos: nat, len: nat, n: nat, rest: Bytes)
    requires AtPos(data, pos, Le(n, len) + rest) && n < Power256(len)
    ensures NumberAt(data, pos, len, n) && AtPos(data, pos + len, rest)
  {
    hide *;
    AtSplit(data, pos, Le(n, len), rest);
    assert |Le(n, len)| == len by { LeSize(n, len); }
    LeAt(data, pos, len, n);
  }

  lemma LeSize(n: nat, len: nat)
    ensures |Le(n, len)| == len
  {
  }

  /** The eight fields of a header in their order. */
  lemma HeaderFields(h: Header)
    requires FitsHeader(h)
    ensures var b, size := HeaderBody(h), h.fieldSize;
      && NumberAt(b, 0, 4, size) && NumberAt(b, 4, size, h.field)
      && NumberAt(b, 4 + size, 4, h.totalWires) && NumberAt(b, 8 + size, 4, h.publicOutputs)
      && NumberAt(b, 12 + size, 4, h.publicInputs) && NumberAt(b, 16 + size, 4, h.privateInputs)
      && NumberAt(b, 20 + size, 8, h.numberOfLabels) && NumberAt(b, 28 + size, 4, h.numberOfConstraints)
  {
    hide Le, Power256, AtPos, NumberAt;
    var b, size := HeaderBody(h), h.fieldSize;
    var b8 := Le(h.numberOfConstraints, 4);
    var b7 := Le(h.numberOfLabels, 8) + b8;
    var b6 := Le(h.privateInputs, 4) + b7;
    var b5 := Le(h.publicInputs, 4) + b6;
    var b4 := Le(h.publicOutputs, 4) + b5;
    var b3 := Le(h.totalWires, 4) + b4;
    var b2 := Le(h.field, size) + b3;
    assert b == Le(size, 4) + b2;
    AtStart(b);
    NumberFirst(b, 0, 4, size, b2);
    NumberFirst(b, 4, size, h.field, b3);
    NumberFirst(b, 4 + size, 4, h.totalWires, b4);
    NumberFirst(b, 8 + size, 4, h.publicOutputs, b5);
    NumberFirst(b, 12 + size, 4, h.publicInputs, b6);
    NumberFirst(b, 16 + size, 4, h.privateInputs, b7);
    NumberFirst(b, 20 + size, 8, h.numberOfLabels, b8);
    LeAt(b, 28 + size, 4, h.numberOfConstraints);
  }

  /** A file begins with "r1cs", the version 1 and the number of sections. */
  lemma FileStart(n: nat, ss: seq<Section>)
    requires n < 256 && Kinds(ss)
    ensures var f := Layout(n, ss);
      && |f| >= 12 && f[0] == 'r' as int && f[1] == '1' as int && f[2] == 'c' as int && f[3] == 's' as int
      && NumberAt(f, 4, 4, 1) && NumberAt(f, 8, 4, n)
  {
    hide Frames;
    var f := Layout(n, ss);
    SmallNumberAt(f, 4, 1);
    SmallNumberAt(f, 8, n);
  }

  lemma SmallNumberAt(data: Bytes, pos: nat, n: Byte)
    requires pos + 4 <= |data| && data[pos] == n && data[pos + 1] == data[pos + 2] == data[pos + 3] == 0
    ensures NumberAt(data, pos, 4, n)
  {
    assert Power256(1) == 256 && Power256(2) == 256 * 256 && Power256(3) == 256 * 256 * 256 by {
      assert Power256(1) == 256 * Power256(0) && Power256(2) == 256 * Power256(1) && Power256(3) == 256 * Power256(2);
    }
    assert Power256(4) == 256 * Power256(3);
  }

  /** A section is its type in four bytes, its size in eight, and its body. */
  lemma SectionFields(s: Section)
    requires s.kind < 256 && |s.body| < Power256(8)
    ensures var f := Frame(s);
      |f| == 12 + |s.body| && NumberAt(f, 0, 4, s.kind) && NumberAt(f, 4, 8, |s.body|) && f[12..] == s.body
  {
    hide Le, NumberAt, Power256;
    var f := Frame(s);
    SmallNumberAt(f, 0, s.kind);
    AtStart(f);
    AtSplit(f, 0, TypeBytes(s.kind), Le(|s.body|, 8) + s.body);
    NumberFirst(f, 4, 8, |s.body|, s.body);
  }

  /** A linear combination: the number of terms in four bytes, then for every term its signal in four bytes
      and its coefficient in the size of the field. */
  lemma BlockFields(order: seq<nat>, lc: LinearCombination, fieldSize: nat)
    requires OrderOf(order, lc) && FitsCombination(lc, fieldSize)
    ensures NumberAt(Block(order, lc, fieldSize), 0, 4, |lc|)
    ensures TermsAt(Block(order, lc, fieldSize), 4, order, lc, fieldSize)
  {
    hide NumberAt, Le, Terms, Power256, AtPos;
    var b := Block(order, lc, fieldSize);
    AtStart(b);
    NumberFirst(b, 0, 4, |order|, Terms(order, lc, fieldSize));
    TermsStand(b, 4, order, lc, fieldSize);
  }

  /** Terms one after the other from a position on. */
  ghost predicate TermsAt(data: Bytes, pos: nat, order: seq<nat>, lc: LinearCombination, fieldSize: nat)
    decreases order
  {
    order != [] ==>
      && order[0] in lc && NumberAt(data, pos, 4, order[0]) && NumberAt(data, pos + 4, fieldSize, lc[order[0]])
      && TermsAt(data, pos + 4 + fieldSize, order[1..], lc, fieldSize)
  }

  lemma {:induction false} TermsStand(data: Bytes, pos: nat, order: seq<nat>, lc: LinearCombination, fieldSize: nat)
    requires forall i :: 0 <= i < |order| ==> order[i] in lc
    requires FitsCombination(lc, fieldSize) && AtPos(data, pos, Terms(order, lc, fieldSize))
    ensures TermsAt(data, pos, order, lc, fieldSize)
    decreases order
  {
    hide NumberAt, Le, Power256, AtPos;
    if order != [] {
      var rest := Terms(order[1..], lc, fieldSize);
      NumberFirst(data, pos, 4, order[0], Le(lc[order[0]], fieldSize) + rest);
      NumberFirst(data, pos + 4, fieldSize, lc[order[0]], rest);
      TermsStand(data, pos + 4 + fieldSize, order[1..], lc, fieldSize);
    }
  }

  /** Numbers of one size from a position on. */
  ghost predicate NumbersAt(data: Bytes, pos: nat, len: nat, ns: seq<nat>) {
    forall k :: 0 <= k < |ns| ==> NumberAt(data, pos + k * len, len, ns[k])
  }

  lemma {:induction false} NumbersStand(data: Bytes, pos: nat, len: nat, ns: seq<nat>)
    requires FitsNumbers(ns, len) && AtPos(data, pos, Numbers(ns, len))
    ensures NumbersAt(data, pos, len, ns)
    decreases ns
  {
    hide NumberAt, Le, Power256, AtPos;
    if ns != [] {
      NumberFirst(data, pos, len, ns[0], Numbers(ns[1..], len));
      NumbersStand(data, pos + len, len, ns[1..]);
      forall k | 0 <= k < |ns|
        ensures NumberAt(data, pos + k * len, len, ns[k])
      {
        if k > 0 {
          assert pos + k * len == pos + len + (k - 1) * len;
          assert NumberAt(data, pos + len + (k - 1) * len, len, ns[1..][k - 1]);
        }
      }
    }
  }

  /** The signals of the wires in eight bytes each. */
  lemma SignalFields(signals: seq<nat>)
    requires FitsNumbers(signals, 8)
    ensures NumbersAt(Numbers(signals, 8), 0, 8, signals)
  {
    hide NumbersAt, AtPos;
    AtStart(Numbers(signals, 8));
    NumbersStand(Numbers(signals, 8), 0, 8, signals);
  }

  /** The use of a custom gate: its name, a zero byte, the number of parameters, and these in the size of the field. */
  lemma UsageFields(u: GateUsage, fieldSize: nat)
    requires FitsUsage(u, fieldSize)
    ensures var b, n := UsageBytes(u, fieldSize), |u.name|;
      && n < |b| && b[..n] == u.name && b[n] == 0
      && NumberAt(b, n + 1, 4, |u.parameters|) && NumbersAt(b, n + 5, fieldSize, u.parameters)
  {
    hide NumberAt, NumbersAt, Le, Numbers, Power256, FitsNumbers;
    var b, n := UsageBytes(u, fieldSize), |u.name|;
    var counted := Le(|u.parameters|, 4) + Numbers(u.parameters, fieldSize);
    AtStart(b);
    AtSplit(b, 0, u.name, [0] + counted);
    AtSplit(b, n, [0], counted);
    assert b[n] == b[n..n + 1][0];
    hide AtPos;
    NumberFirst(b, n + 1, 4, |u.parameters|, Numbers(u.parameters, fieldSize));
    NumbersStand(b, n + 5, fieldSize, u.parameters);
  }

  /** The application of a custom gate: its index, the number of signals, and these in eight bytes each. */
  lemma ApplicationFields(g: GateApplication)
    requires FitsApplication(g)
    ensures var b := ApplicationBytes(g);
      NumberAt(b, 0, 4, g.index) && NumberAt(b, 4, 4, |g.signals|) && NumbersAt(b, 8, 8, g.signals)
  {
    hide NumberAt, NumbersAt, Le, Numbers, Power256, FitsNumbers, AtPos;
    var b := ApplicationBytes(g);
    AtStart(b);
    NumberFirst(b, 0, 4, g.index, Le(|g.signals|, 4) + Numbers(g.signals, 8));
    NumberFirst(b, 4, 4, |g.signals|, Numbers(g.signals, 8));
    NumbersStand(b, 8, 8, g.signals);
  }
}
