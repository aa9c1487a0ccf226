/** For which left sides comparing the leading bytes is comparing the prefix. */
module PrefixExact {
  import opened Lengths
  import opened Arith
  import opened Bits
  import opened PowerOfTwo
  import opened BinopFold
  import opened BitTests
  import opened Bytes
  import opened Machine
  import opened Terms
  import opened Linearize
  import opened Shortened

  /* ---- A plain field ---- */

  /** The lowest digit h % 2 of a quotient h turned over. */
  lemma {:induction false} FlipQuotient(v: nat, p: nat, q: nat) returns (x: nat)
    requires 0 < p && 0 < q && v < (2 * p) * q
    ensures x < (2 * p) * q && x / p != v / p && x / (2 * p) == v / (2 * p) && x % p == v % p
  {
    var h := v / p;
    var h' := if h % 2 == 0 then h + 1 else h - 1;
    SplitBy(v, p);
    DivNonNegative(v, p);
    MulLe(p, 0, h');
    x := v % p + p * h';
    DivUnique(x, p, h', v % p);
    DivDiv(x, p, 2);
    DivDiv(v, p, 2);
    SameHalfBelow(x, v, 2 * p, q);
  }

  lemma {:induction false} SameHalfBelow(x: nat, v: nat, d: nat, q: nat)
    requires 0 < d && 0 < q && v < d * q && x / d == v / d
    ensures x < d * q
  {
    QuotientBelow(v, d, q);
    SplitBy(x, d);
    MulLe(d, x / d + 1, q);
    Dist(d, x / d, 1);
  }

  /** A number that differs from v in bit b and not below or above it. */
  lemma {:induction false} FlipBit(v: nat, b: nat, len: nat) returns (x: nat)
    requires b < len && v < Pow2(len)
    ensures x < Pow2(len) && Shr(x, b) != Shr(v, b)
    ensures Shr(x, b + 1) == Shr(v, b + 1) && x % Pow2(b) == v % Pow2(b)
  {
    assert Pow2(b + 1) == 2 * Pow2(b);
    Pow2Add(b + 1, len - b - 1);
    hide Pow2;
    x := FlipQuotient(v, Pow2(b), Pow2(len - b - 1));
  }

  lemma {:induction false} LowTwice(x: nat, a: nat, b: nat)
    requires a <= b
    ensures (x % Pow2(b)) % Pow2(a) == x % Pow2(a)
  {
    Pow2Add(a, b - a);
    hide Pow2;
    SmallerModulus(x, Pow2(a), Pow2(b - a));
  }

  /** The leading bytes of a field. */
  predicate PlainFits(order: ByteOrder, len: nat, p: nat, low: bool)
  {
    if order == Big then len % 8 == 0 else low || p == len
  }

  lemma {:induction false} PlainShort(order: ByteOrder, key: nat, len: nat, p: nat, v: nat, x: nat)
    requires 0 < p <= len && p % 8 == 0 && v < Pow2(len) && x < Pow2(len)
    ensures ShortTest(Field(key, order, len), p, v, x)
      <==> if order == Big then Shr(x, 8 * ByteLen(len) - p) == Shr(v, 8 * ByteLen(len) - p) else x % Pow2(p) == v % Pow2(p)
  {
    hide Export;
    hide Pow2;
    hide Shr;
    var k, n := ByteLen(p), ByteLen(len);
    assert p == 8 * k;
    ByteLenPower(len);
    LeadBytes(x, order, k, n);
    LeadBytes(v, order, k, n);
    ExportInjective(LeadNumber(x, order, k, n), LeadNumber(v, order, k, n), order, k);
  }

  lemma {:induction false} PlainHolds(order: ByteOrder, key: nat, len: nat, p: nat, v: nat, low: bool, x: nat)
    requires 0 < p <= len && p % 8 == 0 && v < Pow2(len) && x < Pow2(len) && (low ==> order == Host)
    requires PlainFits(order, len, p, low)
    ensures ShortTest(Field(key, order, len), p, v, x) == SameLead(x, v, len, p, low)
  {
    hide ShortTest;
    hide Pow2;
    hide Shr;
    PlainShort(order, key, len, p, v, x);
    if order == Host && !low {
      ShrNothing(x);
      ShrNothing(v);
      SmallModulo(x, Pow2(len));
      SmallModulo(v, Pow2(len));
    }
  }

  /** Otherwise a value that differs in one bit is told apart wrongly. */
  lemma {:induction false} PlainMisses(order: ByteOrder, key: nat, len: nat, p: nat, v: nat, low: bool) returns (x: nat)
    requires 0 < p <= len && p % 8 == 0 && v < Pow2(len) && (low ==> order == Host)
    requires !PlainFits(order, len, p, low)
    ensures x < Pow2(len) && ShortTest(Field(key, order, len), p, v, x) != SameLead(x, v, len, p, low)
  {
    hide ShortTest;
    hide Pow2;
    hide Shr;
    var n := ByteLen(len);
    var b := if order == Big then len - p else len - 1;
    x := FlipBit(v, b, len);
    PlainShort(order, key, len, p, v, x);
    if order == Big {
      ShrTwice(x, b + 1, 8 * n - p - b - 1);
      ShrTwice(v, b + 1, 8 * n - p - b - 1);
    } else {
      LowTwice(x, p, b);
      LowTwice(v, p, b);
      ShrTwice(x, len - p, p - 1);
      ShrTwice(v, len - p, p - 1);
    }
  }

  /** For a plain field the comparison is right for all values if and only if the
      field is whole bytes in network order, or the prefix is that of a string, or it
      is the whole field. */
  lemma {:induction false} PlainExact(order: ByteOrder, key: nat, len: nat, p: nat, v: nat, low: bool)
    requires 0 < p <= len && p % 8 == 0 && v < Pow2(len) && (low ==> order == Host)
    ensures ShortRight(Field(key, order, len), p, v, len, low) <==> PlainFits(order, len, p, low)
  {
    hide ShortTest;
    hide SameLead;
    hide PlainFits;
    hide Pow2;
    var t := Field(key, order, len);
    if PlainFits(order, len, p, low) {
      forall x: nat | x < Pow2(len)
        ensures ShortTest(t, p, v, x) == SameLead(x, v, len, p, low)
      {
        PlainHolds(order, key, len, p, v, low, x);
      }
    } else {
      var x := PlainMisses(order, key, len, p, v, low);
      assert ValueOf(t, x) == x;
    }
  }

  /* ---- A chain of bit operations ---- */

  lemma {:induction false} SameFolds(mask: nat, flips: nat, mask': nat, flips': nat, p: nat)
    requires mask < Pow2(p) && mask' < Pow2(p)
    requires forall s: nat :: s < Pow2(p) ==> MaskXor(s, mask, flips) == MaskXor(s, mask', flips')
    ensures mask == mask' && flips == flips'
  {
    hide Bitwise;
    hide Pow2;
    assert MaskXor(0, mask, flips) == MaskXor(0, mask', flips');
    ZeroFold(mask, flips);
    ZeroFold(mask', flips');
    OnesFit(p);
    assert MaskXor(Ones(p), mask, flips) == MaskXor(Ones(p), mask', flips');
    AllFold(mask, flips, p);
    AllFold(mask', flips, p);
    XorTwice(mask, flips, NatBits(Xor, mask', flips));
    XorTwice(mask', flips, NatBits(Xor, mask', flips));
  }

  lemma {:induction false} ZeroFold(mask: nat, flips: nat)
    ensures MaskXor(0, mask, flips) == flips
  {
    BitwiseCommutes(And, 0, mask);
    BitwiseConstant(And, mask);
    BitwiseCommutes(Xor, 0, flips);
    BitwiseConstant(Xor, flips);
  }

  lemma {:induction false} AllFold(mask: nat, flips: nat, p: nat)
    requires mask < Pow2(p)
    ensures MaskXor(Ones(p), mask, flips) == NatBits(Xor, mask, flips)
  {
    BitwiseCommutes(And, Ones(p), mask);
    AndOnes(mask, p);
  }

  /** The fold over whole numbers, on their leading bits. */
  lemma {:induction false} LeadFold(x: nat, mask: nat, flips: nat, s: nat)
    ensures 0 <= MaskXor(x, mask, flips) && Shr(MaskXor(x, mask, flips), s) == MaskXor(Shr(x, s), Shr(mask, s), Shr(flips, s))
  {
    hide Bitwise;
    LeadBits(And, x, mask, s);
    LeadBits(Xor, NatBits(And, x, mask), flips, s);
    BitwiseSign(Xor, NatBits(And, x, mask), flips);
  }

  lemma {:induction false} LeadBits(op: BitOp, x: nat, y: nat, s: nat)
    ensures Shr(NatBits(op, x, y), s) == NatBits(op, Shr(x, s), Shr(y, s))
  {
    hide Bitwise;
    hide Pow2;
    var p := Pow2(s);
    SplitBy(x, p);
    SplitBy(y, p);
    BitwiseBlock(op, x % p, Shr(x, s), y % p, Shr(y, s), s);
    DivUnique(NatBits(op, x, y), p, NatBits(op, Shr(x, s), Shr(y, s)), Bitwise(op, x % p, y % p));
  }

  /** Right for every constant that is the base of a prefix. */
  ghost predicate ChainRight(t: Term, p: nat)
    requires 0 < p <= TermLen(t)
  {
    forall v: nat :: v < Pow2(TermLen(t)) && v % Pow2(TermLen(t) - p) == 0 ==> ShortRight(t, p, v, TermLen(t), false)
  }

  /** The mask and the exclusive-or that the generator computes at the length of the
      prefix, as they act on the leading bytes. */
  function ShortMask(t: Term, p: nat): nat
    requires p > 0
  {
    RawNumber(Abs(Mask(Steps(t), p)), Big, ByteLen(p))
  }

  function ShortFlips(t: Term, p: nat): nat
    requires p > 0
  {
    RawNumber(Abs(Flips(Steps(t), p)), Big, ByteLen(p))
  }

  predicate ChainShape(t: Term, p: nat, w: World)
  {
    && t.Binop? && WellTyped(t, w) && t.order == Big && t.len % 8 == 0 && Room(t) == t.len
    && 0 < p <= t.len && p % 8 == 0
  }

  lemma {:induction false} ChainConstants(t: Term, p: nat, w: World)
    requires ChainShape(t, p, w)
    ensures ConstantsFit(Steps(t), t.len)
  {
    hide ConstantsFit;
    hide HasLength;
    hide Room;
    assert Shaped(t, w);
    BaseAlike(t, w);
  }

  lemma {:induction false} ChainHead(t: Term, p: nat, w: World)
    requires ChainShape(t, p, w)
    ensures t.Binop? && 0 < p <= t.len
  {
  }

  lemma {:induction false} ChainTest(t: Term, p: nat, v: nat, w: World)
    requires ChainShape(t, p, w)
    ensures var k, n := ByteLen(p), ByteLen(t.len);
      8 * k == p && 8 * n == t.len && TermOrder(Base(t)) == Big &&
      EmittedTest(t, p, v) == ThroughLead(ThroughFold(EqualTo(LeadNumber(v, Big, k, n), p), ShortMask(t, p), ShortFlips(t, p)), Big, k, n)
  {
    hide WellTyped;
    hide RawNumber;
    hide Mask;
    hide Flips;
    hide ThroughLead;
    hide ThroughFold;
    hide LeadNumber;
    OperandAlike(t, w);
  }

  lemma {:induction false} FoldEquals(s: nat, mask: nat, flips: nat, u: nat, p: nat)
    requires s < Pow2(p) && mask < Pow2(p) && flips < Pow2(p)
    ensures Accepts(ThroughFold(EqualTo(u, p), mask, flips), s) <==> MaskXor(s, mask, flips) == u
  {
    hide Accepts;
    hide Pow2;
    hide Bitwise;
    var y := NatBits(Xor, NatBits(And, s, mask), flips);
    FoldAccepts(EqualTo(u, p), mask, flips, s);
    BitwiseBelow(And, s, mask, p);
    XorFits(NatBits(And, s, mask), flips, p);
    EqualAccepts(u, p, y);
  }

  lemma {:induction false} LeadFoldEquals(x: nat, mask: nat, flips: nat, u: nat, k: nat, n: nat)
    requires k <= n && x < Pow2(8 * n) && mask < Pow2(8 * k) && flips < Pow2(8 * k)
    ensures Accepts(ThroughLead(ThroughFold(EqualTo(u, 8 * k), mask, flips), Big, k, n), x)
      <==> MaskXor(Shr(x, 8 * (n - k)), mask, flips) == u
  {
    hide Accepts;
    hide Pow2;
    hide ThroughFold;
    hide ThroughLead;
    hide EqualTo;
    hide MaskXor;
    hide Shr;
    LeadAccepts(ThroughFold(EqualTo(u, 8 * k), mask, flips), Big, k, n, x);
    LeadBytes(x, Big, k, n);
    FoldEquals(Shr(x, 8 * (n - k)), mask, flips, u, 8 * k);
  }

  lemma {:induction false} ChainShort(t: Term, p: nat, v: nat, x: nat, w: World)
    requires ChainShape(t, p, w) && v < Pow2(t.len) && x < Pow2(t.len)
    ensures ShortTest(t, p, v, x) <==> MaskXor(Shr(x, t.len - p), ShortMask(t, p), ShortFlips(t, p)) == Shr(v, t.len - p)
  {
    hide EmittedTest;
    hide ShortTest;
    hide ShortMask;
    hide ShortFlips;
    hide MaskXor;
    hide WellTyped;
    hide Accepts;
    hide ThroughLead;
    hide ThroughFold;
    hide Pow2;
    ChainTest(t, p, v, w);
    ShortIsTest(t, p, v, x, w);
    ShortSizes(t, p);
    LeadFoldEquals(x, ShortMask(t, p), ShortFlips(t, p), Shr(v, t.len - p), ByteLen(p), ByteLen(t.len));
  }

  lemma {:induction false} ShortSizes(t: Term, p: nat)
    requires p > 0 && p % 8 == 0
    ensures ShortMask(t, p) < Pow2(p) && ShortFlips(t, p) < Pow2(p)
  {
    hide Mask;
    hide Flips;
    hide RawNumber;
    assert 8 * ByteLen(p) == p;
    RawNumberFits(Abs(Mask(Steps(t), p)), Big, ByteLen(p));
    RawNumberFits(Abs(Flips(Steps(t), p)), Big, ByteLen(p));
  }

  lemma {:induction false} ChainMeans(t: Term, p: nat, v: nat, x: nat, w: World)
    requires ChainShape(t, p, w) && v < Pow2(t.len) && x < Pow2(t.len)
    ensures Mask(Steps(t), t.len) >= 0 && Flips(Steps(t), t.len) >= 0
    ensures SameLead(ValueOf(t, x), v, t.len, p, false) <==>
      MaskXor(Shr(x, t.len - p), Shr(Mask(Steps(t), t.len), t.len - p), Shr(Flips(Steps(t), t.len), t.len - p))
        == Shr(v, t.len - p)
  {
    hide Bitwise;
    hide Pow2;
    hide Mask;
    hide Flips;
    hide MaskXor;
    hide ChainShape;
    hide ConstantsFit;
    hide ChainValue;
    hide Nested;
    ChainConstants(t, p, w);
    assert t.Binop? && 0 < p <= t.len by { ChainHead(t, p, w); }
    ChainIsNested(t, x);
    FoldIsNested(x, Steps(t), t.len);
    LeadFold(x, Mask(Steps(t), t.len), Flips(Steps(t), t.len), t.len - p);
  }

  lemma {:induction false} LeadBelow(x: nat, len: nat, p: nat)
    requires x < Pow2(len) && p <= len
    ensures Shr(x, len - p) < Pow2(p)
  {
    Pow2Add(len - p, p);
    hide Pow2;
    QuotientBelow(x, Pow2(len - p), Pow2(p));
  }

  lemma {:induction false} FoldFits(steps: seq<Step>, len: nat, p: nat)
    requires ConstantsFit(steps, len) && p <= len
    ensures 0 <= Mask(steps, len) < Pow2(len) && 0 <= Flips(steps, len) < Pow2(len)
    ensures Shr(Mask(steps, len), len - p) < Pow2(p)
  {
    hide Pow2;
    hide Mask;
    hide Flips;
    hide MaskXor;
    hide Nested;
    hide Shr;
    FoldIsNested(0, steps, len);
    LeadBelow(Mask(steps, len), len, p);
  }

  lemma {:induction false} FoldSizes(t: Term, p: nat, w: World)
    requires ChainShape(t, p, w)
    ensures 0 <= Mask(Steps(t), t.len) < Pow2(t.len) && 0 <= Flips(Steps(t), t.len) < Pow2(t.len)
    ensures Shr(Mask(Steps(t), t.len), t.len - p) < Pow2(p)
  {
    hide WellTyped;
    hide ConstantsFit;
    hide Pow2;
    hide Mask;
    hide Flips;
    hide Steps;
    hide Shr;
    hide Room;
    ChainConstants(t, p, w);
    FoldFits(Steps(t), t.len, p);
  }

  /** For a chain of bit operations in network order the comparison is right, for all
      values and all prefixes of p bits, if and only if what the generator folds at
      the length of the prefix is the leading part of the fold. */
  lemma {:induction false} ChainExact(t: Term, p: nat, w: World)
    requires ChainShape(t, p, w)
    ensures Mask(Steps(t), t.len) >= 0 && Flips(Steps(t), t.len) >= 0
    ensures ChainRight(t, p) <==>
      && ShortMask(t, p) == Shr(Mask(Steps(t), t.len), t.len - p)
      && ShortFlips(t, p) == Shr(Flips(Steps(t), t.len), t.len - p)
  {
    hide Bitwise;
    hide Pow2;
    hide Mask;
    hide Flips;
    hide MaskXor;
    hide ShortTest;
    hide SameLead;
    hide ShortMask;
    hide ShortFlips;
    hide Shr;
    FoldSizes(t, p, w);
    ShortSizes(t, p);
    OperandAlike(t, w);
    var s := t.len - p;
    var mask, flips := Shr(Mask(Steps(t), t.len), s), Shr(Flips(Steps(t), t.len), s);
    forall v: nat, x: nat | v < Pow2(t.len) && x < Pow2(t.len)
      ensures ShortTest(t, p, v, x) <==> MaskXor(Shr(x, s), ShortMask(t, p), ShortFlips(t, p)) == Shr(v, s)
      ensures SameLead(ValueOf(t, x), v, t.len, p, false) <==> MaskXor(Shr(x, s), mask, flips) == Shr(v, s)
    {
      ChainShort(t, p, v, x, w);
      ChainMeans(t, p, v, x, w);
    }
    if ChainRight(t, p) {
      forall a: nat | a < Pow2(p)
        ensures MaskXor(a, ShortMask(t, p), ShortFlips(t, p)) == MaskXor(a, mask, flips)
      {
        ChainAt(t, p, a, w);
      }
      SameFolds(ShortMask(t, p), ShortFlips(t, p), mask, flips, p);
    }
  }

  /** At one leading part: with the constant that the emitted comparison accepts. */
  lemma {:induction false} ChainAt(t: Term, p: nat, a: nat, w: World)
    requires ChainShape(t, p, w) && ChainRight(t, p) && a < Pow2(p)
    requires Mask(Steps(t), t.len) >= 0 && Flips(Steps(t), t.len) >= 0
    ensures MaskXor(a, ShortMask(t, p), ShortFlips(t, p))
      == MaskXor(a, Shr(Mask(Steps(t), t.len), t.len - p), Shr(Flips(Steps(t), t.len), t.len - p))
  {
    hide Bitwise;
    hide Pow2;
    hide Mask;
    hide Flips;
    hide ShortTest;
    hide SameLead;
    hide ShortMask;
    hide ShortFlips;
    var s := t.len - p;
    ShortSizes(t, p);
    BitwiseBelow(And, a, ShortMask(t, p), p);
    XorFits(NatBits(And, a, ShortMask(t, p)), ShortFlips(t, p), p);
    var b := NatBits(Xor, NatBits(And, a, ShortMask(t, p)), ShortFlips(t, p));
    var x, v := Shl(a, s), Shl(b, s);
    ShlBelow(a, s, p);
    ShlBelow(b, s, p);
    OperandAlike(t, w);
    assert ShortRight(t, p, v, t.len, false);
    ChainShort(t, p, v, x, w);
    ChainMeans(t, p, v, x, w);
  }

  lemma {:induction false} ShlBelow(a: nat, s: nat, p: nat)
    requires a < Pow2(p)
    ensures Shl(a, s) < Pow2(s + p) && Shr(Shl(a, s), s) == a && Shl(a, s) % Pow2(s) == 0
  {
    Pow2Add(s, p);
    hide Pow2;
    MulLess(Pow2(s), a, Pow2(p));
    DivUnique(Shl(a, s), Pow2(s), a, 0);
  }
}
