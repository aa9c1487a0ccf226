/** The left side of a comparison with a prefix of whole bytes: the generator makes
    its node as long as the prefix, whatever node it is (src/netlink_linearize.c),
    and what is then compared is a test of the bits of the operand. */
module Shortened {
  import opened Lengths
  import opened Arith
  import opened Bits
  import opened PowerOfTwo
  import opened BinopFold
  import opened BitTests
  import opened Bytes
  import opened Machine
  import opened Terms
  import opened Linearize

  /* ---- Exporting a number to fewer bytes than it has ---- */

  /** The most significant of the words of n bytes that a number is written as. */
  function TopWord(v: nat, n: nat): nat
    requires n > 0
    decreases v
  {
    if v < Pow2(8 * n) then v
    else
      QuotientLess(v, n);
      TopWord(Shr(v, 8 * n), n)
  }

  lemma {:induction false} QuotientLess(v: nat, n: nat)
    requires n > 0 && v >= Pow2(8 * n)
    ensures Shr(v, 8 * n) < v
  {
    var p := Pow2(8 * n);
    assert p == 2 * Pow2(8 * n - 1);
    SplitBy(v, p);
    MulLe(v / p, 2, p);
  }

  /** netlink_gen_raw_data: the first n bytes of what mpz_export writes, as a number
      in the byte order.  The words of a longer number come most significant first
      in network order and least significant first in host order. */
  function RawNumber(v: nat, order: ByteOrder, n: nat): nat
    requires n > 0
  {
    if order == Big then TopWord(v, n) else v % Pow2(8 * n)
  }

  function RawData(v: nat, order: ByteOrder, n: nat): (s: seq<Byte>)
    requires n > 0
    ensures |s| == n
  {
    Export(RawNumber(v, order, n), order, n)
  }

  lemma {:induction false} RawNumberFits(v: nat, order: ByteOrder, n: nat)
    requires n > 0
    ensures RawNumber(v, order, n) < Pow2(8 * n)
    decreases v
  {
    if order == Big && v >= Pow2(8 * n) {
      QuotientLess(v, n);
      RawNumberFits(Shr(v, 8 * n), order, n);
    }
  }

  /** A number that fits is exported as it is. */
  lemma {:induction false} RawDataFits(v: nat, order: ByteOrder, n: nat)
    requires n > 0 && v < Pow2(8 * n)
    ensures RawData(v, order, n) == Export(v, order, n)
  {
    SmallModulo(v, Pow2(8 * n));
  }

  /* ---- Leading bytes as numbers ---- */

  /** The number that the first k of n bytes hold. */
  function LeadNumber(x: nat, order: ByteOrder, k: nat, n: nat): nat
    requires k <= n
  {
    if order == Big then Shr(x, 8 * (n - k)) else x % Pow2(8 * k)
  }

  lemma {:induction false} LeadBytes(x: nat, order: ByteOrder, k: nat, n: nat)
    requires k <= n && x < Pow2(8 * n)
    ensures LeadNumber(x, order, k, n) < Pow2(8 * k)
    ensures Export(x, order, n)[..k] == Export(LeadNumber(x, order, k, n), order, k)
  {
    hide Export;
    ExportLeading(x, order, k, n);
    Pow2Add(8 * (n - k), 8 * k);
    hide Pow2;
    QuotientBelow(x, Pow2(8 * (n - k)), Pow2(8 * k));
  }

  /** A test of that number, as a test of the whole one. */
  function ThroughLead(t: BitTest, order: ByteOrder, k: nat, n: nat): BitTest
    requires k <= n
  {
    if order == Big then ThroughRight(t, 8 * (n - k)) else Within(t, 8 * k)
  }

  lemma {:induction false} LeadAccepts(t: BitTest, order: ByteOrder, k: nat, n: nat, x: nat)
    requires k <= n
    ensures Accepts(t, LeadNumber(x, order, k, n)) == Accepts(ThroughLead(t, order, k, n), x)
  {
    hide Accepts;
    hide Pow2;
    if order == Big {
      RightAccepts(t, 8 * (n - k), x);
    } else {
      LowAccepts(t, 8 * k, x);
    }
  }

  /* ---- A node and its operand ---- */

  /** What is computed in full before the instruction of the node itself. */
  function Operand(t: Term): Term
  {
    match t
    case Binop(_, _, _, _, _) => Base(t)
    case Shift(_, left, _, _) => left
    case Swap(_, arg) => arg
    case _ => t
  }

  /** A chain of bit operations on a number. */
  function ChainValue(t: Term, x: nat): nat
  {
    if t.Binop? then NatBits(t.op, ChainValue(t.left, x), t.right) else x
  }

  /** The value of a node from that of its operand. */
  function ValueOf(t: Term, x: nat): nat
  {
    match t
    case Binop(_, _, _, _, _) => ChainValue(t, x)
    case Shift(toLeft, _, count, len) => if toLeft then Shl(x, count) % Pow2(len) else Shr(x, count)
    case _ => x
  }

  lemma {:induction false} ChainIsNested(t: Term, x: nat)
    ensures ChainValue(t, x) == Nested(x, Steps(t))
    decreases t
  {
    hide Bitwise;
    if t.Binop? {
      ChainIsNested(t.left, x);
      assert Steps(t)[..|Steps(t.left)|] == Steps(t.left);
    }
  }

  lemma {:induction false} ValueOfOperand(t: Term, w: World)
    ensures Eval(t, w) == ValueOf(t, Eval(Operand(t), w))
  {
    hide Bitwise;
    hide NatBits;
    if t.Binop? {
      EvalIsNested(t, w);
      ChainIsNested(t, Eval(Base(t), w));
    }
  }

  /** The operand is as long as the node in bytes, and its order is the one that the
      bytes are in before the instruction of the node. */
  lemma {:induction false} OperandAlike(t: Term, w: World)
    requires WellTyped(t, w)
    ensures WellTyped(Operand(t), w) && ByteLen(TermLen(Operand(t))) == ByteLen(TermLen(t))
    ensures Space(TermLen(Operand(t))) == Space(TermLen(t))
    ensures Present(Operand(t), w) == Present(t, w) && Need(Operand(t)) == Need(t)
    ensures !t.Swap? ==> TermOrder(Operand(t)) == TermOrder(t)
    ensures t.Swap? ==> TermOrder(Operand(t)) != TermOrder(t)
  {
    if t.Binop? {
      BaseAlike(t, w);
    }
    SpaceOfBytes(TermLen(t));
    SpaceOfBytes(TermLen(Operand(t)));
  }

  /* ---- The shortened code, and the bytes it leaves ---- */

  /** The code of a node of p bits over an operand that has its own length. */
  function ShortCode(t: Term, p: nat, dreg: nat, low: nat): seq<Instr>
    requires p > 0
  {
    var d, k := PutRegister(dreg), ByteLen(p);
    match t
    case Field(key, _, _) => [Load(key, d, k)]
    case Binop(_, _, _, _, _) =>
      TermCode(Base(t), dreg, low)
      + [BitwiseBool(d, d, k, RawData(Abs(Mask(Steps(t), p)), t.order, k),
          RawData(Abs(Flips(Steps(t), p)), t.order, k))]
    case Shift(toLeft, left, count, _) =>
      TermCode(left, dreg, low) + [BitwiseShift(d, d, k, toLeft, Export(count, Host, 4))]
    case Swap(_, arg) =>
      TermCode(arg, dreg, low) + [ByteOrderSwap(d, d, p / 8, SwapSize(TermLen(arg)))]
    case _ => TermCode(t, dreg, low)
  }

  /** The leading bytes afterwards, for a value x of the operand. */
  function ShortBytes(t: Term, p: nat, x: nat): seq<Byte>
    requires 0 < p && ByteLen(p) <= ByteLen(TermLen(t))
  {
    var k := ByteLen(p);
    var s := Export(x, TermOrder(Operand(t)), ByteLen(TermLen(t)))[..k];
    match t
    case Binop(_, _, _, _, _) =>
      ByteBits(Xor, ByteBits(And, s, RawData(Abs(Mask(Steps(t), p)), t.order, k)),
        RawData(Abs(Flips(Steps(t), p)), t.order, k))
    case Shift(toLeft, _, count, _) => ShiftBytes(s, toLeft, count)
    case Swap(_, arg) => SwapChunks(s, SwapSize(TermLen(arg)))
    case _ => s
  }

  lemma {:induction false} ShortLength(t: Term, p: nat, x: nat)
    requires 0 < p && ByteLen(p) <= ByteLen(TermLen(t))
    ensures |ShortBytes(t, p, x)| == ByteLen(p)
  {
    if t.Swap? {
      SwapKeepsLength(Export(x, TermOrder(Operand(t)), ByteLen(TermLen(t)))[..ByteLen(p)], SwapSize(TermLen(t.arg)));
    }
  }

  /** What the code leaves in the destination and the slots below low. */
  ghost predicate ShortPlaced(o: Outcome, present: bool, dreg: nat, s: seq<Byte>)
  {
    Fits(dreg, |s|) && if present then o.Running? && Read(o.regs, dreg, |s|) == s else o == NoMatch
  }

  lemma {:induction false} FitsFewer(slot: nat, k: nat, n: nat)
    requires k <= n && Fits(slot, n)
    ensures Fits(slot, k)
  {
  }

  lemma {:induction false} ReadLeading(r: Regs, slot: nat, k: nat, n: nat)
    requires k <= n && Fits(slot, n) && Fits(slot, k)
    ensures Read(r, slot, k) == Read(r, slot, n)[..k]
  {
  }

  /** The operand in full, and then one instruction on its first bytes. */
  lemma {:induction false} ThenShort(code: seq<Instr>, i: Instr, present: bool, regs: Regs, dreg: nat,
      before: seq<Byte>, after: seq<Byte>, low: nat, w: World)
    requires 1 <= dreg && 1 <= low && |after| <= |before|
    requires Computed(Run(code, regs, w), present, regs, dreg, before, low)
    requires Offset(dreg) + PadLength(|before|) <= Offset(low)
    requires var o := Run(code, regs, w);
      Fits(dreg, |after|) && (o.Running? && Read(o.regs, dreg, |after|) == before[..|after|] ==>
        Exec(i, o.regs, w) == Running(Write(o.regs, dreg, after)))
    ensures ShortPlaced(Run(code + [i], regs, w), present, dreg, after)
  {
    hide Run;
    hide Exec;
    hide Write;
    hide Read;
    hide SameBelow;
    RunAppend(code, [i], regs, w);
    if present {
      var r := Run(code, regs, w).regs;
      OperandRead(r, regs, dreg, before, low);
      ReadLeading(r, dreg, |after|, |before|);
      RunOne(i, r, w);
      WriteRead(r, dreg, after);
    }
  }

  /** Without an instruction of the node: the first bytes of what is there. */
  lemma {:induction false} ThenNothing(code: seq<Instr>, present: bool, regs: Regs, dreg: nat,
      before: seq<Byte>, k: nat, low: nat, w: World)
    requires 1 <= dreg && 1 <= low && k <= |before|
    requires Computed(Run(code, regs, w), present, regs, dreg, before, low)
    requires Offset(dreg) + PadLength(|before|) <= Offset(low)
    ensures ShortPlaced(Run(code, regs, w), present, dreg, before[..k])
  {
    hide Run;
    hide Write;
    hide Read;
    hide SameBelow;
    FitsFewer(dreg, k, |before|);
    if present {
      var r := Run(code, regs, w).regs;
      OperandRead(r, regs, dreg, before, low);
      ReadLeading(r, dreg, k, |before|);
    }
  }

  /** The fields that a node loads are there as a whole or not at all. */
  predicate WholeField(t: Term, w: World)
  {
    t.Field? ==> (t.key in w.fields ==> HasField(t.key, t.len, w))
  }

  lemma {:induction false} ShortField(t: Term, p: nat, dreg: nat, low: nat, regs: Regs, w: World)
    requires t.Field? && WholeField(t, w) && 0 < p && ByteLen(p) <= ByteLen(t.len)
    requires Fits(dreg, ByteLen(p)) && dreg <= SLOTS
    ensures ShortPlaced(Run(ShortCode(t, p, dreg, low), regs, w), Present(t, w), dreg, ShortBytes(t, p, Eval(t, w)))
  {
    hide Run;
    hide Export;
    hide Import;
    hide Write;
    hide Read;
    hide Put;
    var k := ByteLen(p);
    var i := Load(t.key, PutRegister(dreg), k);
    assert ShortCode(t, p, dreg, low) == [i];
    RunOne(i, regs, w);
    if Present(t, w) {
      var s := w.fields[t.key];
      ExportImport(s[..ByteLen(t.len)], t.order);
      assert s[..ByteLen(t.len)][..k] == s[..k];
      PutSlot(regs, dreg, s[..k]);
      WriteRead(regs, dreg, s[..k]);
    }
  }

  lemma {:induction false} ShortFold(t: Term, p: nat, dreg: nat, low: nat, regs: Regs, w: World)
    requires t.Binop? && WellTyped(t, w) && 0 < p && ByteLen(p) <= ByteLen(t.len)
    requires 1 <= dreg && dreg + Space(t.len) <= low && low + Need(t) <= SLOTS + 1
    ensures ShortPlaced(Run(ShortCode(t, p, dreg, low), regs, w), Present(t, w), dreg,
      ShortBytes(t, p, Eval(Operand(t), w)))
  {
    hide Run;
    hide Exec;
    hide Export;
    hide RawData;
    hide Write;
    hide Read;
    hide SameBelow;
    hide Mask;
    hide Flips;
    hide ByteBits;
    hide Eval;
    hide WellTyped;
    OperandAlike(t, w);
    SpaceOfBytes(TermLen(t));
    var b, k := Base(t), ByteLen(p);
    TermRuns(b, dreg, low, regs, w);
    FitsFewer(dreg, k, |TermImage(b, w)|);
    var d := PutRegister(dreg);
    var mask := RawData(Abs(Mask(Steps(t), p)), t.order, k);
    var flips := RawData(Abs(Flips(Steps(t), p)), t.order, k);
    var o := Run(TermCode(b, dreg, low), regs, w);
    if o.Running? {
      ExecBool(o.regs, dreg, mask, flips, w);
    }
    ThenShort(TermCode(b, dreg, low), BitwiseBool(d, d, k, mask, flips), Present(t, w), regs, dreg,
      TermImage(b, w), ShortBytes(t, p, Eval(b, w)), low, w);
  }

  lemma {:induction false} ShortShift(t: Term, p: nat, dreg: nat, low: nat, regs: Regs, w: World)
    requires t.Shift? && WellTyped(t, w) && 0 < p && ByteLen(p) <= ByteLen(t.len)
    requires 1 <= dreg && dreg + Space(t.len) <= low && low + Need(t) <= SLOTS + 1
    ensures ShortPlaced(Run(ShortCode(t, p, dreg, low), regs, w), Present(t, w), dreg,
      ShortBytes(t, p, Eval(Operand(t), w)))
  {
    hide Run;
    hide Exec;
    hide Export;
    hide Import;
    hide ShiftBytes;
    hide Write;
    hide Read;
    hide SameBelow;
    hide Eval;
    SpaceOfBytes(TermLen(t));
    var k, d := ByteLen(p), PutRegister(dreg);
    TermRuns(t.left, dreg, low, regs, w);
    FitsFewer(dreg, k, |TermImage(t.left, w)|);
    var data := Export(t.count, Host, 4);
    ImportExport(t.count, Host, 4);
    var o := Run(TermCode(t.left, dreg, low), regs, w);
    if o.Running? {
      ExecShift(o.regs, dreg, k, t.toLeft, data, w);
    }
    ShortLength(t, p, Eval(t.left, w));
    ThenShort(TermCode(t.left, dreg, low), BitwiseShift(d, d, k, t.toLeft, data), Present(t, w), regs, dreg,
      TermImage(t.left, w), ShortBytes(t, p, Eval(t.left, w)), low, w);
  }

  lemma {:induction false} ShortSwapRuns(t: Term, p: nat, dreg: nat, low: nat, regs: Regs, w: World)
    requires t.Swap? && WellTyped(t, w) && 0 < p && p % 8 == 0 && ByteLen(p) <= ByteLen(TermLen(t))
    requires 1 <= dreg && dreg + Space(TermLen(t)) <= low && low + Need(t) <= SLOTS + 1
    ensures ShortPlaced(Run(ShortCode(t, p, dreg, low), regs, w), Present(t, w), dreg,
      ShortBytes(t, p, Eval(Operand(t), w)))
  {
    hide Run;
    hide Exec;
    hide Export;
    hide SwapChunks;
    hide Write;
    hide Read;
    hide SameBelow;
    hide Eval;
    SpaceOfBytes(TermLen(t));
    var k, d, size := p / 8, PutRegister(dreg), SwapSize(TermLen(t.arg));
    assert k == ByteLen(p);
    TermRuns(t.arg, dreg, low, regs, w);
    FitsFewer(dreg, k, |TermImage(t.arg, w)|);
    var o := Run(TermCode(t.arg, dreg, low), regs, w);
    if o.Running? {
      ExecSwap(o.regs, dreg, k, size, w);
    }
    ShortLength(t, p, Eval(t.arg, w));
    ThenShort(TermCode(t.arg, dreg, low), ByteOrderSwap(d, d, k, size), Present(t, w), regs, dreg,
      TermImage(t.arg, w), ShortBytes(t, p, Eval(t.arg, w)), low, w);
  }

  /** The shortened code leaves these bytes, whatever the node is. */
  lemma {:induction false} ShortRuns(t: Term, p: nat, dreg: nat, low: nat, regs: Regs, w: World)
    requires WellTyped(t, w) && WholeField(t, w)
    requires 0 < p && p % 8 == 0 && ByteLen(p) <= ByteLen(TermLen(t))
    requires 1 <= dreg && dreg + Space(TermLen(t)) <= low && low + Need(t) <= SLOTS + 1
    ensures ShortPlaced(Run(ShortCode(t, p, dreg, low), regs, w), Present(t, w), dreg,
      ShortBytes(t, p, Eval(Operand(t), w)))
  {
    hide Run;
    hide Export;
    hide ShortPlaced;
    SpaceOfBytes(TermLen(t));
    match t
    case Field(_, _, _) =>
      FitsFewer(dreg, ByteLen(p), ByteLen(TermLen(t)));
      ShortField(t, p, dreg, low, regs, w);
    case Binop(_, _, _, _, _) => ShortFold(t, p, dreg, low, regs, w);
    case Shift(_, _, _, _) => ShortShift(t, p, dreg, low, regs, w);
    case Swap(_, _) => ShortSwapRuns(t, p, dreg, low, regs, w);
    case _ =>
      TermRuns(t, dreg, low, regs, w);
      ThenNothing(TermCode(t, dreg, low), Present(t, w), regs, dreg, TermImage(t, w), ByteLen(p), low, w);
  }

  /** Whether these bytes are the leading ones of a constant v. */
  predicate ShortTest(t: Term, p: nat, v: nat, x: nat)
    requires 0 < p && ByteLen(p) <= ByteLen(TermLen(t))
  {
    ShortBytes(t, p, x) == Export(v, TermOrder(t), ByteLen(TermLen(t)))[..ByteLen(p)]
  }

  /* ---- The same as a test of the bits of the operand ---- */

  /** The instruction of the node, undone on a test of its k bytes for a number u. */
  function NodeTest(t: Term, p: nat, u: nat): BitTest
    requires 0 < p && ByteLen(p) <= ByteLen(TermLen(t))
  {
    var k := ByteLen(p);
    match t
    case Binop(_, _, _, _, _) =>
      ThroughFold(EqualTo(u, 8 * k), RawNumber(Abs(Mask(Steps(t), p)), t.order, k),
        RawNumber(Abs(Flips(Steps(t), p)), t.order, k))
    case Shift(toLeft, _, count, _) =>
      if toLeft then ThroughLeft(Within(EqualTo(u, 8 * k), 8 * k), count) else ThroughRight(EqualTo(u, 8 * k), count)
    case Swap(_, arg) =>
      EqualTo(if k < SwapSize(TermLen(arg)) then Import(Export(u, TermOrder(t), k), TermOrder(arg)) else u, 8 * k)
    case _ => EqualTo(u, 8 * k)
  }

  function EmittedTest(t: Term, p: nat, v: nat): BitTest
    requires 0 < p && ByteLen(p) <= ByteLen(TermLen(t))
  {
    var k, n := ByteLen(p), ByteLen(TermLen(t));
    ThroughLead(NodeTest(t, p, LeadNumber(v, TermOrder(t), k, n)), TermOrder(Operand(t)), k, n)
  }

  lemma {:induction false} FoldedTest(s: nat, mask: nat, flips: nat, u: nat, order: ByteOrder, k: nat)
    requires s < Pow2(8 * k) && mask < Pow2(8 * k) && flips < Pow2(8 * k) && u < Pow2(8 * k)
    ensures ByteBits(Xor, ByteBits(And, Export(s, order, k), Export(mask, order, k)), Export(flips, order, k))
        == Export(u, order, k)
      <==> Accepts(ThroughFold(EqualTo(u, 8 * k), mask, flips), s)
  {
    hide Export;
    hide ByteBits;
    hide Accepts;
    hide Pow2;
    hide Bitwise;
    var a := NatBits(And, s, mask);
    var y := NatBits(Xor, a, flips);
    ExportBitwise(And, s, mask, order, k);
    ExportBitwise(Xor, a, flips, order, k);
    BitwiseBelow(And, s, mask, 8 * k);
    XorFits(a, flips, 8 * k);
    ExportInjective(y, u, order, k);
    EqualAccepts(u, 8 * k, y);
    FoldAccepts(EqualTo(u, 8 * k), mask, flips, s);
  }

  lemma {:induction false} ShiftedTest(s: nat, toLeft: bool, count: nat, u: nat, k: nat)
    requires s < Pow2(8 * k) && u < Pow2(8 * k)
    ensures ShiftBytes(Export(s, Host, k), toLeft, count) == Export(u, Host, k)
      <==> Accepts(if toLeft then ThroughLeft(Within(EqualTo(u, 8 * k), 8 * k), count)
          else ThroughRight(EqualTo(u, 8 * k), count), s)
  {
    hide Export;
    hide Import;
    hide Accepts;
    hide Pow2;
    hide Shl;
    hide Shr;
    var p := Pow2(8 * k);
    ImportExport(s, Host, k);
    if toLeft {
      var y := Shl(s, count);
      ExportModulo(y, k);
      ExportInjective(y % p, u, Host, k);
      EqualAccepts(u, 8 * k, y % p);
      LowAccepts(EqualTo(u, 8 * k), 8 * k, y);
      LeftAccepts(Within(EqualTo(u, 8 * k), 8 * k), count, s);
    } else {
      var y := Shr(s, count);
      ShrBelow(s, count);
      ExportInjective(y, u, Host, k);
      EqualAccepts(u, 8 * k, y);
      RightAccepts(EqualTo(u, 8 * k), count, s);
    }
  }

  lemma {:induction false} SwappedTest(s: nat, order: ByteOrder, size: nat, u: nat, k: nat)
    requires s < Pow2(8 * k) && u < Pow2(8 * k) && 0 < k <= size
    ensures var other := if order == Big then Host else Big;
      var v := if k < size then Import(Export(u, order, k), other) else u;
      SwapChunks(Export(s, other, k), size) == Export(u, order, k) <==> Accepts(EqualTo(v, 8 * k), s)
  {
    hide Export;
    hide Import;
    hide Accepts;
    hide Pow2;
    hide SwapChunks;
    var other := if order == Big then Host else Big;
    if k < size {
      var v := Import(Export(u, order, k), other);
      ExportImport(Export(u, order, k), other);
      ShortSwap(Export(s, other, k), size);
      ExportInjective(s, v, other, k);
      EqualAccepts(v, 8 * k, s);
    } else {
      SwapOne(Export(s, other, k));
      ExportOtherOrder(s, k);
      ExportInjective(s, u, order, k);
      EqualAccepts(u, 8 * k, s);
    }
  }

  lemma {:induction false} ShortSwap(s: seq<Byte>, size: nat)
    requires |s| < size
    ensures SwapChunks(s, size) == s
  {
  }

  lemma {:induction false} PlainTest(s: nat, u: nat, order: ByteOrder, k: nat)
    requires s < Pow2(8 * k) && u < Pow2(8 * k)
    ensures Export(s, order, k) == Export(u, order, k) <==> Accepts(EqualTo(u, 8 * k), s)
  {
    hide Export;
    hide Accepts;
    ExportInjective(s, u, order, k);
    EqualAccepts(u, 8 * k, s);
  }

  /** The comparison of bytes accepts exactly the operands that the test accepts. */
  lemma {:induction false} ShortIsTest(t: Term, p: nat, v: nat, x: nat, w: World)
    requires WellTyped(t, w) && 0 < p && ByteLen(p) <= ByteLen(TermLen(t))
    requires x < Pow2(8 * ByteLen(TermLen(t))) && v < Pow2(8 * ByteLen(TermLen(t)))
    ensures ShortTest(t, p, v, x) <==> Accepts(EmittedTest(t, p, v), x)
  {
    hide Export;
    hide Import;
    hide Accepts;
    hide Pow2;
    hide ByteBits;
    hide ShiftBytes;
    hide SwapChunks;
    hide WellTyped;
    hide RawNumber;
    hide LeadNumber;
    hide ThroughLead;
    hide ThroughFold;
    hide Mask;
    hide Flips;
    var k, n := ByteLen(p), ByteLen(TermLen(t));
    OperandAlike(t, w);
    var o, o' := TermOrder(t), TermOrder(Operand(t));
    LeadBytes(x, o', k, n);
    LeadBytes(v, o, k, n);
    var s, u := LeadNumber(x, o', k, n), LeadNumber(v, o, k, n);
    LeadAccepts(NodeTest(t, p, u), o', k, n, x);
    match t
    case Binop(_, _, _, _, _) =>
      RawNumberFits(Abs(Mask(Steps(t), p)), t.order, k);
      RawNumberFits(Abs(Flips(Steps(t), p)), t.order, k);
      FoldedTest(s, RawNumber(Abs(Mask(Steps(t), p)), t.order, k),
        RawNumber(Abs(Flips(Steps(t), p)), t.order, k), u, o, k);
    case Shift(toLeft, _, count, _) => ShiftedTest(s, toLeft, count, u, k);
    case Swap(_, arg) =>
      SwapWhole(t, w);
      SwappedTest(s, o, SwapSize(TermLen(arg)), u, k);
    case _ => PlainTest(s, u, o, k);
  }

  lemma {:induction false} SwapWhole(t: Term, w: World)
    requires t.Swap? && WellTyped(t, w)
    ensures SwapSize(TermLen(t.arg)) == ByteLen(TermLen(t))
  {
  }

  /* ---- When that is the comparison of prefixes ---- */

  /** Two numbers of len bits agree on their first p bits, or on their last ones,
      which are the first bytes of a string in host order. */
  predicate SameLead(x: nat, v: nat, len: nat, p: nat, low: bool)
    requires p <= len
  {
    if low then x % Pow2(p) == v % Pow2(p) else Shr(x, len - p) == Shr(v, len - p)
  }

  /** The same as a test of x, for numbers of n bytes. */
  function LeadTest(v: nat, len: nat, p: nat, low: bool, n: nat): BitTest
    requires p <= len
  {
    if low then Within(EqualTo(v % Pow2(p), p), p) else ThroughRight(EqualTo(Shr(v, len - p), 8 * n), len - p)
  }

  lemma {:induction false} LeadIsTest(x: nat, v: nat, len: nat, p: nat, low: bool, n: nat)
    requires p <= len && x < Pow2(8 * n)
    ensures SameLead(x, v, len, p, low) <==> Accepts(LeadTest(v, len, p, low, n), x)
  {
    hide Accepts;
    hide Pow2;
    if low {
      LowAccepts(EqualTo(v % Pow2(p), p), p, x);
      EqualAccepts(v % Pow2(p), p, x % Pow2(p));
    } else {
      ShrBelow(x, len - p);
      RightAccepts(EqualTo(Shr(v, len - p), 8 * n), len - p, x);
      EqualAccepts(Shr(v, len - p), 8 * n, Shr(x, len - p));
    }
  }

  /** The bits that the operand may have: all those of its bytes where a mask cuts
      them, otherwise those of its length. */
  function Room(t: Term): (n: nat)
    ensures n <= 8 * ByteLen(TermLen(t)) || TermLen(Operand(t)) == n
  {
    if Cuts(t) then 8 * ByteLen(TermLen(t)) else TermLen(Operand(t))
  }

  lemma {:induction false} RoomInBytes(t: Term, w: World)
    requires WellTyped(t, w)
    ensures Room(t) <= 8 * ByteLen(TermLen(t))
  {
    OperandAlike(t, w);
  }

  /** The values of the operand that there is room for give values of the length of
      the chain. */
  lemma {:induction false} ChainFits(t: Term, x: nat, w: World)
    requires t.Binop? && Shaped(t, w) && HasLength(t, w)
    requires Cuts(t) || x < Pow2(TermLen(Base(t)))
    ensures ChainValue(t, x) < Pow2(t.len)
    decreases t
  {
    hide Bitwise;
    hide NatBits;
    hide Pow2;
    hide Steps;
    hide ConstantsFit;
    LastFits(t, t.len);
    if !(t.op == And && t.right < Pow2(t.len)) {
      if t.left.Binop? {
        ChainFits(t.left, x, w);
      } else {
        assert Base(t) == Base(t.left) == t.left && !Cuts(t.left);
      }
    }
    CutFits(t.op, ChainValue(t.left, x), t.right, t.len, TermLen(t.left));
  }

  /** The meaning of a node, undone on a test of its value. */
  function ThroughNode(t: Term, test: BitTest): BitTest
  {
    match t
    case Binop(_, _, _, _, len) =>
      ThroughFold(test, Abs(Mask(Steps(t), len)), Abs(Flips(Steps(t), len)))
    case Shift(toLeft, _, count, len) =>
      if toLeft then ThroughLeft(Within(test, len), count) else ThroughRight(test, count)
    case _ => test
  }

  lemma {:induction false} NodeMeans(t: Term, test: BitTest, x: nat, w: World)
    requires WellTyped(t, w) && x < Pow2(Room(t))
    ensures Accepts(test, ValueOf(t, x)) == Accepts(ThroughNode(t, test), x)
    ensures ValueOf(t, x) < Pow2(8 * ByteLen(TermLen(t)))
  {
    hide Accepts;
    hide Pow2;
    hide Bitwise;
    hide ThroughFold;
    hide Shl;
    hide Shr;
    hide HasLength;
    hide ConstantsFit;
    hide ChainValue;
    hide Cuts;
    assert Cuts(t) ==> t.Binop? by { OnlyChainsCut(t); }
    OperandAlike(t, w);
    ByteLenPower(TermLen(t));
    ByteLenPower(TermLen(Operand(t)));
    match t
    case Binop(_, _, _, _, len) =>
      BaseAlike(t, w);
      ChainFits(t, x, w);
      ChainIsNested(t, x);
      FoldModulo(x, Steps(t), len);
      SmallModulo(ChainValue(t, x), Pow2(len));
      FoldAccepts(test, Mask(Steps(t), len), Flips(Steps(t), len), x);
    case Shift(toLeft, _, count, len) =>
      if toLeft {
        LowAccepts(test, len, Shl(x, count));
        LeftAccepts(Within(test, len), count, x);
      } else {
        ShrBelow(x, count);
        RightAccepts(test, count, x);
      }
    case _ =>
  }

  lemma {:induction false} OnlyChainsCut(t: Term)
    ensures Cuts(t) ==> t.Binop?
  {
  }

  /** A prefix of p bits of a constant v of len bits, compared by bytes. */
  ghost predicate ShortRight(t: Term, p: nat, v: nat, len: nat, low: bool)
    requires 0 < p <= len && ByteLen(len) == ByteLen(TermLen(t))
  {
    forall x: nat :: x < Pow2(Room(t)) ==> ShortTest(t, p, v, x) == SameLead(ValueOf(t, x), v, len, p, low)
  }

  predicate ShortSame(t: Term, p: nat, v: nat, len: nat, low: bool)
    requires 0 < p <= len && ByteLen(len) == ByteLen(TermLen(t))
  {
    SameOn(EmittedTest(t, p, v), ThroughNode(t, LeadTest(v, len, p, low, ByteLen(len))), Room(t))
  }

  /** The emitted comparison is right for all values of the operand if and only if
      the test that it comes to looks the same as the one that is meant: the same
      bits of the operand with the same values, or neither possible. */
  lemma {:induction false} ShortExact(t: Term, p: nat, v: nat, len: nat, low: bool, w: World)
    requires WellTyped(t, w) && 0 < p <= len && ByteLen(len) == ByteLen(TermLen(t)) && v < Pow2(len)
    ensures ShortRight(t, p, v, len, low) <==> ShortSame(t, p, v, len, low)
  {
    hide Accepts;
    hide Pow2;
    hide WellTyped;
    hide SameOn;
    hide ShortTest;
    hide SameLead;
    hide LeadTest;
    hide ThroughNode;
    hide Room;
    var n, width := ByteLen(len), Room(t);
    var a, m := EmittedTest(t, p, v), LeadTest(v, len, p, low, n);
    var b := ThroughNode(t, m);
    RoomInBytes(t, w);
    ByteLenPower(len);
    Pow2Monotone(width, 8 * ByteLen(TermLen(t)));
    forall x: nat | x < Pow2(width)
      ensures Accepts(a, x) == ShortTest(t, p, v, x)
      ensures Accepts(b, x) == SameLead(ValueOf(t, x), v, len, p, low)
    {
      ShortIsTest(t, p, v, x, w);
      NodeMeans(t, m, x, w);
      LeadIsTest(ValueOf(t, x), v, len, p, low, n);
    }
    SameOnExact(a, b, width);
  }

  /* ---- Other prefixes: a mask on the whole bytes of the type ---- */

  /** mpz_prefixmask */
  function PrefixMask(width: nat, prefixLen: nat): nat
    requires prefixLen <= width
  {
    Shl(Ones(prefixLen), width - prefixLen)
  }

  lemma {:induction false} OnesSplit(width: nat, p: nat)
    requires p <= width
    ensures PrefixMask(width, p) < Pow2(width) && Pow2(width) == Pow2(width - p) * Pow2(p)
  {
    Pow2Add(width - p, p);
    DistSub(Pow2(width - p), Pow2(p), 1);
  }

  /** The prefix mask clears the low bits and keeps the others. */
  lemma {:induction false} PrefixMaskKeeps(x: nat, width: nat, p: nat)
    requires x < Pow2(width) && p <= width
    ensures NatBits(And, x, PrefixMask(width, p)) == Shl(Shr(x, width - p), width - p)
  {
    hide Bitwise;
    hide Pow2;
    var k := width - p;
    OnesSplit(width, p);
    QuotientBelow(x, Pow2(k), Pow2(p));
    MaskBlock(x % Pow2(k), x / Pow2(k), k, p);
  }

  lemma {:induction false} AlignedEqual(x: nat, v: nat, k: nat)
    requires v % Pow2(k) == 0
    ensures Shl(Shr(x, k), k) == v <==> Shr(x, k) == Shr(v, k)
  {
    hide Pow2;
    var q := Pow2(k);
    assert v == q * (v / q);
    if q * (x / q) == v {
      DivUnique(v, q, x / q, 0);
    }
  }

  /** The bytes that the instruction masks, and the one after them where the length is
      not whole bytes: it is padding of the result, or it stays. */
  function MaskBytes(order: ByteOrder, len: nat, p: nat): (s: seq<Byte>)
    requires 8 <= len && p <= len
    ensures |s| == ByteLen(len)
  {
    var m := len / 8;
    RawData(PrefixMask(len, p), order, m) + (if len % 8 == 0 then [] else [if m % 4 == 0 then 255 else 0])
  }

  /** The mask that is in effect on the value. */
  function MaskedBy(order: ByteOrder, len: nat, p: nat): nat
    requires 8 <= len && p <= len
  {
    Import(MaskBytes(order, len, p), order)
  }

  lemma {:induction false} WholeBytesMask(order: ByteOrder, len: nat, p: nat)
    requires 8 <= len && p <= len && len % 8 == 0
    ensures MaskedBy(order, len, p) == PrefixMask(len, p)
  {
    hide Export;
    hide Import;
    hide Pow2;
    hide PrefixMask;
    OnesSplit(len, p);
    assert 8 * (len / 8) == len;
    RawDataFits(PrefixMask(len, p), order, len / 8);
    assert MaskBytes(order, len, p) == Export(PrefixMask(len, p), order, len / 8);
    ImportExport(PrefixMask(len, p), order, len / 8);
  }

  lemma {:induction false} XorZeros(s: seq<Byte>)
    ensures ByteBits(Xor, s, Zeros(|s|)) == s
  {
    forall i | 0 <= i < |s|
      ensures ByteBit(Xor, s[i], 0) == s[i]
    {
      BitwiseConstant(Xor, s[i]);
    }
  }

  lemma {:induction false} LastMasked(x: Byte)
    ensures ByteBit(And, x, 255) == x && ByteBit(And, x, 0) == 0
  {
    BytePower();
    AndOnes(x, 8);
    BitwiseConstant(And, x);
  }

  /** One byte more than was written: padding, or what was there. */
  lemma {:induction false} ReadOneMore(r: Regs, slot: nat, t: seq<Byte>, n: nat)
    requires |t| <= n <= |t| + 1 && Fits(slot, n) && Fits(slot, |t|)
    ensures Read(Write(r, slot, t), slot, n)
      == t + (if n == |t| then [] else [if |t| % 4 == 0 then Read(r, slot, n)[|t|] else 0])
  {
    hide Zeros;
    WriteRead(r, slot, t);
    var r', at := Write(r, slot, t), Offset(slot);
    assert Read(r', slot, n)[..|t|] == t;
    if n > |t| {
      assert Read(r', slot, n)[|t|] == r'[at + |t|];
      if |t| % 4 == 0 {
        assert PadLength(|t|) == |t|;
      } else {
        assert r'[at + |t|] == Padded(t)[|t|];
      }
    }
  }

  /** The instruction on the value in a slot, read back with all its bytes. */
  lemma {:induction false} MaskedRead(r: Regs, slot: nat, x: nat, order: ByteOrder, len: nat, p: nat)
    requires 8 <= len && p <= len && Fits(slot, ByteLen(len)) && Fits(slot, len / 8)
    requires Read(r, slot, ByteLen(len)) == Export(x, order, ByteLen(len))
    ensures var m := len / 8;
      var t := ByteBits(Xor, ByteBits(And, Read(r, slot, m), RawData(PrefixMask(len, p), order, m)), Zeros(m));
      Read(Write(r, slot, t), slot, ByteLen(len)) == Export(NatBits(And, x, MaskedBy(order, len, p)), order, ByteLen(len))
  {
    hide Export;
    hide Import;
    hide Bitwise;
    hide PrefixMask;
    hide RawData;
    hide Read;
    hide Write;
    var m, n := len / 8, ByteLen(len);
    var s, raw := Export(x, order, n), RawData(PrefixMask(len, p), order, m);
    ReadLeading(r, slot, m, n);
    var t := ByteBits(And, s[..m], raw);
    XorZeros(t);
    ReadOneMore(r, slot, t, n);
    LastByteMasked(s, MaskBytes(order, len, p), m);
    ExportImport(MaskBytes(order, len, p), order);
    ExportBitwise(And, x, MaskedBy(order, len, p), order, n);
  }

  lemma {:induction false} LastByteMasked(s: seq<Byte>, mask: seq<Byte>, m: nat)
    requires |s| == |mask| && m <= |s| <= m + 1 && (m < |s| ==> mask[m] == if m % 4 == 0 then 255 else 0)
    ensures ByteBits(And, s, mask) == ByteBits(And, s[..m], mask[..m])
      + (if |s| == m then [] else [if m % 4 == 0 then s[m] else 0])
  {
    if m < |s| {
      LastMasked(s[m]);
    }
  }

  /** Whether the masked value is the constant. */
  predicate MaskTest(order: ByteOrder, len: nat, p: nat, v: nat, x: nat)
    requires 8 <= len && p <= len
  {
    NatBits(And, x, MaskedBy(order, len, p)) == v
  }

  ghost predicate MaskRight(order: ByteOrder, len: nat, p: nat, v: nat, width: nat)
    requires 8 <= len && p <= len
  {
    forall x: nat :: x < Pow2(width) ==> MaskTest(order, len, p, v, x) == SameLead(x, v, len, p, false)
  }

  /** The masked comparison is right for all values of a width if and only if the
      mask in effect is the one that is meant, or neither can hold. */
  lemma {:induction false} MaskExact(order: ByteOrder, len: nat, p: nat, v: nat, width: nat)
    requires 8 <= len && p <= len && width <= 8 * ByteLen(len)
    ensures MaskRight(order, len, p, v, width) <==>
      SameOn(BitTest(MaskedBy(order, len, p), v), LeadTest(v, len, p, false, ByteLen(len)), width)
  {
    hide Pow2;
    hide SameOn;
    hide SameLead;
    hide LeadTest;
    hide MaskedBy;
    hide NatBits;
    var a, b := BitTest(MaskedBy(order, len, p), v), LeadTest(v, len, p, false, ByteLen(len));
    Pow2Monotone(width, 8 * ByteLen(len));
    forall x: nat | x < Pow2(width)
      ensures Accepts(a, x) == MaskTest(order, len, p, v, x) && Accepts(b, x) == SameLead(x, v, len, p, false)
    {
      LeadIsTest(x, v, len, p, false, ByteLen(len));
    }
    SameOnExact(a, b, width);
  }

  /** With a cleared base and a length of whole bytes it is right. */
  lemma {:induction false} WholeBytesRight(order: ByteOrder, len: nat, p: nat, v: nat, x: nat)
    requires 8 <= len && p <= len && len % 8 == 0 && v % Pow2(len - p) == 0 && x < Pow2(len)
    ensures MaskTest(order, len, p, v, x) <==> SameLead(x, v, len, p, false)
  {
    hide Pow2;
    hide NatBits;
    hide Shl;
    hide Shr;
    WholeBytesMask(order, len, p);
    PrefixMaskKeeps(x, len, p);
    AlignedEqual(x, v, len - p);
  }
}
