/** Relational statements, verdicts and verdict maps: what they mean, the
    instructions netlink_linearize.c emits for them, and why a compiled rule
    decides as the rule does. */
module Rules {
  import opened Lengths
  import opened Arith
  import opened Bits
  import opened PowerOfTwo
  import opened BinopFold
  import opened Bytes
  import opened Machine
  import opened Terms
  import opened Linearize
  import opened Shortened

  datatype RelOp = Implicit | Eq | Neq | Lt | Gt | Lte | Gte | Neg

  /** The right side of a relation.  flags tells that the type of a constant is a
      bit mask, text that a prefix is one of a string. */
  datatype Rhs =
    | Const(value: nat, order: ByteOrder, len: nat, flags: bool)
    | Range(low: nat, high: nat, order: ByteOrder, len: nat)
    | Prefix(value: nat, order: ByteOrder, len: nat, prefixLen: nat, text: bool)
    | SetRef(setId: nat)

  datatype Stmt =
    | Match(left: Expr, op: RelOp, right: Rhs)
    | Vmap(key: Expr, setId: nat)
    | Decision(verdict: Verdict)

  /** What a rule, or one statement of it, comes to. */
  datatype Judgement = GoOn | Mismatch | Decided(code: nat)

  /* ---- Direct meaning ---- */

  predicate Relates(op: RelOp, x: nat, y: nat)
  {
    match op
    case Implicit => x == y
    case Eq => x == y
    case Neq => x != y
    case Lt => x < y
    case Gt => x > y
    case Lte => x <= y
    case Gte => x >= y
    case Neg => false
  }

  /** The relation of netlink_gen_flagcmp, for bit masks without an operator or
      with a negation. */
  predicate IsFlagTest(op: RelOp, right: Rhs)
  {
    right.Const? && right.flags && (op == Implicit || op == Neg)
  }

  /** Two values of a width agree on their first prefixLen bits; those of a
      string are its first bytes, which host order keeps lowest. */
  predicate SamePrefix(x: nat, right: Rhs)
    requires right.Prefix? && right.prefixLen <= right.len
  {
    SameLead(x, right.value, right.len, right.prefixLen, right.text && right.order == Host)
  }

  predicate Holds(op: RelOp, left: Expr, right: Rhs, w: World)
    requires RelationTyped(op, left, right, w)
  {
    match right
    case Const(v, _, _, _) =>
      var x := Eval(left.term, w);
      if IsFlagTest(op, right) then (NatBits(And, x, v) == 0) == (op == Neg) else Relates(op, x, v)
    case Range(low, high, _, _) => (low <= Eval(left.term, w) <= high) == (op != Neq)
    case Prefix(_, _, _, _, _) => SamePrefix(Eval(left.term, w), right) == (op != Neq)
    case SetRef(setId) => (Image(left, w) in w.sets[setId].elements) == (op != Neq)
  }

  function Judge(s: Stmt, w: World): Judgement
    requires StmtTyped(s, w)
  {
    match s
    case Match(left, op, right) =>
      if ExprPresent(left, w) && Holds(op, left, right, w) then GoOn else Mismatch
    case Vmap(key, setId) =>
      if ExprPresent(key, w) && Image(key, w) in w.sets[setId].elements
      then Conclude(w.sets[setId].elements[Image(key, w)]) else Mismatch
    case Decision(v) => Conclude(v)
  }

  function Conclude(v: Verdict): Judgement
  {
    if v.Continue? then GoOn else Decided(v.code)
  }

  /** The statements in order, up to the first that does not let the rule go on. */
  function JudgeAll(rule: seq<Stmt>, w: World): Judgement
    requires RuleTyped(rule, w)
  {
    if rule == [] then GoOn
    else
      var j := Judge(rule[0], w);
      if j.GoOn? then JudgeAll(rule[1..], w) else j
  }

  /* ---- What evaluation has established ---- */

  /** A number of the type of the left side, in the order of the left side. */
  predicate ConstantTyped(value: nat, order: ByteOrder, len: nat, left: Expr)
  {
    && left.One? && order == TermOrder(left.term) && ByteLen(len) == ByteLen(TermLen(left.term))
    && value < Pow2(len)
  }

  /** A number in host order of more bytes than the left side has, as a moved right
      shift leaves it, but of no more than the zeros behind the left side fill up. */
  predicate ConstantPadded(value: nat, order: ByteOrder, len: nat, left: Expr)
  {
    && left.One? && order == TermOrder(left.term) == Host && value < Pow2(len)
    && ByteLen(TermLen(left.term)) <= ByteLen(len) <= PadLength(ByteLen(TermLen(left.term)))
  }

  predicate RelationTyped(op: RelOp, left: Expr, right: Rhs, w: World)
  {
    && ExprWellTyped(left, w)
    && match right
       case Const(v, order, len, _) =>
         && (ConstantTyped(v, order, len, left) || ConstantPadded(v, order, len, left))
         && (op in {Lt, Gt, Lte, Gte} ==> order == Big)
         && (op == Neg ==> IsFlagTest(op, right))
       case Range(low, high, order, len) =>
         && ConstantTyped(low, order, len, left) && ConstantTyped(high, order, len, left)
         && order == Big && op in {Implicit, Eq, Neq}
       case Prefix(v, order, len, prefixLen, text) =>
         && ConstantTyped(v, order, len, left) && op in {Implicit, Eq, Neq}
         && !left.term.Value? && WholeField(left.term, w) && prefixLen <= len
         && (text ==> 0 < prefixLen && prefixLen % 8 == 0)
         && (!text ==> v % Pow2(len - prefixLen) == 0)
       case SetRef(setId) =>
         setId in w.sets && w.sets[setId].keyLength == |Image(left, w)|
  }

  predicate StmtTyped(s: Stmt, w: World)
  {
    match s
    case Match(left, op, right) => RelationTyped(op, left, right, w)
    case Vmap(key, setId) =>
      ExprWellTyped(key, w) && setId in w.sets && w.sets[setId].keyLength == |Image(key, w)|
    case Decision(_) => true
  }

  predicate RuleTyped(rule: seq<Stmt>, w: World)
  {
    forall i :: 0 <= i < |rule| ==> StmtTyped(rule[i], w)
  }

  /* ---- The emitted code ---- */

  function CmpOpOf(op: RelOp): CmpOp
    requires op != Neg
  {
    match op
    case Implicit => CmpEq
    case Eq => CmpEq
    case Neq => CmpNeq
    case Lt => CmpLt
    case Gt => CmpGt
    case Lte => CmpLte
    case Gte => CmpGte
  }

  /** Whether the generator accepts the operator, and the mask of a prefix has at
      least one byte; otherwise it stops. */
  predicate Supported(op: RelOp, right: Rhs)
  {
    match right
    case Const(_, _, _, _) => op != Neg || right.flags
    case Range(_, _, _, _) => op in {Implicit, Eq, Neq}
    case Prefix(_, _, len, _, _) => op != Neg && (Truncates(right) || len >= 8)
    case SetRef(_) => true
  }

  /** Only the leading bytes are loaded and compared where the prefix is whole
      bytes, or one of a string. */
  predicate Truncates(right: Rhs)
    requires right.Prefix?
  {
    right.text || !(right.prefixLen == 0 || right.prefixLen % 8 != 0)
  }

  /** The code of the left side: for such a prefix its node is made as long as the
      prefix. */
  function LeftCode(left: Expr, right: Rhs, reg: nat, low: nat): seq<Instr>
  {
    if right.Prefix? && Truncates(right) && 0 < right.prefixLen && left.One?
    then ShortCode(left.term, right.prefixLen, reg, low) else ExprCode(left, reg, low)
  }

  /** What follows the code of the left side, whose value is in slot reg. */
  function RelationTail(op: RelOp, right: Rhs, reg: nat): seq<Instr>
    requires Supported(op, right) && (right.Prefix? ==> right.prefixLen <= right.len)
  {
    var r := PutRegister(reg);
    match right
    case Const(v, order, len, _) =>
      var n := ByteLen(len);
      if IsFlagTest(op, right) then
        [BitwiseBool(r, r, n, Export(v, order, n), Export(0, order, n)),
         Compare(r, if op == Neg then CmpEq else CmpNeq, Export(0, order, n))]
      else [Compare(r, CmpOpOf(op), Export(v, order, n))]
    case Range(low, high, order, len) =>
      var n := ByteLen(len);
      if op == Neq then [RangeNeq(r, Export(low, order, n), Export(high, order, n))]
      else [Compare(r, CmpGte, Export(low, order, n)), Compare(r, CmpLte, Export(high, order, n))]
    case Prefix(v, order, len, prefixLen, _) =>
      var n := ByteLen(len);
      if Truncates(right) then [Compare(r, CmpOpOf(op), Leading(Export(v, order, n), ByteLen(prefixLen)))]
      else
        [BitwiseBool(r, r, len / 8, RawData(PrefixMask(len, prefixLen), order, len / 8), Zeros(len / 8)),
         Compare(r, CmpOpOf(op), Export(v, order, n))]
    case SetRef(setId) => [Lookup(r, setId, op == Neq)]
  }

  function Leading(s: seq<Byte>, n: nat): seq<Byte>
  {
    if n <= |s| then s[..n] else s
  }

  /** The first slot that is free while the left side is computed.  A verdict map
      with a concatenation as its key takes the slots of the key once more. */
  function FreeAfter(s: Stmt): nat
  {
    match s
    case Match(left, _, right) => NFT_REG_1 + Reserved(left)
    case Vmap(key, _) => NFT_REG_1 + Reserved(key) + (if key.Concat? then PartsSpace(key.parts) else 0)
    case Decision(_) => NFT_REG_1
  }

  function StmtCode(s: Stmt): seq<Instr>
    requires s.Match? ==> Supported(s.op, s.right) && (s.right.Prefix? ==> s.right.prefixLen <= s.right.len)
  {
    match s
    case Match(left, op, right) =>
      LeftCode(left, right, NFT_REG_1, FreeAfter(s)) + RelationTail(op, right, NFT_REG_1)
    case Vmap(key, setId) =>
      ExprCode(key, NFT_REG_1, FreeAfter(s))
      + [LookupVerdict(PutRegister(NFT_REG_1), PutRegister(NFT_REG_VERDICT), setId)]
    case Decision(v) => [SetVerdict(v)]
  }

  /* ---- One comparison ---- */

  /** Whether a run lets the rule go on. */
  predicate Passes(o: Outcome, b: bool)
  {
    if b then o.Running? else o == NoMatch
  }

  /** The value of the left side is in the first slot. */
  predicate InPlace(r: Regs, s: seq<Byte>)
  {
    Fits(NFT_REG_1, |s|) && Read(r, NFT_REG_1, |s|) == s
  }

  lemma {:induction false} FirstSlot()
    ensures ParseRegister(PutRegister(NFT_REG_1)) == NFT_REG_1
  {
    RegisterRoundTrip(NFT_REG_1);
  }

  lemma {:induction false} CompareOne(op: CmpOp, s: seq<Byte>, data: seq<Byte>, r: Regs, w: World)
    requires InPlace(r, s) && |data| == |s|
    ensures Exec(Compare(PutRegister(NFT_REG_1), op, data), r, w)
      == if CmpHolds(op, Memcmp(s, data)) then Running(r) else NoMatch
  {
    hide Read;
    hide Memcmp;
    FirstSlot();
  }

  lemma {:induction false} CompareRuns(op: CmpOp, s: seq<Byte>, data: seq<Byte>, r: Regs, w: World)
    requires InPlace(r, s) && |data| == |s|
    ensures Passes(Run([Compare(PutRegister(NFT_REG_1), op, data)], r, w), CmpHolds(op, Memcmp(s, data)))
  {
    hide Run;
    hide Exec;
    hide Memcmp;
    CompareOne(op, s, data, r, w);
    RunOne(Compare(PutRegister(NFT_REG_1), op, data), r, w);
  }

  /** memcmp on exported numbers: equality in both byte orders, the order of the
      numbers in network order. */
  lemma {:induction false} MemcmpExport(op: RelOp, x: nat, v: nat, order: ByteOrder, n: nat)
    requires x < Pow2(8 * n) && v < Pow2(8 * n) && op != Neg
    requires op in {Lt, Gt, Lte, Gte} ==> order == Big
    ensures CmpHolds(CmpOpOf(op), Memcmp(Export(x, order, n), Export(v, order, n))) == Relates(op, x, v)
  {
    hide Memcmp;
    hide Export;
    hide Pow2;
    MemcmpEqual(Export(x, order, n), Export(v, order, n));
    ExportInjective(x, v, order, n);
    if order == Big {
      MemcmpBig(x, v, n);
    }
  }

  lemma {:induction false} ConstTail(op: RelOp, x: nat, v: nat, order: ByteOrder, n: nat, r: Regs, w: World)
    requires x < Pow2(8 * n) && v < Pow2(8 * n) && op != Neg
    requires op in {Lt, Gt, Lte, Gte} ==> order == Big
    requires InPlace(r, Export(x, order, n))
    ensures Passes(Run([Compare(PutRegister(NFT_REG_1), CmpOpOf(op), Export(v, order, n))], r, w), Relates(op, x, v))
  {
    hide Run;
    hide Export;
    hide Pow2;
    hide Memcmp;
    CompareRuns(CmpOpOf(op), Export(x, order, n), Export(v, order, n), r, w);
    MemcmpExport(op, x, v, order, n);
  }

  /** A mask on the value in place, and then a comparison. */
  lemma {:induction false} MaskedTail(op: RelOp, x: nat, mask: nat, v: nat, order: ByteOrder, n: nat, r: Regs, w: World)
    requires x < Pow2(8 * n) && mask < Pow2(8 * n) && v < Pow2(8 * n) && op in {Implicit, Eq, Neq}
    requires InPlace(r, Export(x, order, n)) && n <= SLOTS * SLOT_SIZE
    ensures var d := PutRegister(NFT_REG_1);
      Passes(Run([BitwiseBool(d, d, n, Export(mask, order, n), Export(0, order, n)),
                  Compare(d, CmpOpOf(op), Export(v, order, n))], r, w),
        Relates(op, NatBits(And, x, mask), v))
  {
    hide Run;
    hide Exec;
    hide Export;
    hide Pow2;
    hide Read;
    hide Write;
    hide Bitwise;
    var d := PutRegister(NFT_REG_1);
    var i := BitwiseBool(d, d, n, Export(mask, order, n), Export(0, order, n));
    var j := Compare(d, CmpOpOf(op), Export(v, order, n));
    var y := NatBits(And, x, mask);
    ExecBool(r, NFT_REG_1, i.mask, i.xor, w);
    ExportBitwise(And, x, mask, order, n);
    BitwiseConstant(Xor, y);
    ExportBitwise(Xor, y, 0, order, n);
    BitwiseBelow(And, x, mask, 8 * n);
    var r' := Write(r, NFT_REG_1, Export(y, order, n));
    WriteRead(r, NFT_REG_1, Export(y, order, n));
    RunAppend([i], [j], r, w);
    assert [i] + [j] == [i, j];
    RunOne(i, r, w);
    ConstTail(op, y, v, order, n, r', w);
  }

  lemma {:induction false} RangeTail(low: nat, high: nat, x: nat, n: nat, r: Regs, w: World)
    requires x < Pow2(8 * n) && low < Pow2(8 * n) && high < Pow2(8 * n)
    requires InPlace(r, Export(x, Big, n))
    ensures var d := PutRegister(NFT_REG_1);
      Passes(Run([Compare(d, CmpGte, Export(low, Big, n)), Compare(d, CmpLte, Export(high, Big, n))], r, w),
        low <= x <= high)
      && Passes(Run([RangeNeq(d, Export(low, Big, n), Export(high, Big, n))], r, w), !(low <= x <= high))
  {
    hide Run;
    hide Export;
    hide Pow2;
    hide Read;
    hide Memcmp;
    var d := PutRegister(NFT_REG_1);
    var s, a, b := Export(x, Big, n), Export(low, Big, n), Export(high, Big, n);
    MemcmpBig(x, low, n);
    MemcmpBig(x, high, n);
    FirstSlot();
    RunOne(RangeNeq(d, a, b), r, w);
    var i, j := Compare(d, CmpGte, a), Compare(d, CmpLte, b);
    assert [i] + [j] == [i, j];
    RunAppend([i], [j], r, w);
    RunOne(i, r, w);
    RunOne(j, r, w);
    CompareOne(CmpGte, s, a, r, w);
    CompareOne(CmpLte, s, b, r, w);
  }

  /* ---- Prefixes ---- */

  /** The masked value is in effect masked by MaskedBy, which is not the mask of the
      prefix where the length is not whole bytes. */
  lemma {:induction false} MaskTail(op: RelOp, x: nat, right: Rhs, r: Regs, w: World)
    requires right.Prefix? && !Truncates(right) && 8 <= right.len <= 128 && right.prefixLen <= right.len
    requires op in {Implicit, Eq, Neq} && right.value < Pow2(8 * ByteLen(right.len)) && x < Pow2(8 * ByteLen(right.len))
    requires InPlace(r, Export(x, right.order, ByteLen(right.len)))
    ensures Passes(Run(RelationTail(op, right, NFT_REG_1), r, w),
      MaskTest(right.order, right.len, right.prefixLen, right.value, x) == (op != Neq))
  {
    hide Run;
    hide Exec;
    hide Export;
    hide Pow2;
    hide Bitwise;
    hide Read;
    hide Write;
    hide ByteBits;
    hide PrefixMask;
    hide RawData;
    hide MaskedBy;
    var d, n, m := PutRegister(NFT_REG_1), ByteLen(right.len), right.len / 8;
    var raw := RawData(PrefixMask(right.len, right.prefixLen), right.order, m);
    var i := BitwiseBool(d, d, m, raw, Zeros(m));
    var j := Compare(d, CmpOpOf(op), Export(right.value, right.order, n));
    ExecBool(r, NFT_REG_1, raw, Zeros(m), w);
    MaskedRead(r, NFT_REG_1, x, right.order, right.len, right.prefixLen);
    var t := ByteBits(Xor, ByteBits(And, Read(r, NFT_REG_1, m), raw), Zeros(m));
    var y := NatBits(And, x, MaskedBy(right.order, right.len, right.prefixLen));
    AndFits(x, MaskedBy(right.order, right.len, right.prefixLen), 8 * n);
    var r' := Write(r, NFT_REG_1, t);
    RunAppend([i], [j], r, w);
    assert RelationTail(op, right, NFT_REG_1) == [i] + [j] == [i, j];
    RunOne(i, r, w);
    ConstTail(op, y, right.value, right.order, n, r', w);
  }

  lemma {:induction false} BytesTail(op: RelOp, s: seq<Byte>, right: Rhs, r: Regs, w: World)
    requires right.Prefix? && Truncates(right) && 0 < right.prefixLen <= right.len && op in {Implicit, Eq, Neq}
    requires InPlace(r, s) && |s| == ByteLen(right.prefixLen)
    ensures Passes(Run(RelationTail(op, right, NFT_REG_1), r, w),
      (s == Export(right.value, right.order, ByteLen(right.len))[..ByteLen(right.prefixLen)]) == (op != Neq))
  {
    hide Run;
    hide Export;
    hide Memcmp;
    var data := Export(right.value, right.order, ByteLen(right.len))[..ByteLen(right.prefixLen)];
    CompareRuns(CmpOpOf(op), s, data, r, w);
    MemcmpEqual(s, data);
  }

  /* ---- Whole statements ---- */

  /** A run decides as the direct meaning does. */
  predicate Agrees(o: Outcome, j: Judgement)
  {
    match j
    case GoOn => o.Running?
    case Mismatch => o == NoMatch
    case Decided(code) => o == Done(code)
  }

  /** After the code of a left side its value is in place, or the rule has not
      matched because something to load was missing. */
  lemma {:induction false} LeftRuns(left: Expr, tail: seq<Instr>, low: nat, regs: Regs, w: World) returns (r: Regs)
    requires ExprWellTyped(left, w)
    requires NFT_REG_1 + Reserved(left) <= low && low + ExprNeed(left) <= SLOTS + 1
    ensures var o := Run(ExprCode(left, NFT_REG_1, low) + tail, regs, w);
      && Fits(NFT_REG_1, |Image(left, w)|)
      && if ExprPresent(left, w)
         then o == Run(tail, r, w) && InPlace(r, Padded(Image(left, w))) && SameBelow(r, Write(regs, NFT_REG_1, Image(left, w)), low)
         else o == NoMatch
  {
    hide Run;
    hide Image;
    hide Read;
    hide Write;
    hide SameBelow;
    hide ExprCode;
    var code := ExprCode(left, NFT_REG_1, low);
    ExprRuns(left, NFT_REG_1, low, regs, w);
    ReservedFits(left, w);
    SpaceOfBytes(ExprLen(left));
    RunAppend(code, tail, regs, w);
    var o := Run(code, regs, w);
    r := if o.Running? then o.regs else regs;
    if o.Running? {
      WritePadded(regs, NFT_REG_1, Image(left, w));
      OperandRead(r, regs, NFT_REG_1, Padded(Image(left, w)), low);
    }
  }

  lemma {:induction false} PaddedInPlace(r: Regs, s: seq<Byte>, n: nat)
    requires InPlace(r, Padded(s)) && n <= PadLength(|s|)
    ensures InPlace(r, Padded(s)[..n])
    ensures InPlace(r, s)
  {
    FitsFewer(NFT_REG_1, n, |Padded(s)|);
    FitsFewer(NFT_REG_1, |s|, |Padded(s)|);
    ReadLeading(r, NFT_REG_1, n, |Padded(s)|);
    ReadLeading(r, NFT_REG_1, |s|, |Padded(s)|);
  }

  /** In host order the zeros behind a number make it the same number of more bytes. */
  lemma {:induction false} HostPadded(x: nat, n: nat, k: nat)
    requires x < Pow2(8 * n) && n <= k
    ensures Export(x, Host, k) == Export(x, Host, n) + Zeros(k - n)
  {
    hide Pow2;
    hide LeBytes;
    LeBytesSplit(x, n, k);
    DivUnique(x, Pow2(8 * n), 0, x);
    LeBytesZero(k - n);
  }

  /** The value of the left side fits the constants it is compared with. */
  lemma {:induction false} LeftFits(v: nat, order: ByteOrder, len: nat, left: Expr, w: World)
    requires ConstantTyped(v, order, len, left) && ExprWellTyped(left, w)
    ensures Image(left, w) == Export(Eval(left.term, w), order, ByteLen(len))
    ensures Eval(left.term, w) < Pow2(8 * ByteLen(len)) && v < Pow2(8 * ByteLen(len))
    ensures ByteLen(len) <= 16
  {
    hide Pow2;
    hide Export;
    hide Eval;
    hide HasLength;
    assert Shaped(left.term, w);
    EvalBytes(left.term, w);
    ByteLenPower(len);
  }

  /** The value of the left side with as many bytes as a constant has. */
  lemma {:induction false} PaddedLeft(v: nat, order: ByteOrder, len: nat, left: Expr, r: Regs, w: World)
    requires ConstantTyped(v, order, len, left) || ConstantPadded(v, order, len, left)
    requires ExprWellTyped(left, w) && InPlace(r, Padded(Image(left, w)))
    ensures InPlace(r, Export(Eval(left.term, w), order, ByteLen(len)))
    ensures Eval(left.term, w) < Pow2(8 * ByteLen(len)) && v < Pow2(8 * ByteLen(len))
    ensures ByteLen(len) <= 16
  {
    hide Pow2;
    hide Export;
    hide Eval;
    hide HasLength;
    hide InPlace;
    hide Zeros;
    assert Shaped(left.term, w);
    var n, k, x := ByteLen(TermLen(left.term)), ByteLen(len), Eval(left.term, w);
    EvalBytes(left.term, w);
    ByteLenPower(len);
    Pow2Monotone(8 * n, 8 * k);
    var s := Image(left, w);
    PaddedInPlace(r, s, k);
    if n < k {
      HostPadded(x, n, k);
      assert Padded(s)[..k] == s + Zeros(k - n);
    } else {
      assert Padded(s)[..k] == s;
    }
  }

  lemma {:induction false} ConstPasses(op: RelOp, left: Expr, right: Rhs, r: Regs, w: World)
    requires right.Const? && RelationTyped(op, left, right, w) && InPlace(r, Padded(Image(left, w)))
    ensures Supported(op, right)
    ensures Passes(Run(RelationTail(op, right, NFT_REG_1), r, w), Holds(op, left, right, w))
  {
    hide Run;
    hide Image;
    hide Eval;
    hide Export;
    hide Pow2;
    hide ExprWellTyped;
    hide InPlace;
    hide Bitwise;
    var n := ByteLen(right.len);
    PaddedLeft(right.value, right.order, right.len, left, r, w);
    if IsFlagTest(op, right) {
      MaskedTail(if op == Neg then Eq else Neq, Eval(left.term, w), right.value, 0, right.order, n, r, w);
    } else {
      ConstTail(op, Eval(left.term, w), right.value, right.order, n, r, w);
    }
  }

  lemma {:induction false} RangePasses(op: RelOp, left: Expr, right: Rhs, r: Regs, w: World)
    requires right.Range? && RelationTyped(op, left, right, w) && InPlace(r, Image(left, w))
    ensures Supported(op, right)
    ensures Passes(Run(RelationTail(op, right, NFT_REG_1), r, w), Holds(op, left, right, w))
  {
    hide Run;
    hide Image;
    hide Eval;
    hide Export;
    hide Pow2;
    hide ExprWellTyped;
    hide InPlace;
    LeftFits(right.low, Big, right.len, left, w);
    LeftFits(right.high, Big, right.len, left, w);
    RangeTail(right.low, right.high, Eval(left.term, w), ByteLen(right.len), r, w);
  }

  lemma {:induction false} SetPasses(op: RelOp, left: Expr, right: Rhs, r: Regs, w: World)
    requires right.SetRef? && RelationTyped(op, left, right, w) && InPlace(r, Image(left, w))
    ensures Supported(op, right)
    ensures Passes(Run(RelationTail(op, right, NFT_REG_1), r, w), Holds(op, left, right, w))
  {
    hide Run;
    hide Image;
    hide Read;
    hide ExprWellTyped;
    FirstSlot();
    RunOne(RelationTail(op, right, NFT_REG_1)[0], r, w);
    assert RelationTail(op, right, NFT_REG_1) == [RelationTail(op, right, NFT_REG_1)[0]];
  }

  /** What the emitted code compares for a prefix, in place of the prefixes. */
  predicate PrefixTest(left: Expr, right: Rhs, w: World)
    requires right.Prefix? && 0 < |Image(left, w)| && left.One? && right.prefixLen <= right.len
    requires ByteLen(right.len) == ByteLen(TermLen(left.term)) && (Truncates(right) || right.len >= 8)
  {
    if Truncates(right) && 0 < right.prefixLen then
      ShortTest(left.term, right.prefixLen, right.value, Eval(Operand(left.term), w))
    else if Truncates(right) then true
    else MaskTest(right.order, right.len, right.prefixLen, right.value, Eval(left.term, w))
  }

  lemma {:induction false} MaskPasses(op: RelOp, left: Expr, right: Rhs, r: Regs, w: World)
    requires right.Prefix? && !Truncates(right) && Supported(op, right)
    requires RelationTyped(op, left, right, w) && InPlace(r, Image(left, w))
    ensures Passes(Run(RelationTail(op, right, NFT_REG_1), r, w), PrefixTest(left, right, w) == (op != Neq))
  {
    hide Run;
    hide Image;
    hide Eval;
    hide Export;
    hide Pow2;
    hide ExprWellTyped;
    hide InPlace;
    hide MaskTest;
    LeftFits(right.value, right.order, right.len, left, w);
    MaskTail(op, Eval(left.term, w), right, r, w);
  }

  lemma {:induction false} ImageNotEmpty(left: Expr, w: World)
    requires ExprWellTyped(left, w) && left.One?
    ensures WellTyped(left.term, w) && 0 < |Image(left, w)| && 0 < TermLen(left.term) <= 128
  {
    assert Shaped(left.term, w);
  }

  /** The shortened left side and the comparison with the leading bytes. */
  lemma {:induction false} ShortMatch(op: RelOp, left: Expr, right: Rhs, low: nat, regs: Regs, w: World)
    requires right.Prefix? && Truncates(right) && RelationTyped(op, left, right, w) && 0 < |Image(left, w)|
    requires NFT_REG_1 + Reserved(left) <= low && low + ExprNeed(left) <= SLOTS + 1
    ensures var o := Run(LeftCode(left, right, NFT_REG_1, low) + RelationTail(op, right, NFT_REG_1), regs, w);
      if ExprPresent(left, w) then Passes(o, PrefixTest(left, right, w) == (op != Neq)) else o == NoMatch
  {
    hide Run;
    hide Image;
    hide Eval;
    hide Export;
    hide Read;
    hide ShortCode;
    hide ShortBytes;
    hide RelationTail;
    hide WholeField;
    hide Pow2;
    ImageNotEmpty(left, w);
    var t, p := left.term, right.prefixLen;
    assert p > 0 && p % 8 == 0;
    ShortRuns(t, p, NFT_REG_1, low, regs, w);
    var code, tail := ShortCode(t, p, NFT_REG_1, low), RelationTail(op, right, NFT_REG_1);
    RunAppend(code, tail, regs, w);
    ShortLength(t, p, Eval(Operand(t), w));
    var o := Run(code, regs, w);
    if o.Running? {
      BytesTail(op, ShortBytes(t, p, Eval(Operand(t), w)), right, o.regs, w);
    }
  }

  /** The slots a statement takes. */
  function StmtNeed(s: Stmt): nat
  {
    match s
    case Match(left, _, right) => Reserved(left) + ExprNeed(left)
    case Vmap(key, _) => if ExprNeed(key) == 0 then Reserved(key) else FreeAfter(s) - NFT_REG_1 + ExprNeed(key)
    case Decision(_) => 0
  }

  predicate Generates(s: Stmt)
  {
    s.Match? ==> Supported(s.op, s.right) && (s.right.Prefix? ==> s.right.prefixLen <= s.right.len)
  }

  /** What evaluation lets through the generator can translate, but for a prefix of
      some bits of a type of less than a byte. */
  lemma {:induction false} TypedGenerates(s: Stmt, w: World)
    requires StmtTyped(s, w)
    ensures Generates(s) <==> !(s.Match? && s.right.Prefix? && !Truncates(s.right) && s.right.len < 8)
  {
  }

  /** Where a prefix is compared, the comparison that is emitted comes out as the
      comparison of the prefixes.  When it does so for all values is the matter of
      ShortExact and MaskExact. */
  predicate PrefixAgrees(s: Stmt, w: World)
    requires StmtTyped(s, w) && Generates(s)
  {
    s.Match? && s.right.Prefix? && ExprPresent(s.left, w) ==>
      assert 0 < |Image(s.left, w)| by { ImageNotEmpty(s.left, w); }
      PrefixTest(s.left, s.right, w) == SamePrefix(Eval(s.left.term, w), s.right)
  }

  /** With the left side in place, every kind of right side that is not loaded shorter. */
  lemma {:induction false} TailPasses(s: Stmt, r: Regs, w: World)
    requires s.Match? && StmtTyped(s, w) && Generates(s) && !(s.right.Prefix? && Truncates(s.right))
    requires InPlace(r, Padded(Image(s.left, w)))
    ensures var o := Run(RelationTail(s.op, s.right, NFT_REG_1), r, w);
      if s.right.Prefix? then 0 < |Image(s.left, w)| && Passes(o, PrefixTest(s.left, s.right, w) == (s.op != Neq))
      else Passes(o, Holds(s.op, s.left, s.right, w))
  {
    hide Run;
    hide InPlace;
    hide Image;
    hide Eval;
    hide ExprWellTyped;
    hide RelationTail;
    hide PrefixTest;
    hide Holds;
    hide Read;
    hide Padded;
    PaddedInPlace(r, Image(s.left, w), 0);
    match s.right
    case Const(_, _, _, _) => ConstPasses(s.op, s.left, s.right, r, w);
    case Range(_, _, _, _) => RangePasses(s.op, s.left, s.right, r, w);
    case Prefix(_, _, _, _, _) =>
      ImageNotEmpty(s.left, w);
      MaskPasses(s.op, s.left, s.right, r, w);
    case SetRef(_) => SetPasses(s.op, s.left, s.right, r, w);
  }

  /** A relational statement decides as its direct meaning; one with a prefix exactly
      if the emitted comparison agrees. */
  lemma {:induction false} MatchRuns(s: Stmt, regs: Regs, w: World)
    requires s.Match? && StmtTyped(s, w) && Generates(s) && StmtNeed(s) <= SLOTS
    ensures var o := Run(StmtCode(s), regs, w); o.Running? || o == NoMatch
    ensures Agrees(Run(StmtCode(s), regs, w), Judge(s, w)) <==> PrefixAgrees(s, w)
  {
    hide Run;
    hide InPlace;
    hide Image;
    hide Eval;
    hide ExprWellTyped;
    hide ExprPresent;
    hide ExprCode;
    hide RelationTail;
    hide SamePrefix;
    hide PrefixTest;
    var tail := RelationTail(s.op, s.right, NFT_REG_1);
    if s.right.Prefix? && Truncates(s.right) {
      ImageNotEmpty(s.left, w);
      ShortMatch(s.op, s.left, s.right, FreeAfter(s), regs, w);
    } else {
      var r := LeftRuns(s.left, tail, FreeAfter(s), regs, w);
      if ExprPresent(s.left, w) {
        TailPasses(s, r, w);
      }
    }
  }

  lemma {:induction false} LookupVerdictRuns(key: seq<Byte>, setId: nat, r: Regs, w: World)
    requires setId in w.sets && w.sets[setId].keyLength == |key| && InPlace(r, key)
    ensures Agrees(Run([LookupVerdict(PutRegister(NFT_REG_1), PutRegister(NFT_REG_VERDICT), setId)], r, w),
      if key in w.sets[setId].elements then Conclude(w.sets[setId].elements[key]) else Mismatch)
  {
    hide Run;
    hide Read;
    FirstSlot();
    RegisterRoundTrip(NFT_REG_VERDICT);
    RunOne(LookupVerdict(PutRegister(NFT_REG_1), PutRegister(NFT_REG_VERDICT), setId), r, w);
  }

  lemma {:induction false} VmapRuns(s: Stmt, regs: Regs, w: World)
    requires s.Vmap? && StmtTyped(s, w) && StmtNeed(s) <= SLOTS
    ensures Agrees(Run(StmtCode(s), regs, w), Judge(s, w))
  {
    hide Run;
    hide InPlace;
    hide Image;
    hide ExprWellTyped;
    hide ExprPresent;
    hide ExprCode;
    var i := LookupVerdict(PutRegister(NFT_REG_1), PutRegister(NFT_REG_VERDICT), s.setId);
    var low := if ExprNeed(s.key) == 0 then NFT_REG_1 + Reserved(s.key) else FreeAfter(s);
    if ExprNeed(s.key) == 0 {
      SameCode(s.key, NFT_REG_1, low, FreeAfter(s), w);
    }
    var r := LeftRuns(s.key, [i], low, regs, w);
    if ExprPresent(s.key, w) {
      PaddedInPlace(r, Image(s.key, w), 0);
      LookupVerdictRuns(Image(s.key, w), s.setId, r, w);
    }
  }

  /** The instructions emitted for a statement decide as its direct meaning. */
  lemma {:induction false} StmtRuns(s: Stmt, regs: Regs, w: World)
    requires StmtTyped(s, w) && Generates(s) && StmtNeed(s) <= SLOTS
    ensures Agrees(Run(StmtCode(s), regs, w), Judge(s, w)) <==> PrefixAgrees(s, w)
  {
    hide Run;
    hide Exec;
    match s
    case Match(_, _, _) => MatchRuns(s, regs, w);
    case Vmap(_, _) => VmapRuns(s, regs, w);
    case Decision(v) =>
      RunOne(SetVerdict(v), regs, w);
      assert Exec(SetVerdict(v), regs, w) == Decide(v, regs) by { DecideOne(v, regs, w); }
  }

  lemma {:induction false} DecideOne(v: Verdict, regs: Regs, w: World)
    ensures Exec(SetVerdict(v), regs, w) == Decide(v, regs)
  {
  }

  /* ---- Whole rules ---- */

  predicate RuleGenerates(rule: seq<Stmt>)
  {
    forall i :: 0 <= i < |rule| ==> Generates(rule[i]) && StmtNeed(rule[i]) <= SLOTS
  }

  function RuleCode(rule: seq<Stmt>): seq<Instr>
    requires RuleGenerates(rule)
  {
    if rule == [] then [] else StmtCode(rule[0]) + RuleCode(rule[1..])
  }

  predicate RulePrefixesAgree(rule: seq<Stmt>, w: World)
    requires RuleTyped(rule, w) && RuleGenerates(rule)
  {
    forall i :: 0 <= i < |rule| ==> PrefixAgrees(rule[i], w)
  }

  /** From any register contents, a compiled rule decides as the rule does: it
      matches, does not match, or ends with a verdict in the same cases. */
  lemma {:induction false} RuleRuns(rule: seq<Stmt>, regs: Regs, w: World)
    requires RuleTyped(rule, w) && RuleGenerates(rule) && RulePrefixesAgree(rule, w)
    ensures Agrees(Run(RuleCode(rule), regs, w), JudgeAll(rule, w))
    decreases |rule|
  {
    hide Judge;
    hide StmtTyped;
    hide StmtCode;
    hide Exec;
    hide PrefixAgrees;
    hide StmtNeed;
    if rule == [] {
    } else {
      StmtRuns(rule[0], regs, w);
      RunAppend(StmtCode(rule[0]), RuleCode(rule[1..]), regs, w);
      var o := Run(StmtCode(rule[0]), regs, w);
      if o.Running? {
        RuleRuns(rule[1..], o.regs, w);
      }
    }
  }
}
