/** The generator itself: a context whose register mark goes up and down while
    instructions are appended to the rule (src/netlink_linearize.c).  A method
    returns bug where the program stops with BUG. */
module Generator {
  import opened Arith
  import opened Lengths
  import opened Bits
  import opened PowerOfTwo
  import opened BinopFold
  import opened Bytes
  import opened Machine
  import opened Terms
  import opened Linearize
  import opened Shortened
  import opened Rules

  /** The size that get_register and release_register go by. */
  function RegisterBits(e: Expr): (bits: nat)
    ensures Space(bits) == Reserved(e)
  {
    if e.Concat? then ExprLen(e) else 128
  }

  /** More slots are asked for than there are. */
  predicate ShortOf(need: nat, low: nat)
  {
    need > 0 && low + need > SLOTS + 1
  }

  /** The k-th node of a chain of bit operations, from the outermost one. */
  function Node(t: Term, k: nat): (n: Term)
    requires k <= |Steps(t)|
    ensures |Steps(n)| == |Steps(t)| - k
    ensures k > 0 ==> n < t
    ensures n.Binop? <==> k < |Steps(t)|
  {
    if k == 0 then t else Node(t.left, k - 1)
  }

  lemma {:induction false} NodeNext(t: Term, k: nat)
    requires k < |Steps(t)|
    ensures Node(t, k).Binop? && Node(t, k + 1) == Node(t, k).left
    decreases t
  {
    if k > 0 {
      NodeNext(t.left, k - 1);
    }
  }

  lemma {:induction false} LastNode(t: Term)
    ensures Node(t, |Steps(t)|) == Base(t)
    decreases t
  {
    if t.Binop? {
      LastNode(t.left);
    }
  }

  /** One more operation folded in. */
  lemma {:induction false} FoldNext(t: Term, width: nat)
    requires t.Binop?
    ensures var s := Step(t.op, t.right);
      Mask(Steps(t), width) == CombineMask(Mask(Steps(t.left), width), Keep(s, width))
      && Flips(Steps(t), width) == CombineXor(Flips(Steps(t.left), width), Keep(s, width), Flip(s))
  {
    hide CombineMask;
    hide CombineXor;
    assert Steps(t)[..|Steps(t.left)|] == Steps(t.left);
  }

  /** combine_binop */
  method Combine(mask: int, xor: int, m: int, x: int) returns (mask': int, xor': int)
    ensures mask' == CombineMask(mask, m) && xor' == CombineXor(xor, m, x)
  {
    xor' := Bitwise(And, xor, m);
    xor' := Bitwise(Xor, x, xor');
    mask' := Bitwise(And, mask, m);
  }

  lemma {:induction false} ChainBound(t: Term, w: World)
    requires t.Binop? && WellTyped(t, w)
    ensures 0 < |Steps(t)| <= CHAIN_MAX && TermLen(Base(t)) <= 128
  {
    BaseAlike(t, w);
  }

  /** The nodes of the chain, the innermost operand last. */
  method CollectBinops(t: Term) returns (binops: array<Term>, n: nat)
    requires |Steps(t)| <= CHAIN_MAX
    ensures fresh(binops) && n == |Steps(t)| < binops.Length
    ensures forall k :: 0 <= k <= n ==> binops[k] == Node(t, k)
    ensures binops[n] == Base(t)
  {
    binops := new Term[16];
    var left := t;
    binops[0] := t;
    n := 1;
    ghost var count := |Steps(t)|;
    while left.Binop?
      invariant 1 <= n <= count + 1 && left == Node(t, n - 1)
      invariant forall k :: 0 <= k < n ==> binops[k] == Node(t, k)
      decreases count + 1 - n
    {
      NodeNext(t, n - 1);
      left := left.left;
      binops[n] := left;
      n := n + 1;
    }
    n := n - 1;
    LastNode(t);
  }

  /** The loop over the operations, from the innermost outwards; len is that of the
      node, which a prefix may have changed. */
  method FoldBinops(t: Term, len: nat, binops: array<Term>, last: int) returns (mask: int, xor: int)
    requires t.Binop? && last == |Steps(t)| - 1 < binops.Length
    requires forall k :: 0 <= k <= last ==> binops[k] == Node(t, k)
    ensures mask == Mask(Steps(t), len) && xor == Flips(Steps(t), len)
  {
    hide Mask;
    hide Flips;
    LastNode(t);
    FoldNone(len);
    assert Steps(Base(t)) == [];
    mask, xor := Ones(len), 0;
    var n := last;
    while n >= 0
      invariant -1 <= n <= last
      invariant mask == Mask(Steps(Node(t, n + 1)), len) && xor == Flips(Steps(Node(t, n + 1)), len)
    {
      var i := binops[n];
      NodeNext(t, n);
      FoldNext(i, len);
      var s := Step(i.op, i.right);
      mask, xor := Combine(mask, xor, Keep(s, len), Flip(s));
      n := n - 1;
    }
  }

  lemma {:induction false} FoldNone(width: nat)
    ensures Mask([], width) == Ones(width) && Flips([], width) == 0
  {
  }

  lemma {:induction false} RuleCodeSnoc(rule: seq<Stmt>, s: Stmt)
    requires RuleGenerates(rule) && Generates(s) && StmtNeed(s) <= SLOTS
    ensures RuleGenerates(rule + [s]) && RuleCode(rule + [s]) == RuleCode(rule) + StmtCode(s)
    decreases |rule|
  {
    hide StmtCode;
    hide Generates;
    hide StmtNeed;
    if rule == [] {
      assert (rule + [s])[1..] == [];
      assert RuleCode([]) == [];
    } else {
      RuleCodeSnoc(rule[1..], s);
      assert (rule + [s])[1..] == rule[1..] + [s];
    }
  }

  /** A list of parts is its first part and the others. */
  lemma {:induction false} FirstPart(parts: seq<Term>, dreg: nat, low: nat, w: World)
    requires PartsWellTyped(parts, w)
    ensures parts == [] ==> PartsCode(parts, dreg, low) == [] && PartsNeed(parts) == 0
    ensures parts != [] ==>
      && WellTyped(parts[0], w) && PartsWellTyped(parts[1..], w)
      && PartsSpace(parts) == Space(TermLen(parts[0])) + PartsSpace(parts[1..])
      && PartsCode(parts, dreg, low)
        == TermCode(parts[0], dreg, low) + PartsCode(parts[1..], dreg + Space(TermLen(parts[0])), low)
    ensures parts != [] ==>
      ShortOf(PartsNeed(parts), low) == (ShortOf(Need(parts[0]), low) || ShortOf(PartsNeed(parts[1..]), low))
  {
    hide Space;
    hide TermCode;
  }

  class Ctx {
    var regLow: nat
    var rule: seq<Instr>

    constructor ()
      ensures regLow == NFT_REG_1 && rule == []
    {
      regLow, rule := NFT_REG_1, [];
    }

    method GetRegister(size: nat) returns (bug: bool, reg: nat)
      modifies this`regLow
      ensures bug == (old(regLow) + Space(size) > SLOTS + 1)
      ensures regLow == if bug then old(regLow) else old(regLow) + Space(size)
      ensures reg == old(regLow)
    {
      reg, bug := regLow, false;
      var n := Space(size);
      if regLow + n > NFT_REG_1 + 23 - NFT_REG32_00 + 1 {
        bug := true;
      } else {
        regLow := regLow + n;
      }
    }

    method ReleaseRegister(size: nat) returns (bug: bool)
      modifies this`regLow
      ensures bug == (old(regLow) < NFT_REG_1 + Space(size))
      ensures regLow == if bug then old(regLow) else old(regLow) - Space(size)
    {
      bug := false;
      var n := Space(size);
      if regLow < NFT_REG_1 + n {
        bug := true;
      } else {
        regLow := regLow - n;
      }
    }

    method AddExpr(i: Instr)
      modifies this`rule
      ensures rule == old(rule) + [i]
    {
      rule := rule + [i];
    }

    /** netlink_gen_expr for one expression: exactly the specified code is
        appended, the mark is where it was, and BUG means that the slots ran out. */
    method GenTerm(t: Term, dreg: nat, ghost w: World) returns (bug: bool)
      requires WellTyped(t, w)
      requires 1 <= dreg && dreg + Space(TermLen(t)) <= regLow
      modifies this
      ensures bug == ShortOf(Need(t), old(regLow))
      ensures !bug ==> regLow == old(regLow) && rule == old(rule) + TermCode(t, dreg, old(regLow))
      decreases t, 0
    {
      hide Space;
      hide Export;
      var d := PutRegister(dreg);
      match t
      case Value(v, order, len) =>
        AddExpr(Immediate(d, Export(v, order, ByteLen(len))));
        bug := false;
      case Field(key, _, len) =>
        AddExpr(Load(key, d, ByteLen(len)));
        bug := false;
      case Binop(_, _, _, _, _) =>
        bug := GenBitwise(t, dreg, w);
      case Shift(toLeft, left, count, len) =>
        bug := GenTerm(left, dreg, w);
        if bug { return; }
        AddExpr(BitwiseShift(d, d, ByteLen(len), toLeft, Export(count, Host, 4)));
      case Swap(_, arg) =>
        bug := GenTerm(arg, dreg, w);
        if bug { return; }
        AddExpr(ByteOrderSwap(d, d, TermLen(arg) / 8, SwapSize(TermLen(arg))));
      case Hash(input, params) =>
        bug := GenHash(t, dreg, w);
    }

    method GenHash(t: Term, dreg: nat, ghost w: World) returns (bug: bool)
      requires t.Hash? && WellTyped(t, w)
      requires 1 <= dreg && dreg + Space(TermLen(t)) <= regLow
      modifies this
      ensures bug == ShortOf(Need(t), old(regLow))
      ensures !bug ==> regLow == old(regLow) && rule == old(rule) + TermCode(t, dreg, old(regLow))
      decreases t.input, 2
    {
      hide Space;
      hide ExprCode;
      ReservedFits(t.input, w);
      var sreg;
      bug, sreg := GetRegister(RegisterBits(t.input));
      if bug { return; }
      bug := GenExpr(t.input, sreg, w);
      if bug { return; }
      bug := ReleaseRegister(RegisterBits(t.input));
      if bug { return; }
      AddExpr(HashKey(PutRegister(sreg), PutRegister(dreg), ByteLen(ExprLen(t.input)), t.params));
    }

    method GenBitwise(t: Term, dreg: nat, ghost w: World) returns (bug: bool)
      requires t.Binop? && WellTyped(t, w)
      requires 1 <= dreg && dreg + Space(TermLen(t)) <= regLow
      modifies this
      ensures bug == ShortOf(Need(t), old(regLow))
      ensures !bug ==> regLow == old(regLow) && rule == old(rule) + TermCode(t, dreg, old(regLow))
      decreases t.left, 2
    {
      hide WellTyped;
      hide Shaped;
      hide HasLength;
      hide ConstantsFit;
      hide Space;
      hide ByteLen;
      hide Export;
      IsShaped(t, w);
      ChainBound(t, w);
      BaseAlike(t, w);
      SpaceOfBytes(TermLen(t));
      SpaceOfBytes(TermLen(Base(t)));
      var binops, n := CollectBinops(t);
      bug := GenTerm(binops[n], dreg, w);
      if bug { return; }
      var mask, xor := FoldBinops(t, t.len, binops, n - 1);
      var d, len := PutRegister(dreg), ByteLen(t.len);
      AddExpr(BitwiseBool(d, d, len, Export(Abs(mask), t.order, len), Export(Abs(xor), t.order, len)));
    }

    /** netlink_gen_concat for a concatenation, otherwise netlink_gen_expr. */
    method GenExpr(e: Expr, dreg: nat, ghost w: World) returns (bug: bool)
      requires ExprWellTyped(e, w)
      requires 1 <= dreg && dreg + Reserved(e) <= regLow
      modifies this
      ensures bug == ShortOf(ExprNeed(e), old(regLow))
      ensures !bug ==> regLow == old(regLow) && rule == old(rule) + ExprCode(e, dreg, old(regLow))
      decreases e, 1
    {
      match e
      case One(t) => bug := GenTerm(t, dreg, w);
      case Concat(parts) =>
        bug := GenConcat(parts, dreg, w);
    }

    method GenConcat(parts: seq<Term>, dreg: nat, ghost w: World) returns (bug: bool)
      requires PartsWellTyped(parts, w)
      requires 1 <= dreg && dreg + PartsSpace(parts) <= regLow
      modifies this
      ensures bug == ShortOf(PartsNeed(parts), old(regLow))
      ensures !bug ==> regLow == old(regLow) && rule == old(rule) + PartsCode(parts, dreg, old(regLow))
      decreases parts, 1
    {
      hide Space;
      hide TermCode;
      hide PartsCode;
      hide PartsNeed;
      hide PartsSpace;
      hide WellTyped;
      hide PartsWellTyped;
      ghost var low := regLow;
      var i, d := 0, dreg;
      FirstPart(parts, d, low, w);
      assert parts[0..] == parts;
      while i < |parts|
        invariant 0 <= i <= |parts| && 1 <= d
        invariant regLow == low && PartsWellTyped(parts[i..], w)
        invariant d + PartsSpace(parts[i..]) <= low
        invariant rule + PartsCode(parts[i..], d, low) == old(rule) + PartsCode(parts, dreg, low)
        invariant ShortOf(PartsNeed(parts[i..]), low) == ShortOf(PartsNeed(parts), low)
      {
        FirstPart(parts[i..], d, low, w);
        assert parts[i..][0] == parts[i] && parts[i..][1..] == parts[i + 1..];
        bug := GenTerm(parts[i], d, w);
        if bug { return; }
        d := d + Space(TermLen(parts[i]));
        i := i + 1;
      }
      assert parts[i..] == [];
      FirstPart([], d, low, w);
      bug := false;
    }

    /** netlink_gen_relational and the functions it dispatches to. */
    method GenRelational(s: Stmt, ghost w: World) returns (bug: bool)
      requires s.Match? && StmtTyped(s, w) && regLow == NFT_REG_1
      modifies this
      ensures bug == !(Generates(s) && StmtNeed(s) <= SLOTS)
      ensures !bug ==> regLow == NFT_REG_1 && rule == old(rule) + StmtCode(s)
    {
      hide ExprWellTyped;
      hide ExprCode;
      hide Space;
      TypedGenerates(s, w);
      var sreg;
      bug, sreg := GetRegister(RegisterBits(s.left));
      if bug { return; }
      if s.right.Prefix? && Truncates(s.right) {
        ImageNotEmpty(s.left, w);
        ReservedFits(s.left, w);
        bug := GenShort(s.left.term, s.right.prefixLen, sreg, w);
      } else {
        bug := GenExpr(s.left, sreg, w);
      }
      if bug { return; }
      if s.right.Prefix? && !Truncates(s.right) && s.right.len / 8 == 0 {
        return true;
      }
      GenTail(s.op, s.right, sreg);
      bug := ReleaseRegister(RegisterBits(s.left));
    }

    /** netlink_gen_bitwise on such a node. */
    method GenShortFold(t: Term, p: nat, dreg: nat, ghost w: World) returns (bug: bool)
      requires t.Binop? && WellTyped(t, w) && 0 < p && ByteLen(p) <= ByteLen(TermLen(t))
      requires 1 <= dreg && dreg + Space(TermLen(t)) <= regLow
      modifies this
      ensures bug == ShortOf(Need(t), old(regLow))
      ensures !bug ==> regLow == old(regLow) && rule == old(rule) + ShortCode(t, p, dreg, old(regLow))
    {
      hide Space;
      hide Export;
      hide RawData;
      hide WellTyped;
      hide Shaped;
      hide HasLength;
      hide ConstantsFit;
      hide Mask;
      hide Flips;
      hide Need;
      OperandAlike(t, w);
      ChainBound(t, w);
      var d, k := PutRegister(dreg), ByteLen(p);
      var binops, n := CollectBinops(t);
      bug := GenTerm(binops[n], dreg, w);
      if bug { return; }
      var mask, xor := FoldBinops(t, p, binops, n - 1);
      AddExpr(BitwiseBool(d, d, k, RawData(Abs(mask), t.order, k), RawData(Abs(xor), t.order, k)));
    }

    /** netlink_gen_expr on a node whose length was changed to p bits. */
    method GenShort(t: Term, p: nat, dreg: nat, ghost w: World) returns (bug: bool)
      requires WellTyped(t, w) && 0 < p && p % 8 == 0 && ByteLen(p) <= ByteLen(TermLen(t))
      requires 1 <= dreg && dreg + Space(TermLen(t)) <= regLow
      modifies this
      ensures bug == ShortOf(Need(t), old(regLow))
      ensures !bug ==> regLow == old(regLow) && rule == old(rule) + ShortCode(t, p, dreg, old(regLow))
    {
      hide Space;
      hide Export;
      hide RawData;
      hide WellTyped;
      hide Shaped;
      hide HasLength;
      hide ConstantsFit;
      OperandAlike(t, w);
      var d, k := PutRegister(dreg), ByteLen(p);
      match t
      case Field(key, _, _) =>
        AddExpr(Load(key, d, k));
        bug := false;
      case Binop(_, _, _, _, _) =>
        bug := GenShortFold(t, p, dreg, w);
      case Shift(toLeft, left, count, _) =>
        bug := GenTerm(left, dreg, w);
        if bug { return; }
        AddExpr(BitwiseShift(d, d, k, toLeft, Export(count, Host, 4)));
      case Swap(_, arg) =>
        bug := GenTerm(arg, dreg, w);
        if bug { return; }
        AddExpr(ByteOrderSwap(d, d, p / 8, SwapSize(TermLen(arg))));
      case _ =>
        bug := GenTerm(t, dreg, w);
    }

    /** What follows the left side, case by case. */
    method GenTail(op: RelOp, right: Rhs, sreg: nat)
      requires Supported(op, right) && (right.Prefix? ==> right.prefixLen <= right.len)
      modifies this`rule
      ensures rule == old(rule) + RelationTail(op, right, sreg)
    {
      hide Export;
      hide PrefixMask;
      var r := PutRegister(sreg);
      match right
      case Const(v, order, len, _) =>
        var n := ByteLen(len);
        if IsFlagTest(op, right) {
          AddExpr(BitwiseBool(r, r, n, Export(v, order, n), Export(0, order, n)));
          AddExpr(Compare(r, if op == Neg then CmpEq else CmpNeq, Export(0, order, n)));
        } else {
          AddExpr(Compare(r, CmpOpOf(op), Export(v, order, n)));
        }
      case Range(low, high, order, len) =>
        var n := ByteLen(len);
        if op == Neq {
          AddExpr(RangeNeq(r, Export(low, order, n), Export(high, order, n)));
        } else {
          AddExpr(Compare(r, CmpGte, Export(low, order, n)));
          AddExpr(Compare(r, CmpLte, Export(high, order, n)));
        }
      case Prefix(v, order, len, prefixLen, _) =>
        var n := ByteLen(len);
        if Truncates(right) {
          n := ByteLen(prefixLen);
        } else {
          AddExpr(BitwiseBool(r, r, len / 8, RawData(PrefixMask(len, prefixLen), order, len / 8), Zeros(len / 8)));
        }
        assert !Truncates(right) ==> Leading(Export(v, order, n), n) == Export(v, order, n);
        AddExpr(Compare(r, CmpOpOf(op), Leading(Export(v, order, ByteLen(len)), n)));
      case SetRef(setId) =>
        AddExpr(Lookup(r, setId, op == Neq));
    }

    /** netlink_gen_map with a verdict register as its destination. */
    method GenVmap(s: Stmt, ghost w: World) returns (bug: bool)
      requires s.Vmap? && StmtTyped(s, w) && regLow == NFT_REG_1
      modifies this
      ensures bug == (StmtNeed(s) > SLOTS)
      ensures !bug ==> regLow == NFT_REG_1 && rule == old(rule) + StmtCode(s)
    {
      hide ExprWellTyped;
      hide ExprCode;
      hide Space;
      var sreg, space := NFT_REG_1, 0;
      bug, sreg := GetRegister(RegisterBits(s.key));
      if bug { return; }
      if s.key.Concat? {
        space := Space(ExprLen(s.key));
        assert space == Reserved(s.key) by { assert RegisterBits(s.key) == ExprLen(s.key); }
        regLow := regLow + space;
      }
      bug := GenExpr(s.key, sreg, w);
      if bug { return; }
      regLow := regLow - space;
      AddExpr(LookupVerdict(PutRegister(sreg), PutRegister(NFT_REG_VERDICT), s.setId));
      bug := ReleaseRegister(RegisterBits(s.key));
    }

    /** netlink_gen_stmt for these statements. */
    method GenStmt(s: Stmt, ghost w: World) returns (bug: bool)
      requires StmtTyped(s, w) && regLow == NFT_REG_1
      modifies this
      ensures bug == !(Generates(s) && StmtNeed(s) <= SLOTS)
      ensures !bug ==> regLow == NFT_REG_1 && rule == old(rule) + StmtCode(s)
    {
      match s
      case Match(_, _, _) => bug := GenRelational(s, w);
      case Vmap(_, _) => bug := GenVmap(s, w);
      case Decision(v) =>
        AddExpr(SetVerdict(v));
        bug := false;
    }

    /** netlink_linearize_rule: the slots are all free again after every
        statement, and the finished rule decides as its statements do, whatever
        the registers hold at first. */
    method LinearizeRule(stmts: seq<Stmt>, ghost w: World) returns (bug: bool)
      requires RuleTyped(stmts, w) && regLow == NFT_REG_1 && rule == []
      modifies this
      ensures bug == !RuleGenerates(stmts)
      ensures !bug ==> regLow == NFT_REG_1 && rule == RuleCode(stmts)
      ensures !bug && RulePrefixesAgree(stmts, w) ==> forall regs :: Agrees(Run(rule, regs, w), JudgeAll(stmts, w))
    {
      hide StmtTyped;
      hide StmtCode;
      hide StmtNeed;
      hide Run;
      hide JudgeAll;
      var i := 0;
      while i < |stmts|
        invariant 0 <= i <= |stmts| && regLow == NFT_REG_1
        invariant RuleGenerates(stmts[..i]) && rule == RuleCode(stmts[..i])
      {
        bug := GenStmt(stmts[i], w);
        if bug { return; }
        RuleCodeSnoc(stmts[..i], stmts[i]);
        assert stmts[..i + 1] == stmts[..i] + [stmts[i]];
        i := i + 1;
      }
      bug := false;
      assert stmts[..i] == stmts;
      if RulePrefixesAgree(stmts, w) {
        forall regs: Regs
          ensures Agrees(Run(rule, regs, w), JudgeAll(stmts, w))
        {
          RuleRuns(stmts, regs, w);
        }
      }
    }
  }
}
