/** From a field of a packet to the decision of a rule: what evaluation builds for a
    field that is not whole bytes and for a shift that it moves to the other side
    (src/evaluate.c), compiled, decides as the bits of the field compare with the
    constants of the rule. */
module FieldRules {
  import opened Lengths
  import opened Arith
  import opened Bits
  import opened PowerOfTwo
  import opened BinopFold
  import opened Bytes
  import opened Machine
  import opened Terms
  import opened Linearize
  import opened Rules
  import PacketBits
  import PayloadBits
  import Moved = BinopTransfer

  /* ---- A relation after its shift has been moved ---- */

  /** binop_transfer_handle_lhs on a right shift by k of a term. */
  function Masked(a: Term, k: nat): Term
  {
    Binop(And, a, Shl(Ones(TermLen(a)), k), TermOrder(a), TermLen(a))
  }

  function OpOf(op: Moved.RelOp): RelOp
  {
    match op
    case Eq => Eq
    case Neq => Neq
    case Lt => Lt
    case Gt => Gt
    case Lte => Lte
    case Gte => Gte
  }

  /** A value or a range as the right side of a statement. */
  predicate Single(right: Moved.Right)
  {
    right.One? && (right.member.Value? || right.member.Range?)
  }

  function RhsOf(right: Moved.Right, order: ByteOrder): Rhs
    requires Single(right)
  {
    match right.member
    case Value(c) => Const(c.value, order, c.len, false)
    case Range(low, high) => Range(low.value, high.value, order, low.len)
  }

  lemma {:induction false} MaskedTyped(a: Term, k: nat, w: World)
    requires WellTyped(a, w) && HasLength(a, w) && |Steps(a)| < CHAIN_MAX
    requires ConstantsFit(Steps(a), TermLen(a))
    ensures WellTyped(Masked(a, k), w) && HasLength(Masked(a, k), w)
  {
    hide Pow2;
    assert Steps(Masked(a, k)) == Steps(a) + [Step(And, Shl(Ones(TermLen(a)), k))];
  }

  lemma {:induction false} MaskedValue(a: Term, k: nat, w: World)
    ensures var left := Moved.Binop(Moved.RShift, TermLen(a), k);
      Eval(Masked(a, k), w) == Moved.LhsValue(Moved.HandledLhs(left), Eval(a, w))
  {
  }

  /** The relation of the statement is the one that the transfer has left. */
  lemma {:induction false} SameRelation(left: Expr, op: Moved.RelOp, right: Moved.Right, lhs: Moved.Lhs, x: nat, w: World)
    requires Single(right) && left.One? && (right.member.Range? ==> op == Moved.Eq || op == Moved.Neq)
    requires RelationTyped(OpOf(op), left, RhsOf(right, TermOrder(left.term)), w)
    requires Eval(left.term, w) == Moved.LhsValue(lhs, x)
    ensures Holds(OpOf(op), left, RhsOf(right, TermOrder(left.term)), w) == Moved.Holds(lhs, op, right, x)
  {
    hide Eval;
    hide ExprWellTyped;
    hide Moved.LhsValue;
  }

  /** What a rule decides that compares a loaded value with the right side. */
  predicate Decides(o: Outcome, present: bool, holds: bool)
  {
    Agrees(o, if present && holds then GoOn else Mismatch)
  }

  /** A statement whose right shift has been moved decides as the shifted value
      compares with the constants that were written. */
  lemma {:induction false} MovedRuns(a: Term, k: nat, op: Moved.RelOp, right: Moved.Right, right': Moved.Right, len: nat,
      regs: Regs, w: World)
    requires WellTyped(a, w) && HasLength(a, w) && |Steps(a)| < CHAIN_MAX && ConstantsFit(Steps(a), TermLen(a))
    requires Single(right) && Moved.AllEvaluated(Moved.MembersOf(right), len)
    requires Moved.MovedRight(Moved.RShift, k, right, right', Moved.GrownAll(Moved.RShift, k, Moved.MembersOf(right), len))
    requires right.member.Range? ==> op == Moved.Eq || op == Moved.Neq
    requires Single(right') && RelationTyped(OpOf(op), One(Masked(a, k)), RhsOf(right', TermOrder(a)), w)
    requires 4 + Need(a) <= SLOTS
    ensures var s := Match(One(Masked(a, k)), OpOf(op), RhsOf(right', TermOrder(a)));
      Generates(s) && StmtNeed(s) <= SLOTS &&
      Decides(Run(StmtCode(s), regs, w), Present(a, w),
        Moved.Holds(Moved.Binop(Moved.RShift, TermLen(a), k), op, right, Eval(a, w)))
  {
    hide Run;
    hide StmtCode;
    hide Pow2;
    hide Eval;
    hide WellTyped;
    hide HasLength;
    hide Moved.MovedRight;
    hide Moved.GrownAll;
    hide Moved.Holds;
    hide Moved.LhsValue;
    hide ExprWellTyped;
    hide Holds;
    var left := Moved.Binop(Moved.RShift, TermLen(a), k);
    var t := Masked(a, k);
    var s := Match(One(t), OpOf(op), RhsOf(right', TermOrder(a)));
    EvalFits(a, w);
    MaskedValue(a, k, w);
    Moved.TransferPreserves(left, op, right, right', len, Eval(a, w));
    SameRelation(One(t), op, right', Moved.HandledLhs(left), Eval(a, w), w);
    assert Need(t) == Need(a) && ExprNeed(s.left) == Need(t);
    assert Present(t, w) == Present(a, w) && ExprPresent(s.left, w) == Present(t, w);
    MatchRuns(s, regs, w);
  }

  /* ---- A field of a packet ---- */

  /** What expr_evaluate_bits builds below the shift: the load, with the length that
      is left in its node, and the mask. */
  function FieldMask(key: nat, len: nat, shift: nat, extraLen: nat): Term
  {
    Binop(And, Terms.Field(key, Big, len + extraLen), Shl(Ones(len), shift), Big, len + shift)
  }

  /** The place of the field in the bytes that are loaded. */
  predicate Placed(offset: nat, len: nat, shift: nat, extraLen: nat)
  {
    && 0 < len && shift < 8
    && ByteLen(len + extraLen) == PayloadBits.Touched(offset, len)
    && offset % 8 + len + shift == 8 * PayloadBits.Touched(offset, len)
  }

  /** The packet has the bytes of the field, and the load finds them. */
  predicate Loads(w: World, key: nat, p: seq<Byte>, offset: nat, len: nat)
  {
    var at, n := offset / 8, PayloadBits.Touched(offset, len);
    at + n <= |p| && key in w.fields && w.fields[key] == p[at..at + n]
  }

  lemma {:induction false} MaskBelow(len: nat, shift: nat)
    ensures Shl(Ones(len), shift) < Pow2(len + shift)
  {
    Pow2Add(shift, len);
    hide Pow2;
    MulLess(Pow2(shift), Ones(len), Pow2(len));
  }

  lemma {:induction false} FieldTyped(key: nat, offset: nat, len: nat, shift: nat, extraLen: nat, w: World)
    requires Placed(offset, len, shift, extraLen) && len + shift <= 128
    ensures var t := FieldMask(key, len, shift, extraLen);
      && WellTyped(t, w) && HasLength(t, w) && |Steps(t)| == 1 && ConstantsFit(Steps(t), t.len)
      && Need(t) == 0 && TermLen(t) == len + shift && TermOrder(t) == Big
      && ByteLen(TermLen(t)) == PayloadBits.Touched(offset, len)
  {
    hide Pow2;
    hide Shl;
    MaskBelow(len, shift);
    var t := FieldMask(key, len, shift, extraLen);
    assert Steps(t.left) == [];
    assert Steps(t) == [Step(And, Shl(Ones(len), shift))];
    assert Shaped(t.left, w) && Need(t.left) == 0;
  }

  /** Its value, shifted down, is the number that the bits of the field are. */
  lemma {:induction false} FieldValue(key: nat, p: seq<Byte>, offset: nat, len: nat, shift: nat, extraLen: nat, w: World)
    requires Placed(offset, len, shift, extraLen) && Loads(w, key, p, offset, len)
    ensures var t := FieldMask(key, len, shift, extraLen);
      Present(t, w) && offset + len <= 8 * |p| && Shr(Eval(t, w), shift) == PacketBits.Field(p, offset, len)
  {
    hide Pow2;
    hide Shl;
    hide Shr;
    hide NatBits;
    hide Import;
    hide PacketBits.Field;
    var at, n := offset / 8, PayloadBits.Touched(offset, len);
    var t := FieldMask(key, len, shift, extraLen);
    var s := w.fields[key];
    assert s[..n] == s == p[at..at + n];
    assert HasField(key, len + extraLen, w);
    assert Eval(t.left, w) == Import(p[at..at + n], Big);
    assert Present(t.left, w);
    PayloadBits.ReadsField(p, PayloadBits.FieldRead(at, n, Shl(Ones(len), shift), shift), offset, len);
  }

  /** Constants as they are evaluated beside a field of so many bits. */
  predicate ConstantsOf(right: Moved.Right, len: nat)
  {
    Single(right) &&
    match right.member
    case Value(c) => c.len == len && c.value < Pow2(len)
    case Range(low, high) => low.len == len && high.len == len && low.value < Pow2(len) && high.value < Pow2(len)
  }

  function ShiftedConst(c: Moved.Const, k: nat): Moved.Const
  {
    Moved.Const(Shl(c.value, k), c.len + k)
  }

  function ShiftedRight(right: Moved.Right, k: nat): Moved.Right
    requires Single(right)
  {
    match right.member
    case Value(c) => Moved.One(Moved.Value(ShiftedConst(c, k)))
    case Range(low, high) => Moved.One(Moved.Range(ShiftedConst(low, k), ShiftedConst(high, k)))
  }

  lemma {:induction false} GrownByShift(right: Moved.Right, k: nat, len: nat)
    requires ConstantsOf(right, len) && 0 < len && 0 < k
    ensures Moved.AllEvaluated(Moved.MembersOf(right), len)
    ensures Moved.AllTransfer(Moved.RShift, k, Moved.MembersOf(right))
    ensures Moved.GrownAll(Moved.RShift, k, Moved.MembersOf(right), len) == len + k
  {
    hide Pow2;
    var members := Moved.MembersOf(right);
    assert members == [right.member] && members[..0] == [];
    assert Moved.GrownAll(Moved.RShift, k, [], len) == len;
    assert Moved.GrownAll(Moved.RShift, k, members, len) == Moved.Grown(Moved.RShift, k, right.member, len);
  }

  /** What the transfer makes of them. */
  lemma {:induction false} MovedConstants(right: Moved.Right, right': Moved.Right, k: nat, len: nat)
    requires ConstantsOf(right, len) && 0 < len && 0 < k
    requires Moved.MovedRight(Moved.RShift, k, right, right', Moved.GrownAll(Moved.RShift, k, Moved.MembersOf(right), len))
    ensures right' == ShiftedRight(right, k)
  {
    hide Pow2;
    hide Shl;
    hide Moved.GrownAll;
    hide Moved.Simplified;
    GrownByShift(right, k, len);
    match right.member
    case Value(c) => Moved.ShiftedConst(k, c, len + k);
    case Range(low, high) =>
      Moved.ShiftedConst(k, low, len + k);
      Moved.ShiftedConst(k, high, len + k);
  }

  lemma {:induction false} ShiftedBelow(c: nat, len: nat, k: nat)
    requires c < Pow2(len)
    ensures Shl(c, k) < Pow2(len + k)
  {
    Pow2Add(k, len);
    hide Pow2;
    MulLess(Pow2(k), c, Pow2(len));
  }

  /** A comparison that the rule makes with the bits of a field. */
  predicate Comparison(op: Moved.RelOp, right: Moved.Right, len: nat)
  {
    ConstantsOf(right, len) && (right.member.Range? ==> op == Moved.Eq || op == Moved.Neq)
  }

  lemma {:induction false} FieldRelation(key: nat, offset: nat, len: nat, shift: nat, extraLen: nat,
      op: Moved.RelOp, right: Moved.Right, w: World)
    requires Placed(offset, len, shift, extraLen) && len + shift <= 128 && Comparison(op, right, len)
    ensures var a := FieldMask(key, len, shift, extraLen);
      RelationTyped(OpOf(op), One(Masked(a, shift)), RhsOf(ShiftedRight(right, shift), Big), w)
    ensures shift == 0 ==>
      RelationTyped(OpOf(op), One(FieldMask(key, len, shift, extraLen)), RhsOf(right, Big), w)
  {
    hide Pow2;
    hide Shl;
    hide WellTyped;
    hide HasLength;
    hide ConstantsFit;
    hide Steps;
    var a := FieldMask(key, len, shift, extraLen);
    FieldTyped(key, offset, len, shift, extraLen, w);
    MaskedTyped(a, shift, w);
    assert TermLen(Masked(a, shift)) == len + shift && TermOrder(Masked(a, shift)) == Big;
    match right.member
    case Value(c) => ShiftedBelow(c.value, len, shift);
    case Range(low, high) =>
      ShiftedBelow(low.value, len, shift);
      ShiftedBelow(high.value, len, shift);
  }

  /** What the rule says of the field. */
  predicate FieldCompares(op: Moved.RelOp, y: nat, right: Moved.Right, len: nat)
  {
    Moved.Holds(Moved.Load(len), op, right, y)
  }

  lemma {:induction false} ShiftCompares(op: Moved.RelOp, right: Moved.Right, len: nat, width: nat, k: nat, x: nat)
    ensures Moved.Holds(Moved.Binop(Moved.RShift, width, k), op, right, x) == FieldCompares(op, Shr(x, k), right, len)
  {
  }

  /** The statement decides as the bits of the field in the packet do, from any
      register contents; without the field it does not match. */
  predicate DecidesField(s: Stmt, key: nat, offset: nat, len: nat, op: Moved.RelOp, right: Moved.Right,
      p: seq<Byte>, regs: Regs, w: World)
    requires Generates(s)
  {
    && (Loads(w, key, p, offset, len) ==>
          && offset + len <= 8 * |p|
          && Decides(Run(StmtCode(s), regs, w), true, FieldCompares(op, PacketBits.Field(p, offset, len), right, len)))
    && (key !in w.fields ==> Run(StmtCode(s), regs, w) == NoMatch)
  }

  /** A field above other bits: the shift has been moved. */
  lemma {:induction false} ShiftedFieldRuns(key: nat, offset: nat, len: nat, shift: nat, extraLen: nat,
      op: Moved.RelOp, right: Moved.Right, right': Moved.Right, p: seq<Byte>, regs: Regs, w: World)
    requires Placed(offset, len, shift, extraLen) && 0 < shift && len + shift <= 128 && Comparison(op, right, len)
    requires Moved.MovedRight(Moved.RShift, shift, right, right', Moved.GrownAll(Moved.RShift, shift, Moved.MembersOf(right), len))
    ensures Single(right') &&
      var s := Match(One(Masked(FieldMask(key, len, shift, extraLen), shift)), OpOf(op), RhsOf(right', Big));
      Generates(s) && StmtNeed(s) <= SLOTS && DecidesField(s, key, offset, len, op, right, p, regs, w)
  {
    hide Run;
    hide StmtCode;
    hide Pow2;
    hide Shl;
    hide Shr;
    hide WellTyped;
    hide HasLength;
    hide ConstantsFit;
    hide Steps;
    hide Masked;
    hide RelationTyped;
    hide Eval;
    hide Moved.MovedRight;
    hide Moved.GrownAll;
    hide Moved.Holds;
    hide PacketBits.Field;
    hide Placed;
    var a := FieldMask(key, len, shift, extraLen);
    assert 0 < len && 0 < PayloadBits.Touched(offset, len) by { FieldThere(offset, len, shift, extraLen); }
    FieldTyped(key, offset, len, shift, extraLen, w);
    GrownByShift(right, shift, len);
    MovedConstants(right, right', shift, len);
    FieldRelation(key, offset, len, shift, extraLen, op, right, w);
    MovedRuns(a, shift, op, right, right', len, regs, w);
    ShiftCompares(op, right, len, len + shift, shift, Eval(a, w));
    FieldAbsent(key, len, shift, extraLen, w);
    if Loads(w, key, p, offset, len) {
      FieldValue(key, p, offset, len, shift, extraLen, w);
    }
  }

  lemma {:induction false} FieldThere(offset: nat, len: nat, shift: nat, extraLen: nat)
    requires Placed(offset, len, shift, extraLen)
    ensures 0 < len && 0 < PayloadBits.Touched(offset, len)
  {
  }

  lemma {:induction false} FieldAbsent(key: nat, len: nat, shift: nat, extraLen: nat, w: World)
    ensures key !in w.fields ==> !Present(FieldMask(key, len, shift, extraLen), w)
  {
    assert Present(FieldMask(key, len, shift, extraLen), w) == Present(Terms.Field(key, Big, len + extraLen), w);
  }

  /** A field at the end of its bytes: there is nothing to shift. */
  lemma {:induction false} LastFieldRuns(key: nat, offset: nat, len: nat, extraLen: nat,
      op: Moved.RelOp, right: Moved.Right, p: seq<Byte>, regs: Regs, w: World)
    requires Placed(offset, len, 0, extraLen) && len <= 128 && Comparison(op, right, len)
    ensures var s := Match(One(FieldMask(key, len, 0, extraLen)), OpOf(op), RhsOf(right, Big));
      Generates(s) && StmtNeed(s) <= SLOTS && DecidesField(s, key, offset, len, op, right, p, regs, w)
  {
    hide Run;
    hide StmtCode;
    hide Pow2;
    hide Shl;
    hide Shr;
    hide WellTyped;
    hide HasLength;
    hide ConstantsFit;
    hide Steps;
    hide RelationTyped;
    hide Eval;
    hide Holds;
    hide PacketBits.Field;
    hide Placed;
    var a := FieldMask(key, len, 0, extraLen);
    var s := Match(One(a), OpOf(op), RhsOf(right, Big));
    FieldTyped(key, offset, len, 0, extraLen, w);
    FieldRelation(key, offset, len, 0, extraLen, op, right, w);
    SameRelation(One(a), op, right, Moved.Load(len), Eval(a, w), w);
    MatchRuns(s, regs, w);
    FieldAbsent(key, len, 0, extraLen, w);
    if Loads(w, key, p, offset, len) {
      FieldValue(key, p, offset, len, 0, extraLen, w);
      ShrNothing(Eval(a, w));
    }
  }

  /* ---- The whole way ---- */

  /** The left side after the transfer, with the term that its operation is on. */
  function TermOf(left: Moved.Lhs, a: Term): Term
  {
    match left
    case Binop(AndOp, _, v) => Binop(And, a, v, TermOrder(a), TermLen(a))
    case _ => a
  }

  /** expr_evaluate_bits on a field of a header, binop_transfer on the relation, and
      the statement that is compiled. */
  method EvaluateFieldMatch(key: nat, offset: nat, len: nat, op: Moved.RelOp, right: Moved.Right) returns (s: Stmt)
    requires 0 < len && 8 * PayloadBits.Touched(offset, len) - offset % 8 <= 128 && Comparison(op, right, len)
    ensures Generates(s) && StmtNeed(s) <= SLOTS
    ensures forall p: seq<Byte>, regs: Regs, w: World :: DecidesField(s, key, offset, len, op, right, p, regs, w)
  {
    hide DecidesField;
    hide Pow2;
    hide Moved.MovedRight;
    hide Moved.Refused;
    var shift, extraLen := PayloadBits.ExprOffsetShift(len, offset);
    var a := FieldMask(key, len, shift, extraLen);
    if shift == 0 {
      s := Match(One(a), OpOf(op), RhsOf(right, Big));
      assert Need(a.left) == 0 && Need(a) == 0 && ExprNeed(s.left) == 0;
      forall p: seq<Byte>, regs: Regs, w: World
        ensures Generates(s) && StmtNeed(s) <= SLOTS && DecidesField(s, key, offset, len, op, right, p, regs, w)
      {
        LastFieldRuns(key, offset, len, extraLen, op, right, p, regs, w);
      }
    } else {
      var r := new Moved.Relation(Moved.Binop(Moved.RShift, len + shift, shift), op, right, len);
      GrownByShift(right, shift, len);
      Moved.RightShiftAccepted(shift, right, len);
      var ok := r.Transfer();
      MovedConstants(right, r.right, shift, len);
      s := Match(One(TermOf(r.left, a)), OpOf(op), RhsOf(r.right, Big));
      ghost var right' := r.right;
      assert Need(a.left) == 0 && Need(a) == 0 && Need(s.left.term) == 0 && ExprNeed(s.left) == 0;
      forall p: seq<Byte>, regs: Regs, w: World
        ensures Generates(s) && StmtNeed(s) <= SLOTS && DecidesField(s, key, offset, len, op, right, p, regs, w)
      {
        ShiftedFieldRuns(key, offset, len, shift, extraLen, op, right, right', p, regs, w);
      }
    }
  }

  /* ---- Fields as keys of sets and verdict maps ---- */

  /** The left side that a key is computed with. */
  function KeyTerm(key: nat, len: nat, shift: nat, extraLen: nat): Term
  {
    var a := FieldMask(key, len, shift, extraLen);
    if shift == 0 then a else Masked(a, shift)
  }

  lemma {:induction false} KeyTyped(key: nat, offset: nat, len: nat, shift: nat, extraLen: nat, w: World)
    requires Placed(offset, len, shift, extraLen) && len + shift <= 128
    ensures var t := KeyTerm(key, len, shift, extraLen);
      && WellTyped(t, w) && Need(t) == 0 && TermOrder(t) == Big && ByteLen(TermLen(t)) == PayloadBits.Touched(offset, len)
      && (key !in w.fields ==> !Present(t, w))
  {
    hide Pow2;
    hide Shl;
    hide WellTyped;
    hide HasLength;
    hide ConstantsFit;
    var a := FieldMask(key, len, shift, extraLen);
    FieldTyped(key, offset, len, shift, extraLen, w);
    MaskedTyped(a, shift, w);
    FieldAbsent(key, len, shift, extraLen, w);
    assert Need(Masked(a, shift)) == Need(a) && Present(Masked(a, shift), w) == Present(a, w);
  }

  /** Its value is the number of the field, where the field stands in its bytes. */
  lemma {:induction false} KeyValue(key: nat, p: seq<Byte>, offset: nat, len: nat, shift: nat, extraLen: nat, w: World)
    requires Placed(offset, len, shift, extraLen) && Loads(w, key, p, offset, len) && len + shift <= 128
    ensures var t := KeyTerm(key, len, shift, extraLen);
      Present(t, w) && offset + len <= 8 * |p| && Eval(t, w) == Shl(PacketBits.Field(p, offset, len), shift)
  {
    hide Pow2;
    hide WellTyped;
    hide HasLength;
    hide ConstantsFit;
    hide NatBits;
    hide Shl;
    hide Shr;
    hide PacketBits.Field;
    var a := FieldMask(key, len, shift, extraLen);
    FieldTyped(key, offset, len, shift, extraLen, w);
    FieldValue(key, p, offset, len, shift, extraLen, w);
    if shift == 0 {
      ShrNothing(Eval(a, w));
      ShlNothing(Eval(a, w));
    } else {
      EvalFits(a, w);
      Moved.MaskForShift(Eval(a, w), TermLen(a), shift);
      assert Eval(Masked(a, shift), w) == NatBits(And, Eval(a, w), Shl(Ones(TermLen(a)), shift));
      assert Present(Masked(a, shift), w) == Present(a, w);
    }
  }

  lemma {:induction false} ShlNothing(v: nat)
    ensures Shl(v, 0) == v
  {
  }

  /** A value as a member of a set, perhaps with what it is mapped to. */
  predicate IsKey(m: Moved.Member, len: nat)
  {
    match m
    case Value(c) => c.len == len && c.value < Pow2(len)
    case Elem(key) => IsKey(key, len)
    case Mapping(from, _) => IsKey(from, len)
    case _ => false
  }

  function KeyConst(m: Moved.Member): nat
  {
    match m
    case Value(c) => c.value
    case Elem(key) => KeyConst(key)
    case Mapping(from, _) => KeyConst(from)
    case _ => 0
  }

  predicate AreKeys(members: seq<Moved.Member>, len: nat)
  {
    forall i :: 0 <= i < |members| ==> IsKey(members[i], len)
  }

  lemma {:induction false} KeyMoves(m: Moved.Member, m': Moved.Member, k: nat, len: nat)
    requires IsKey(m, len) && 0 < len && Moved.TransferOne(Moved.RShift, k, m, len + k) == Some(m')
    ensures KeyConst(m') == Shl(KeyConst(m), k)
    decreases m
  {
    hide Pow2;
    hide Shl;
    hide Moved.Simplified;
    match m
    case Value(c) => Moved.ShiftedConst(k, c, len + k);
    case Elem(key) => KeyMoves(key, m'.key, k, len);
    case Mapping(from, _) => KeyMoves(from, m'.from, k, len);
  }

  lemma {:induction false} KeyGrows(m: Moved.Member, k: nat, len: nat, grown: nat)
    requires IsKey(m, len) && 0 < len && 0 < k && (grown == len || grown == len + k)
    ensures Moved.Grown(Moved.RShift, k, m, grown) == len + k && Moved.Evaluated(m, len)
    decreases m
  {
    hide Pow2;
    match m
    case Elem(key) => KeyGrows(key, k, len, grown);
    case Mapping(from, _) => KeyGrows(from, k, len, grown);
    case _ =>
  }

  lemma {:induction false} KeysGrow(members: seq<Moved.Member>, k: nat, len: nat)
    requires AreKeys(members, len) && 0 < len && 0 < k
    ensures Moved.GrownAll(Moved.RShift, k, members, len) == if members == [] then len else len + k
    decreases |members|
  {
    if members != [] {
      var n := |members| - 1;
      KeysGrow(members[..n], k, len);
      KeyGrows(members[n], k, len, Moved.GrownAll(Moved.RShift, k, members[..n], len));
    }
  }

  /** The members of the set as the rule has them, after the transfer. */
  predicate KeysShifted(members: seq<Moved.Member>, members': seq<Moved.Member>, k: nat)
  {
    |members'| == |members| && forall i :: 0 <= i < |members| ==> KeyConst(members'[i]) == Shl(KeyConst(members[i]), k)
  }

  /** binop_transfer shifts every member of a literal set. */
  lemma {:induction false} LiteralShifted(members: seq<Moved.Member>, right': Moved.Right, k: nat, len: nat)
    requires AreKeys(members, len) && 0 < len && 0 < k
    requires Moved.MovedRight(Moved.RShift, k, Moved.Literal(members), right',
      Moved.GrownAll(Moved.RShift, k, members, len))
    ensures right'.Literal? && KeysShifted(members, right'.members, k)
  {
    hide Pow2;
    hide Shl;
    hide Moved.GrownAll;
    hide Moved.TransferOne;
    KeysGrow(members, k, len);
    forall i | 0 <= i < |members|
      ensures KeyConst(Moved.MembersOf(right')[i]) == Shl(KeyConst(members[i]), k)
    {
      KeyMoves(members[i], Moved.MembersOf(right')[i], k, len);
    }
  }

  /** A set that holds the bytes of these members and no others. */
  ghost predicate Filled(def: SetDef, members: seq<Moved.Member>, n: nat)
  {
    && def.keyLength == n
    && forall s :: s in def.elements <==> exists i :: 0 <= i < |members| && s == Export(KeyConst(members[i]), Big, n)
  }

  /** The key is one of the shifted members exactly when the field is one of those
      that were written. */
  lemma {:induction false} KeyFound(f: nat, members: seq<Moved.Member>, members': seq<Moved.Member>, k: nat, len: nat, n: nat, i: nat)
    requires AreKeys(members, len) && KeysShifted(members, members', k) && len + k <= 8 * n && f < Pow2(len)
    requires i < |members|
    ensures Export(Shl(f, k), Big, n) == Export(KeyConst(members'[i]), Big, n) <==> f == KeyConst(members[i])
  {
    hide Export;
    hide Shl;
    KeyBelow(members[i], len);
    ShiftedBelow(f, len, k);
    ShiftedBelow(KeyConst(members[i]), len, k);
    Pow2Monotone(len + k, 8 * n);
    hide Pow2;
    ExportInjective(Shl(f, k), KeyConst(members'[i]), Big, n);
    ShlOrder(f, KeyConst(members[i]), k);
  }

  lemma {:induction false} KeyBelow(m: Moved.Member, len: nat)
    requires IsKey(m, len)
    ensures KeyConst(m) < Pow2(len)
    ensures forall y: nat :: Moved.Has(m, y) <==> y == KeyConst(m)
    decreases m
  {
    match m
    case Elem(key) => KeyBelow(key, len);
    case Mapping(from, _) => KeyBelow(from, len);
    case _ =>
  }

  /** Membership of the field in a literal set. */
  lemma {:induction false} FieldLookupRuns(key: nat, offset: nat, len: nat, shift: nat, extraLen: nat, negated: bool,
      members: seq<Moved.Member>, members': seq<Moved.Member>, setId: nat, p: seq<Byte>, regs: Regs, w: World)
    requires Placed(offset, len, shift, extraLen) && len + shift <= 128
    requires AreKeys(members, len) && KeysShifted(members, members', shift)
    requires setId in w.sets && Filled(w.sets[setId], members', PayloadBits.Touched(offset, len))
    ensures var s := Match(One(KeyTerm(key, len, shift, extraLen)), if negated then Neq else Eq, SetRef(setId));
      && Generates(s) && StmtNeed(s) <= SLOTS
      && (Loads(w, key, p, offset, len) ==>
            && offset + len <= 8 * |p|
            && Decides(Run(StmtCode(s), regs, w), true,
                 Moved.HasAny(members, PacketBits.Field(p, offset, len)) == !negated))
      && (key !in w.fields ==> Run(StmtCode(s), regs, w) == NoMatch)
  {
    hide Run;
    hide StmtCode;
    hide WellTyped;
    hide Shl;
    hide Export;
    hide KeyTerm;
    hide Eval;
    hide IsKey;
    hide KeysShifted;
    hide PacketBits.Field;
    hide Moved.Has;
    var t, n := KeyTerm(key, len, shift, extraLen), PayloadBits.Touched(offset, len);
    var s := Match(One(t), if negated then Neq else Eq, SetRef(setId));
    KeyTyped(key, offset, len, shift, extraLen, w);
    assert StmtTyped(s, w) && StmtNeed(s) <= SLOTS;
    MatchRuns(s, regs, w);
    if Loads(w, key, p, offset, len) {
      KeyValue(key, p, offset, len, shift, extraLen, w);
      PacketBits.FieldBound(p, offset, len);
      KeyMember(PacketBits.Field(p, offset, len), members, members', shift, len, n, w.sets[setId]);
      assert Image(One(t), w) == Export(Shl(PacketBits.Field(p, offset, len), shift), Big, n);
    }
  }

  lemma {:induction false} KeyMember(f: nat, members: seq<Moved.Member>, members': seq<Moved.Member>, k: nat, len: nat, n: nat, def: SetDef)
    requires AreKeys(members, len) && KeysShifted(members, members', k) && len + k <= 8 * n && f < Pow2(len)
    requires Filled(def, members', n)
    ensures Export(Shl(f, k), Big, n) in def.elements <==> Moved.HasAny(members, f)
  {
    hide Export;
    hide Shl;
    hide IsKey;
    hide Pow2;
    forall i | 0 <= i < |members|
      ensures Export(Shl(f, k), Big, n) == Export(KeyConst(members'[i]), Big, n) <==> Moved.Has(members[i], f)
    {
      KeyFound(f, members, members', k, len, n, i);
      KeyBelow(members[i], len);
    }
  }

  /** A verdict map over the members. */
  ghost predicate MapFilled(def: SetDef, members: seq<Moved.Member>, verdicts: seq<Verdict>, n: nat)
    requires |verdicts| == |members|
  {
    && Filled(def, members, n)
    && forall i :: 0 <= i < |members| ==> var s := Export(KeyConst(members[i]), Big, n);
         s in def.elements && def.elements[s] == verdicts[i]
  }

  /** The verdict of the member that the field is equal to, or the end of the rule. */
  lemma {:induction false} FieldVmapRuns(key: nat, offset: nat, len: nat, shift: nat, extraLen: nat,
      members: seq<Moved.Member>, members': seq<Moved.Member>, verdicts: seq<Verdict>, setId: nat,
      p: seq<Byte>, regs: Regs, w: World)
    requires Placed(offset, len, shift, extraLen) && len + shift <= 128 && |verdicts| == |members|
    requires AreKeys(members, len) && KeysShifted(members, members', shift)
    requires setId in w.sets && MapFilled(w.sets[setId], members', verdicts, PayloadBits.Touched(offset, len))
    requires Loads(w, key, p, offset, len)
    ensures offset + len <= 8 * |p|
    ensures var s, f := Vmap(One(KeyTerm(key, len, shift, extraLen)), setId), PacketBits.Field(p, offset, len);
      && StmtNeed(s) <= SLOTS
      && (forall i :: 0 <= i < |members| && Moved.Has(members[i], f) ==>
            Agrees(Run(StmtCode(s), regs, w), Conclude(verdicts[i])))
      && (!Moved.HasAny(members, f) ==> Run(StmtCode(s), regs, w) == NoMatch)
  {
    hide Run;
    hide StmtCode;
    hide WellTyped;
    hide Shl;
    hide Export;
    hide KeyTerm;
    hide Eval;
    hide IsKey;
    hide PacketBits.Field;
    hide Moved.Has;
    var t, n := KeyTerm(key, len, shift, extraLen), PayloadBits.Touched(offset, len);
    var s := Vmap(One(t), setId);
    KeyTyped(key, offset, len, shift, extraLen, w);
    assert StmtTyped(s, w) && StmtNeed(s) <= SLOTS;
    VmapRuns(s, regs, w);
    KeyValue(key, p, offset, len, shift, extraLen, w);
    PacketBits.FieldBound(p, offset, len);
    var f := PacketBits.Field(p, offset, len);
    KeyMember(f, members, members', shift, len, n, w.sets[setId]);
    assert Image(One(t), w) == Export(Shl(f, shift), Big, n);
    forall i | 0 <= i < |members| && Moved.Has(members[i], f)
      ensures Agrees(Run(StmtCode(s), regs, w), Conclude(verdicts[i]))
    {
      KeyFound(f, members, members', shift, len, n, i);
      KeyBelow(members[i], len);
    }
  }
}
