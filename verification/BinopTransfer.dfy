/** Moving an invertible operation from the left side of a relation to the
    constants on its right (src/evaluate.c), and exactly when that keeps the
    relation. */
module BinopTransfer {
  import opened Lengths
  import opened Arith
  import opened Bits
  import opened PowerOfTwo
  import opened BinopFold

  datatype LeftOp = LShift | RShift | XorOp | AndOp | OrOp

  /** The left side: something loaded of a width, or one operation on it. */
  datatype Lhs = Load(len: nat) | Binop(op: LeftOp, len: nat, right: nat)

  datatype Const = Const(value: nat, len: nat)

  datatype Member =
    | Value(c: Const)
    | Range(low: Const, high: Const)
    | Prefix(base: Const, prefixLen: nat)
    | Elem(key: Member)
    | Mapping(from: Member, data: nat)

  datatype Right =
    | One(member: Member)
    | Literal(members: seq<Member>)
    | SetRef(anonymous: bool, init: seq<Member>)

  datatype RelOp = Eq | Neq | Lt | Gt | Lte | Gte

  /* ---- Meaning ---- */

  function LhsValue(left: Lhs, x: nat): (y: nat)
  {
    match left
    case Load(_) => x
    case Binop(LShift, len, k) => Shl(x, k) % Pow2(len)
    case Binop(RShift, _, k) => Shr(x, k)
    case Binop(XorOp, _, v) => NatBits(Xor, x, v)
    case Binop(AndOp, _, v) => NatBits(And, x, v)
    case Binop(OrOp, _, v) => NatBits(Or, x, v)
  }

  predicate Has(m: Member, y: nat)
  {
    match m
    case Value(c) => y == c.value
    case Range(low, high) => low.value <= y <= high.value
    case Prefix(base, n) => n <= base.len && Shr(y, base.len - n) == Shr(base.value, base.len - n)
    case Elem(key) => Has(key, y)
    case Mapping(from, _) => Has(from, y)
  }

  predicate HasAny(members: seq<Member>, y: nat)
  {
    exists i :: 0 <= i < |members| && Has(members[i], y)
  }

  predicate Compares(op: RelOp, y: nat, c: nat)
  {
    match op
    case Eq => y == c
    case Neq => y != c
    case Lt => y < c
    case Gt => y > c
    case Lte => y <= c
    case Gte => y >= c
  }

  /** The relation on a loaded value; order is only defined for single values. */
  predicate Holds(left: Lhs, op: RelOp, right: Right, x: nat)
  {
    var y := LhsValue(left, x);
    match right
    case One(Value(c)) => Compares(op, y, c.value)
    case One(m) => Has(m, y) == (op != Neq)
    case Literal(members) => HasAny(members, y) == (op != Neq)
    case SetRef(_, init) => HasAny(init, y) == (op != Neq)
  }

  /* ---- The operations of the program on values ---- */

  /** Whether the low k bits are clear; mpz_scan1 of zero is beyond every k. */
  predicate LowBitsClear(v: nat, k: nat)
  {
    v == 0 || LowestBit(v) >= k
  }

  datatype Answer = Error | No | Yes

  function CanTransferConst(op: LeftOp, k: nat, c: Const): Answer
  {
    match op
    case LShift => if LowBitsClear(c.value, k) then Yes else Error
    case RShift => Yes
    case XorOp => Yes
    case AndOp => No
    case OrOp => No
  }

  /** binop_can_transfer */
  function CanTransfer(op: LeftOp, k: nat, m: Member): Answer
  {
    match m
    case Value(c) => CanTransferConst(op, k, c)
    case Range(low, high) =>
      var a := CanTransferConst(op, k, low);
      if a != Yes then a else CanTransferConst(op, k, high)
    case Prefix(_, _) => No
    case Elem(key) => CanTransfer(op, k, key)
    case Mapping(from, _) => CanTransfer(op, k, from)
  }

  /** The operations that can be undone on a constant. */
  predicate Movable(op: LeftOp)
  {
    op == LShift || op == RShift || op == XorOp
  }

  /** What binop_can_transfer makes of the length in the evaluation context: a right
      shift of a constant for which it is too short lengthens it by the shift. */
  function GrownBy(op: LeftOp, k: nat, c: Const, len: nat): nat
  {
    if op == RShift && len < c.len + k then len + k else len
  }

  function Grown(op: LeftOp, k: nat, m: Member, len: nat): nat
  {
    match m
    case Value(c) => GrownBy(op, k, c, len)
    case Range(low, high) =>
      var l := GrownBy(op, k, low, len);
      if CanTransferConst(op, k, low) != Yes then l else GrownBy(op, k, high, l)
    case Prefix(_, _) => len
    case Elem(key) => Grown(op, k, key, len)
    case Mapping(from, _) => Grown(op, k, from, len)
  }

  /** The members one after the other. */
  function GrownAll(op: LeftOp, k: nat, members: seq<Member>, len: nat): nat
  {
    if members == [] then len
    else Grown(op, k, members[|members| - 1], GrownAll(op, k, members[..|members| - 1], len))
  }

  /** The constant operation that is built and then simplified at once.  Both sides
      are first evaluated as integers of the length in the context, which must hold
      them and becomes theirs; a shift by that length or more is an error. */
  function Simplified(op: LeftOp, k: nat, c: Const, len: nat): (r: Option<Const>)
    requires Movable(op)
  {
    if c.value >= Pow2(len) || k >= Pow2(len) then None
    else if op == LShift then
      if k >= len then None else Some(Const(Shr(c.value % Pow2(len), k), len))
    else if op == RShift then
      if k >= len then None else Some(Const(Shl(c.value, k) % Pow2(len), len))
    else Some(Const(NatBits(Xor, c.value, k) % Pow2(len), len))
  }

  /** binop_transfer_one, with the length in the context */
  function TransferOne(op: LeftOp, k: nat, m: Member, len: nat): (r: Option<Member>)
    requires Movable(op)
  {
    match m
    case Value(c) =>
      var s := Simplified(op, k, c, len);
      if s.None? then None else Some(Value(s.value))
    case Range(low, high) =>
      var l, h := Simplified(op, k, low, len), Simplified(op, k, high, len);
      if l.None? || h.None? then None else Some(Range(l.value, h.value))
    case Prefix(_, _) => Some(m)
    case Elem(key) =>
      var s := TransferOne(op, k, key, len);
      if s.None? then None else Some(Elem(s.value))
    case Mapping(from, data) =>
      var s := TransferOne(op, k, from, len);
      if s.None? then None else Some(Mapping(s.value, data))
  }

  /** binop_transfer_handle_lhs: the bits a right shift would drop are masked out
      instead; the mask itself is not cut to the width. */
  function HandledLhs(left: Lhs): Lhs
    requires left.Binop?
  {
    if left.op == RShift then Binop(AndOp, left.len, Shl(Ones(left.len), left.right)) else Load(left.len)
  }

  function MembersOf(right: Right): seq<Member>
  {
    match right
    case One(m) => [m]
    case Literal(members) => members
    case SetRef(_, init) => init
  }

  function WithMembers(right: Right, members: seq<Member>): Right
    requires |members| == |MembersOf(right)|
  {
    match right
    case One(_) => One(members[0])
    case Literal(_) => Literal(members)
    case SetRef(a, _) => SetRef(a, members)
  }

  /** Right sides that the operation is moved to at all. */
  predicate Considered(right: Right)
  {
    match right
    case One(m) => m.Value? || m.Range?
    case Literal(_) => true
    case SetRef(a, _) => a
  }

  /** Every member can be transferred and is, with len in the context. */
  predicate Moved(op: LeftOp, k: nat, before: seq<Member>, after: seq<Member>, len: nat)
    requires Movable(op)
  {
    |after| == |before| &&
    forall i :: 0 <= i < |before| ==>
      CanTransfer(op, k, before[i]) == Yes && TransferOne(op, k, before[i], len) == Some(after[i])
  }

  predicate MovedRight(op: LeftOp, k: nat, before: Right, after: Right, len: nat)
    requires Movable(op)
  {
    && Considered(before) && |MembersOf(after)| == |MembersOf(before)|
    && after == WithMembers(before, MembersOf(after))
    && Moved(op, k, MembersOf(before), MembersOf(after), len)
  }

  predicate AllTransfer(op: LeftOp, k: nat, members: seq<Member>)
  {
    forall i :: 0 <= i < |members| ==> CanTransfer(op, k, members[i]) == Yes
  }

  /** The rule is refused: the first member that cannot be transferred is one that
      can never be equal, or all can but a constant or the operand does not fit the
      length in the context. */
  predicate Refused(op: LeftOp, k: nat, right: Right, len: nat)
  {
    var members := MembersOf(right);
    Considered(right) &&
    ((exists i :: 0 <= i < |members| && CanTransfer(op, k, members[i]) == Error && AllTransfer(op, k, members[..i])) ||
     (AllTransfer(op, k, members) && Movable(op) &&
      exists i :: 0 <= i < |members| && TransferOne(op, k, members[i], GrownAll(op, k, members, len)) == None))
  }

  lemma {:induction false} StopsAt(op: LeftOp, k: nat, right: Right, i: nat, len: nat)
    requires Considered(right) && i < |MembersOf(right)| && CanTransfer(op, k, MembersOf(right)[i]) != Yes
    requires forall j :: 0 <= j < i ==> CanTransfer(op, k, MembersOf(right)[j]) == Yes
    ensures !AllTransfer(op, k, MembersOf(right))
    ensures Refused(op, k, right, len) <==> CanTransfer(op, k, MembersOf(right)[i]) == Error
  {
    var members := MembersOf(right);
    assert AllTransfer(op, k, members[..i]);
    forall j | i < j < |members|
      ensures !AllTransfer(op, k, members[..j])
    {
      assert members[..j][i] == members[i];
    }
  }

  lemma {:induction false} RefusedAt(op: LeftOp, k: nat, right: Right, i: nat, len: nat)
    requires Considered(right) && AllTransfer(op, k, MembersOf(right)) && Movable(op) && i < |MembersOf(right)|
    requires TransferOne(op, k, MembersOf(right)[i], GrownAll(op, k, MembersOf(right), len)) == None
    ensures Refused(op, k, right, len)
  {
  }

  lemma {:induction false} NotRefused(op: LeftOp, k: nat, right: Right, len: nat)
    requires AllTransfer(op, k, MembersOf(right)) && Movable(op)
    requires forall i :: 0 <= i < |MembersOf(right)| ==>
      TransferOne(op, k, MembersOf(right)[i], GrownAll(op, k, MembersOf(right), len)) != None
    ensures !Refused(op, k, right, len)
  {
    hide TransferOne;
    hide GrownAll;
  }

  /* ---- The length in the context ---- */

  /** A constant as evaluation leaves it in a context of a length. */
  predicate ConstEvaluated(c: Const, len: nat)
  {
    0 < c.len <= len && c.value < Pow2(c.len)
  }

  predicate Evaluated(m: Member, len: nat)
  {
    match m
    case Value(c) => ConstEvaluated(c, len)
    case Range(low, high) => ConstEvaluated(low, len) && ConstEvaluated(high, len)
    case Prefix(_, _) => true
    case Elem(key) => Evaluated(key, len)
    case Mapping(from, _) => Evaluated(from, len)
  }

  predicate AllEvaluated(members: seq<Member>, len: nat)
  {
    forall i :: 0 <= i < |members| ==> Evaluated(members[i], len)
  }

  /** Long enough for every constant of a member with k more bits. */
  predicate HoldsShifted(m: Member, k: nat, len: nat)
  {
    match m
    case Value(c) => c.len + k <= len
    case Range(low, high) => low.len + k <= len && high.len + k <= len
    case Prefix(_, _) => true
    case Elem(key) => HoldsShifted(key, k, len)
    case Mapping(from, _) => HoldsShifted(from, k, len)
  }

  /** The length grows by the shift or not at all, and is then long enough. */
  lemma {:induction false} GrownIsEnough(k: nat, m: Member, len: nat, now: nat)
    requires Evaluated(m, len) && (now == len || now == len + k) && CanTransfer(RShift, k, m) == Yes
    ensures var g := Grown(RShift, k, m, now); (g == now || g == len + k) && HoldsShifted(m, k, g)
    decreases m
  {
    match m
    case Elem(key) => GrownIsEnough(k, key, len, now);
    case Mapping(from, _) => GrownIsEnough(k, from, len, now);
    case _ =>
  }

  lemma {:induction false} StillEnough(m: Member, k: nat, len: nat, more: nat)
    requires HoldsShifted(m, k, len) && len <= more
    ensures HoldsShifted(m, k, more)
    decreases m
  {
    match m
    case Elem(key) => StillEnough(key, k, len, more);
    case Mapping(from, _) => StillEnough(from, k, len, more);
    case _ =>
  }

  /** Whatever the number of members, a right shift lengthens the context once, and
      that is enough for all of them. */
  lemma {:induction false} GrownOnce(k: nat, members: seq<Member>, len: nat)
    requires AllEvaluated(members, len) && AllTransfer(RShift, k, members)
    ensures var g := GrownAll(RShift, k, members, len);
      (g == len || g == len + k) && forall i :: 0 <= i < |members| ==> HoldsShifted(members[i], k, g)
    decreases |members|
  {
    if members != [] {
      var n := |members| - 1;
      GrownOnce(k, members[..n], len);
      var now := GrownAll(RShift, k, members[..n], len);
      var g := GrownAll(RShift, k, members, len);
      GrownIsEnough(k, members[n], len, now);
      forall i | 0 <= i < |members|
        ensures HoldsShifted(members[i], k, g)
      {
        if i < n {
          assert members[..n][i] == members[i];
          StillEnough(members[i], k, now, g);
        }
      }
    }
  }

  /** Other operations leave the length alone. */
  lemma {:induction false} NotGrown(op: LeftOp, k: nat, m: Member, len: nat)
    requires op != RShift
    ensures Grown(op, k, m, len) == len
    decreases m
  {
    match m
    case Elem(key) => NotGrown(op, k, key, len);
    case Mapping(from, _) => NotGrown(op, k, from, len);
    case _ =>
  }

  lemma {:induction false} NeverGrown(op: LeftOp, k: nat, members: seq<Member>, len: nat)
    requires op != RShift
    ensures GrownAll(op, k, members, len) == len
    decreases |members|
  {
    if members != [] {
      NeverGrown(op, k, members[..|members| - 1], len);
      NotGrown(op, k, members[|members| - 1], len);
    }
  }

  /** So a shifted constant is never cut, and has the length in the context. */
  lemma {:induction false} ShiftedConst(k: nat, c: Const, len: nat)
    requires 0 < c.len && c.value < Pow2(c.len) && c.len + k <= len
    ensures Simplified(RShift, k, c, len) == Some(Const(Shl(c.value, k), len))
  {
    var p := Pow2(k);
    Pow2Add(k, c.len);
    Pow2Monotone(c.len, len);
    Pow2Monotone(k + c.len, len);
    BelowPower(k);
    Pow2Monotone(k, len);
    hide Pow2;
    MulLess(p, c.value, Pow2(c.len));
    SmallModulo(Shl(c.value, k), Pow2(len));
  }

  lemma {:induction false} BelowPower(k: nat)
    ensures k < Pow2(k)
  {
    if k > 0 {
      BelowPower(k - 1);
    }
  }

  lemma {:induction false} ShiftedMember(k: nat, m: Member, len: nat, ctx: nat)
    requires Evaluated(m, ctx) && HoldsShifted(m, k, len)
    ensures TransferOne(RShift, k, m, len).Some?
    decreases m
  {
    hide Simplified;
    match m
    case Value(c) => ShiftedConst(k, c, len);
    case Range(low, high) =>
      ShiftedConst(k, low, len);
      ShiftedConst(k, high, len);
    case Elem(key) => ShiftedMember(k, key, len, ctx);
    case Mapping(from, _) => ShiftedMember(k, from, len, ctx);
    case Prefix(_, _) =>
  }

  lemma {:induction false} RightShiftNoError(k: nat, m: Member)
    ensures CanTransfer(RShift, k, m) != Error
    decreases m
  {
    match m
    case Elem(key) => RightShiftNoError(k, key);
    case Mapping(from, _) => RightShiftNoError(k, from);
    case _ =>
  }

  /** A right shift over evaluated constants is never refused. */
  lemma {:induction false} RightShiftAccepted(k: nat, right: Right, len: nat)
    requires AllEvaluated(MembersOf(right), len)
    ensures !Refused(RShift, k, right, len)
  {
    hide TransferOne;
    var members := MembersOf(right);
    forall i | 0 <= i < |members|
      ensures CanTransfer(RShift, k, members[i]) != Error
    {
      RightShiftNoError(k, members[i]);
    }
    if AllTransfer(RShift, k, members) {
      GrownOnce(k, members, len);
      var g := GrownAll(RShift, k, members, len);
      forall i | 0 <= i < |members|
        ensures TransferOne(RShift, k, members[i], g) != None
      {
        ShiftedMember(k, members[i], g, len);
      }
    }
  }

  /* ---- When the relation is kept ---- */

  /** An exclusive-or keeps equality only, so a member must be a single value. */
  predicate MemberFits(op: LeftOp, m: Member)
  {
    match m
    case Range(_, _) => op != XorOp
    case Elem(key) => MemberFits(op, key)
    case Mapping(from, _) => MemberFits(op, from)
    case _ => true
  }

  /** The hypotheses of the transfer, for a loaded value x: the constants are those
      of the context, a left shift must not lose its high bits, and an exclusive-or
      is for equality with values. */
  predicate Preserving(left: Lhs, op: RelOp, right: Right, len: nat, x: nat)
  {
    left.Binop? ==>
      && x < Pow2(left.len)
      && AllEvaluated(MembersOf(right), len)
      && (left.op == LShift ==> Shl(x, left.right) < Pow2(left.len))
      && (left.op == XorOp && right.One? && right.member.Value? ==> op == Eq || op == Neq)
      && forall i :: 0 <= i < |MembersOf(right)| ==> MemberFits(left.op, MembersOf(right)[i])
  }

  lemma {:induction false} Scan1Clear(v: nat, k: nat)
    ensures LowBitsClear(v, k) <==> v % Pow2(k) == 0
    decreases k
  {
    if v == 0 || k == 0 {
    } else if v % 2 == 0 {
      Scan1Clear(v / 2, k - 1);
      HalvedClear(v / 2, Pow2(k - 1));
    } else {
      OddNotClear(v, Pow2(k - 1));
    }
  }

  lemma {:induction false} HalvedClear(h: nat, p: nat)
    requires 0 < p
    ensures (2 * h) % (2 * p) == 2 * (h % p)
  {
    var q := h / p;
    assert h == p * q + h % p;
    Assoc(2, p, q);
    DivUnique(2 * h, 2 * p, q, 2 * (h % p));
  }

  lemma {:induction false} OddNotClear(v: nat, p: nat)
    requires v % 2 == 1 && 0 < p
    ensures v % (2 * p) != 0
  {
    var q, r := v / (2 * p), v % (2 * p);
    Assoc(2, p, q);
    assert v == 2 * (p * q) + r;
  }

  lemma {:induction false} ClearShl(c: nat, k: nat)
    requires c % Pow2(k) == 0
    ensures Shl(Shr(c, k), k) == c
  {
  }

  /** What the program puts in place of a right shift. */
  lemma {:induction false} MaskForShift(x: nat, len: nat, k: nat)
    requires x < Pow2(len)
    ensures NatBits(And, x, Shl(Ones(len), k)) == Shl(Shr(x, k), k)
  {
    hide Bitwise;
    hide Pow2;
    var p := Pow2(k);
    assert Shr(x, k) < Pow2(len) by { ShrBelow(x, k); }
    MaskBlock(x % p, Shr(x, k), k, len);
    assert x == x % p + p * Shr(x, k);
  }

  lemma {:induction false} RightShiftMoves(x: nat, len: nat, k: nat, c: nat)
    requires x < Pow2(len)
    ensures NatBits(And, x, Shl(Ones(len), k)) < Shl(c, k) <==> Shr(x, k) < c
    ensures NatBits(And, x, Shl(Ones(len), k)) == Shl(c, k) <==> Shr(x, k) == c
  {
    hide NatBits;
    hide Pow2;
    hide Shl;
    hide Shr;
    MaskForShift(x, len, k);
    ShlOrder(Shr(x, k), c, k);
  }

  lemma {:induction false} LeftShiftMoves(x: nat, k: nat, c: nat)
    requires LowBitsClear(c, k)
    ensures x < Shr(c, k) <==> Shl(x, k) < c
    ensures x == Shr(c, k) <==> Shl(x, k) == c
  {
    hide Pow2;
    hide Shl;
    hide Shr;
    Scan1Clear(c, k);
    ClearShl(c, k);
    ShlOrder(x, Shr(c, k), k);
  }

  /** What the length in the context is to a constant that is moved. */
  predicate Enough(op: LeftOp, k: nat, c: Const, len: nat)
  {
    0 < c.len && c.value < Pow2(c.len) && (if op == RShift then c.len + k else c.len) <= len
  }

  /** One constant: the new one stands to the new left side as the old one to the
      old left side. */
  lemma {:induction false} ConstMoves(left: Lhs, x: nat, c: Const, len: nat)
    requires left.Binop? && Movable(left.op) && x < Pow2(left.len)
    requires left.op == LShift ==> Shl(x, left.right) < Pow2(left.len)
    requires Enough(left.op, left.right, c, len) && CanTransferConst(left.op, left.right, c) == Yes
    requires Simplified(left.op, left.right, c, len).Some?
    ensures var y, c', y' := LhsValue(left, x), Simplified(left.op, left.right, c, len).value, LhsValue(HandledLhs(left), x);
      (y == c.value <==> y' == c'.value) && (left.op != XorOp ==> (y < c.value <==> y' < c'.value))
  {
    hide Bitwise;
    hide Pow2;
    hide Shl;
    hide Shr;
    hide NatBits;
    hide LowBitsClear;
    var k := left.right;
    Pow2Monotone(c.len, len);
    SmallModulo(c.value, Pow2(len));
    if left.op == RShift {
      ShiftedConst(k, c, len);
      RightShiftMoves(x, left.len, k, c.value);
    } else if left.op == LShift {
      SmallModulo(Shl(x, k), Pow2(left.len));
      LeftShiftMoves(x, k, c.value);
    } else {
      XorTwice(x, k, c.value);
      XorBelow(c.value, k, len);
    }
  }

  lemma {:induction false} XorBelow(c: nat, v: nat, len: nat)
    requires c < Pow2(len) && v < Pow2(len)
    ensures NatBits(Xor, c, v) < Pow2(len) && NatBits(Xor, c, v) % Pow2(len) == NatBits(Xor, c, v)
  {
    hide Bitwise;
    hide Pow2;
    BitwiseBelow(Xor, c, v, len);
    SmallModulo(NatBits(Xor, c, v), Pow2(len));
  }

  /* ---- The program, on an expression that it rewrites in place ---- */

  class Relation {
    var left: Lhs
    var op: RelOp
    var right: Right
    /** ctx->ectx.len */
    var len: nat

    constructor (l: Lhs, o: RelOp, r: Right, n: nat)
      ensures left == l && op == o && right == r && len == n
    {
      left, op, right, len := l, o, r, n;
    }

    /** __binop_transfer: first every member is looked at, then every member is
        rewritten. */
    method TransferRight() returns (a: Answer)
      requires left.Binop? && (MembersOf(right) == [] ==> Movable(left.op))
      modifies this`right, this`len
      ensures a == Error <==> Refused(left.op, left.right, old(right), old(len))
      ensures a != No ==> Considered(old(right))
      ensures a == Yes ==> AllTransfer(left.op, left.right, MembersOf(old(right)))
      ensures a == Yes ==> len == GrownAll(left.op, left.right, MembersOf(old(right)), old(len))
      ensures a == No ==> right == old(right)
      ensures a == No && Considered(right) ==> !AllTransfer(left.op, left.right, MembersOf(right))
      ensures a == Yes ==> Movable(left.op) && MovedRight(left.op, left.right, old(right), right, len)
    {
      if !Considered(right) { return No; }
      ghost var i;
      a, i := CanTransferAll();
      if a != Yes {
        StopsAt(left.op, left.right, right, i, old(len));
        return;
      }
      a := TransferAll(old(len));
    }

    /** The first pass, which stops at the first member that is not to be moved. */
    method CanTransferAll() returns (a: Answer, ghost stop: nat)
      requires left.Binop?
      modifies this`len
      ensures a == Yes ==> AllTransfer(left.op, left.right, MembersOf(right))
      ensures a == Yes ==> len == GrownAll(left.op, left.right, MembersOf(right), old(len))
      ensures a != Yes ==> stop < |MembersOf(right)| && CanTransfer(left.op, left.right, MembersOf(right)[stop]) == a
      ensures forall j :: 0 <= j < stop < |MembersOf(right)| ==> CanTransfer(left.op, left.right, MembersOf(right)[j]) == Yes
    {
      var members := MembersOf(right);
      var i := 0;
      while i < |members|
        invariant 0 <= i <= |members|
        invariant len == GrownAll(left.op, left.right, members[..i], old(len))
        invariant forall j :: 0 <= j < i ==> CanTransfer(left.op, left.right, members[j]) == Yes
      {
        a := CanTransfer(left.op, left.right, members[i]);
        assert members[..i + 1][..i] == members[..i];
        len := Grown(left.op, left.right, members[i], len);
        if a != Yes { return a, i; }
        i := i + 1;
      }
      assert members[..i] == members;
      return Yes, i;
    }

    /** The second pass, with the length that the first one left; an error leaves the
        members rewritten that came before. */
    method TransferAll(ghost before: nat) returns (a: Answer)
      requires left.Binop? && Considered(right) && AllTransfer(left.op, left.right, MembersOf(right))
      requires MembersOf(right) == [] ==> Movable(left.op)
      requires len == GrownAll(left.op, left.right, MembersOf(right), before)
      modifies this`right
      ensures a == Yes || a == Error
      ensures a == Error <==> Refused(left.op, left.right, old(right), before)
      ensures a == Yes ==> Movable(left.op) && MovedRight(left.op, left.right, old(right), right, len)
    {
      hide GrownAll;
      var members := MembersOf(right);
      var after := members;
      var i := 0;
      while i < |members|
        invariant 0 <= i <= |members| == |after|
        invariant i > 0 ==> Movable(left.op)
        invariant forall j :: 0 <= j < i ==> TransferOne(left.op, left.right, members[j], len) == Some(after[j])
        invariant forall j :: i <= j < |members| ==> after[j] == members[j]
        invariant right == WithMembers(old(right), after)
      {
        MovableOp(left.op, left.right, members[i]);
        var m := TransferOne(left.op, left.right, members[i], len);
        if m.None? {
          RefusedAt(left.op, left.right, old(right), i, before);
          return Error;
        }
        after := after[i := m.value];
        right := WithMembers(right, after);
        i := i + 1;
      }
      NotRefused(left.op, left.right, old(right), before);
      return Yes;
    }

    /** binop_transfer; with no member at all the operation is not looked at before
        the left side is rewritten, which aborts on any that cannot be undone.
        Either everything is left alone, or the left side and every
        member are rewritten. */
    method Transfer() returns (ok: bool)
      requires left.Binop? && MembersOf(right) == [] ==> Movable(left.op)
      modifies this
      ensures op == old(op)
      ensures ok <==> !(old(left).Binop? && Refused(old(left).op, old(left).right, old(right), old(len)))
      ensures ok ==> (left == old(left) <==>
        !(old(left).Binop? && Considered(old(right)) && AllTransfer(old(left).op, old(left).right, MembersOf(old(right)))))
      ensures ok && left == old(left) ==> right == old(right)
      ensures ok && left != old(left) ==>
        && old(left).Binop? && Movable(old(left).op) && left == HandledLhs(old(left))
        && len == GrownAll(old(left).op, old(left).right, MembersOf(old(right)), old(len))
        && MovedRight(old(left).op, old(left).right, old(right), right, len)
      ensures ok ==> forall x :: Preserving(old(left), op, old(right), old(len), x) ==>
        Holds(left, op, right, x) == Holds(old(left), op, old(right), x)
    {
      hide Holds;
      hide MovedRight;
      hide MembersOf;
      hide Preserving;
      hide Refused;
      hide AllTransfer;
      hide GrownAll;
      if !left.Binop? { return true; }
      var a := TransferRight();
      if a == Error { return false; }
      if a == No { return true; }
      left := HandledLhs(left);
      forall x | Preserving(old(left), op, old(right), old(len), x)
        ensures Holds(left, op, right, x) == Holds(old(left), op, old(right), x)
      {
        TransferPreserves(old(left), op, old(right), right, old(len), x);
      }
      return true;
    }
  }

  lemma {:induction false} MovableOp(op: LeftOp, k: nat, m: Member)
    requires CanTransfer(op, k, m) == Yes
    ensures Movable(op)
    decreases m
  {
    match m
    case Elem(key) => MovableOp(op, k, key);
    case Mapping(from, _) => MovableOp(op, k, from);
    case _ =>
  }

  /** The length in the context is enough for every constant of a member. */
  predicate EnoughFor(op: LeftOp, k: nat, m: Member, len: nat)
  {
    match m
    case Value(c) => Enough(op, k, c, len)
    case Range(low, high) => Enough(op, k, low, len) && Enough(op, k, high, len)
    case Prefix(_, _) => true
    case Elem(key) => EnoughFor(op, k, key, len)
    case Mapping(from, _) => EnoughFor(op, k, from, len)
  }

  lemma {:induction false} EvaluatedEnough(op: LeftOp, k: nat, m: Member, len: nat, grown: nat)
    requires Evaluated(m, len) && len <= grown && (op == RShift ==> HoldsShifted(m, k, grown))
    ensures EnoughFor(op, k, m, grown)
    decreases m
  {
    match m
    case Elem(key) => EvaluatedEnough(op, k, key, len, grown);
    case Mapping(from, _) => EvaluatedEnough(op, k, from, len, grown);
    case _ =>
  }

  lemma {:induction false} GrownEnough(op: LeftOp, k: nat, members: seq<Member>, len: nat)
    requires AllEvaluated(members, len) && AllTransfer(op, k, members)
    ensures forall i :: 0 <= i < |members| ==> EnoughFor(op, k, members[i], GrownAll(op, k, members, len))
  {
    if op == RShift { GrownOnce(k, members, len); } else { NeverGrown(op, k, members, len); }
    hide GrownAll;
    forall i | 0 <= i < |members|
      ensures EnoughFor(op, k, members[i], GrownAll(op, k, members, len))
    {
      EvaluatedEnough(op, k, members[i], len, GrownAll(op, k, members, len));
    }
  }

  lemma {:induction false} MemberMoves(left: Lhs, x: nat, m: Member, m': Member, len: nat)
    requires left.Binop? && Movable(left.op) && x < Pow2(left.len)
    requires left.op == LShift ==> Shl(x, left.right) < Pow2(left.len)
    requires MemberFits(left.op, m) && EnoughFor(left.op, left.right, m, len)
    requires CanTransfer(left.op, left.right, m) == Yes && TransferOne(left.op, left.right, m, len) == Some(m')
    ensures Has(m, LhsValue(left, x)) == Has(m', LhsValue(HandledLhs(left), x))
    decreases m
  {
    hide Bitwise;
    hide Pow2;
    hide LhsValue;
    hide Simplified;
    hide Enough;
    hide CanTransferConst;
    match m
    case Value(c) => ConstMoves(left, x, c, len);
    case Range(low, high) =>
      ConstMoves(left, x, low, len);
      ConstMoves(left, x, high, len);
    case Elem(key) => MemberMoves(left, x, key, m'.key, len);
    case Mapping(from, _) => MemberMoves(left, x, from, m'.from, len);
    case Prefix(_, _) =>
  }

  /** The transfer keeps the relation for every loaded value that meets its
      hypotheses. */
  lemma {:induction false} TransferPreserves(left: Lhs, op: RelOp, right: Right, right': Right, len: nat, x: nat)
    requires left.Binop? && Movable(left.op)
    requires MovedRight(left.op, left.right, right, right', GrownAll(left.op, left.right, MembersOf(right), len))
    requires Preserving(left, op, right, len, x)
    ensures Holds(HandledLhs(left), op, right', x) == Holds(left, op, right, x)
  {
    hide LhsValue;
    hide Bitwise;
    hide Pow2;
    hide HandledLhs;
    hide GrownAll;
    hide EnoughFor;
    var y, y' := LhsValue(left, x), LhsValue(HandledLhs(left), x);
    var before, after := MembersOf(right), MembersOf(right');
    var grown := GrownAll(left.op, left.right, before, len);
    GrownEnough(left.op, left.right, before, len);
    forall i | 0 <= i < |before|
      ensures Has(before[i], y) == Has(after[i], y')
    {
      MemberMoves(left, x, before[i], after[i], grown);
    }
    if right.One? && right.member.Value? {
      ValueMoves(left, x, right.member.c, grown);
    }
  }

  lemma {:induction false} ValueMoves(left: Lhs, x: nat, c: Const, len: nat)
    requires left.Binop? && Movable(left.op) && x < Pow2(left.len)
    requires left.op == LShift ==> Shl(x, left.right) < Pow2(left.len)
    requires EnoughFor(left.op, left.right, Value(c), len) && CanTransfer(left.op, left.right, Value(c)) == Yes
    requires TransferOne(left.op, left.right, Value(c), len).Some?
    ensures var y, m, y' := LhsValue(left, x), TransferOne(left.op, left.right, Value(c), len).value, LhsValue(HandledLhs(left), x);
      m.Value? && (y == c.value <==> y' == m.c.value) && (left.op != XorOp ==> (y < c.value <==> y' < m.c.value))
  {
    hide LhsValue;
    hide Simplified;
    hide Enough;
    ConstMoves(left, x, c, len);
  }
}
