/** Exactly when moving an operation to the constant keeps a relation for every
    value of a width: the cases that binop_transfer does not tell apart. */
module BinopExact {
  import opened Lengths
  import opened Arith
  import opened Bits
  import opened PowerOfTwo
  import opened BinopFold
  import opened BinopTransfer

  /** The relation before and after the operation has moved, for all loaded values
      below 2^w. */
  ghost predicate KeptBelow(left: Lhs, op: RelOp, m: Member, m': Member, w: nat)
    requires left.Binop?
  {
    forall x: nat :: x < Pow2(w) ==> Holds(left, op, One(m), x) == Holds(HandledLhs(left), op, One(m'), x)
  }

  /* ---- Right shift ---- */

  /** A right shift may move to the other side of every relation for all values of
      the left side: the constant is evaluated again at the length that has grown,
      so that nothing of it is cut. */
  lemma {:induction false} RightShiftKept(op: RelOp, w: nat, k: nat, c: Const)
    requires ConstEvaluated(c, c.len)
    ensures var left, m := Binop(RShift, w, k), Value(c);
      var m' := TransferOne(RShift, k, m, Grown(RShift, k, m, c.len));
      m' == Some(Value(Const(Shl(c.value, k), c.len + k))) && KeptBelow(left, op, m, m'.value, w)
  {
    hide Pow2;
    hide NatBits;
    hide Shl;
    hide Shr;
    var left, m := Binop(RShift, w, k), Value(c);
    ShiftedConst(k, c, c.len + k);
    var m' := TransferOne(RShift, k, m, c.len + k).value;
    forall x: nat | x < Pow2(w)
      ensures Holds(left, op, One(m), x) == Holds(HandledLhs(left), op, One(m'), x)
    {
      ConstMoves(left, x, c, c.len + k);
    }
  }

  /* ---- Left shift ---- */

  /** The relation with every constant that the check of the low bits lets
      through. */
  ghost predicate LeftShiftKept(len: nat, k: nat, w: nat)
    requires k < len
  {
    forall c: nat :: c < Pow2(len) && LowBitsClear(c, k) ==>
      var m := Value(Const(c, len));
      var m' := TransferOne(LShift, k, m, len);
      m'.Some? && KeptBelow(Binop(LShift, len, k), Eq, m, m'.value, w)
  }

  /** A left shift may move for all loaded values of w bits and all constants that
      pass the check if and only if the shift loses no bit of them. */
  lemma {:induction false} LeftShiftExact(len: nat, k: nat, w: nat)
    requires k < len && w <= len
    ensures LeftShiftKept(len, k, w) <==> w + k <= len
  {
    BelowPower(k);
    Pow2Monotone(k, len);
    hide Pow2;
    hide Shl;
    hide Shr;
    var left := Binop(LShift, len, k);
    if w + k <= len {
      forall c: nat, x: nat | c < Pow2(len) && LowBitsClear(c, k) && x < Pow2(w)
        ensures var m := Value(Const(c, len));
          Holds(left, Eq, One(m), x) == Holds(HandledLhs(left), Eq, One(TransferOne(LShift, k, m, len).value), x)
      {
        LosslessShift(x, w, k, len);
        ConstMoves(left, x, Const(c, len), len);
      }
    } else {
      var x, m := Pow2(len - k), Value(Const(0, len));
      Pow2Strict(len - k, w);
      ShiftedOut(len, k);
      assert LowBitsClear(0, k);
      var m' := TransferOne(LShift, k, m, len).value;
      assert m' == Value(Const(0, len)) by { ZeroShift(len, k); }
      assert Holds(left, Eq, One(m), x) != Holds(HandledLhs(left), Eq, One(m'), x);
      assert !KeptBelow(left, Eq, m, m', w);
    }
  }

  lemma {:induction false} ZeroShift(len: nat, k: nat)
    ensures Shr(0 % Pow2(len), k) == 0
  {
    DivUnique(0, Pow2(k), 0, 0);
  }

  lemma {:induction false} LosslessShift(x: nat, w: nat, k: nat, len: nat)
    requires x < Pow2(w) && w + k <= len
    ensures x < Pow2(len) && Shl(x, k) < Pow2(len)
  {
    Pow2Add(k, w);
    Pow2Monotone(w + k, len);
    Pow2Monotone(w, len);
    hide Pow2;
    MulLess(Pow2(k), x, Pow2(w));
  }

  lemma {:induction false} ShiftedOut(len: nat, k: nat)
    requires k < len
    ensures Shl(Pow2(len - k), k) % Pow2(len) == 0 && Pow2(len - k) > 0
  {
    Pow2Add(k, len - k);
    hide Pow2;
    MultipleOf(Pow2(len), 1);
  }

  /* ---- Exclusive-or ---- */

  /** The place of the highest bit. */
  lemma {:induction false} HighestBit(v: nat) returns (b: nat)
    requires v > 0
    ensures Pow2(b) <= v < Pow2(b + 1)
  {
    if v == 1 {
      b := 0;
      assert Pow2(1) == 2 * Pow2(0);
    } else {
      var h := HighestBit(v / 2);
      b := h + 1;
      assert Pow2(b + 1) == 2 * Pow2(b) && Pow2(b) == 2 * Pow2(h);
    }
  }

  /** Exclusive-or on a block of low bits and the rest. */
  lemma {:induction false} XorBlock(x0: nat, x1: nat, y0: nat, y1: nat, k: nat)
    requires x0 < Pow2(k) && y0 < Pow2(k)
    ensures NatBits(Xor, x0 + Pow2(k) * x1, y0 + Pow2(k) * y1) == NatBits(Xor, x0, y0) + Pow2(k) * NatBits(Xor, x1, y1)
    ensures NatBits(Xor, x0, y0) < Pow2(k)
  {
    hide Bitwise;
    hide Pow2;
    MulLe(Pow2(k), 0, x1);
    MulLe(Pow2(k), 0, y1);
    BitwiseBlock(Xor, x0, x1, y0, y1, k);
  }

  lemma {:induction false} XorZero(x: nat)
    ensures NatBits(Xor, x, 0) == x && NatBits(Xor, 0, x) == x && NatBits(Xor, x, x) == 0
  {
    hide Bitwise;
    BitwiseConstant(Xor, x);
    BitwiseCommutes(Xor, x, 0);
    XorTwice(0, x, x);
  }

  /** Two numbers of b + 1 bits, the second with its highest bit set: the
      exclusive-or has that bit exactly if the first does not. */
  lemma {:induction false} XorHighest(c: nat, v: nat, b: nat)
    requires c < Pow2(b + 1) && Pow2(b) <= v < Pow2(b + 1)
    ensures NatBits(Xor, c, v) < Pow2(b) <==> Pow2(b) <= c
  {
    var q := Pow2(b);
    assert Pow2(b + 1) == 2 * q;
    hide Pow2;
    XorZero(1);
    XorZero(0);
    var one := if c >= q then 1 else 0;
    var lo := if c >= q then c - q else c;
    XorBlock(lo, one, v - q, 1, b);
    if c >= q {
      assert lo + q * 1 == c;
    } else {
      assert lo + q * 0 == c;
    }
    assert v - q + q * 1 == v;
  }

  /** A number as its low bits and the rest. */
  lemma {:induction false} Split(c: nat, k: nat)
    ensures 0 <= Pow2(k) * Shr(c, k) <= c && c == c % Pow2(k) + Pow2(k) * Shr(c, k)
  {
    hide Pow2;
    SplitBy(c, Pow2(k));
  }

  /** With another constant than zero, some value is ordered differently. */
  lemma {:induction false} XorOrderWitness(v: nat, c: nat, len: nat) returns (x: nat)
    requires 0 < v < Pow2(len) && c < Pow2(len)
    ensures x < Pow2(len) && (NatBits(Xor, x, v) < c) != (x < NatBits(Xor, c, v))
  {
    hide NatBits;
    hide Pow2;
    hide Shr;
    var b := HighestBit(v);
    var hi, c0 := Shr(c, b + 1), c % Pow2(b + 1);
    var top := Pow2(b + 1) * hi;
    Split(c, b + 1);
    LowXor(c0, hi, v, b + 1);
    LowXor(0, hi, v, b + 1);
    LowXor(v, hi, v, b + 1);
    XorZero(v);
    XorHighest(c0, v, b);
    if Pow2(b) <= c0 {
      x := v + top;
      XorBelow(top, v, len);
    } else {
      x := top;
    }
  }

  lemma {:induction false} LowXor(x: nat, hi: nat, v: nat, k: nat)
    requires x < Pow2(k) && v < Pow2(k)
    ensures 0 <= Pow2(k) * hi
    ensures NatBits(Xor, x + Pow2(k) * hi, v) == NatBits(Xor, x, v) + Pow2(k) * hi
  {
    hide NatBits;
    hide Pow2;
    MulLe(Pow2(k), 0, hi);
    XorBlock(x, hi, v, 0, k);
    XorZero(hi);
    assert v + Pow2(k) * 0 == v;
  }

  /** An exclusive-or may move to the other side of an order relation, any of the
      four, for all values of the width if and only if it changes nothing. */
  lemma {:induction false} XorOrderExact(op: RelOp, len: nat, v: nat, c: nat)
    requires op == Lt || op == Gt || op == Lte || op == Gte
    requires 0 < len && v < Pow2(len) && c < Pow2(len)
    ensures var left, m := Binop(XorOp, len, v), Value(Const(c, len));
      TransferOne(XorOp, v, m, len).Some? &&
      (KeptBelow(left, op, m, TransferOne(XorOp, v, m, len).value, len) <==> v == 0)
  {
    hide NatBits;
    hide Pow2;
    var left, m := Binop(XorOp, len, v), Value(Const(c, len));
    var m' := TransferOne(XorOp, v, m, len).value;
    XorBelow(c, v, len);
    if v == 0 {
      forall x: nat | x < Pow2(len)
        ensures Holds(left, op, One(m), x) == Holds(HandledLhs(left), op, One(m'), x)
      {
        XorZero(x);
        XorZero(c);
      }
    } else {
      var x := XorOrderWitness(v, c, len);
      XorTwice(x, v, c);
      assert Holds(left, op, One(m), x) != Holds(HandledLhs(left), op, One(m'), x);
    }
  }

  /* ---- Exclusive-or and ranges ---- */

  predicate RangeKeptAt(a: nat, b: nat, v: nat, x: nat)
  {
    (a <= NatBits(Xor, x, v) <= b) == (NatBits(Xor, a, v) <= x <= NatBits(Xor, b, v))
  }

  /** The constant only touches bits above those in which the ends differ. */
  lemma {:induction false} RangeKept(a: nat, b: nat, v: nat, m: nat, x: nat)
    requires Shr(a, m) == Shr(b, m) && v % Pow2(m) == 0
    ensures RangeKeptAt(a, b, v, x)
  {
    hide NatBits;
    hide Pow2;
    hide Shr;
    var h, w, y := Shr(a, m), Shr(v, m), Shr(x, m);
    Split(a, m);
    Split(b, m);
    Split(v, m);
    Split(x, m);
    HighXor(a % Pow2(m), h, w, m);
    HighXor(b % Pow2(m), h, w, m);
    HighXor(x % Pow2(m), y, w, m);
    XorTwice(y, w, h);
    BlockOrder(Pow2(m), NatBits(Xor, y, w), h);
    BlockOrder(Pow2(m), y, NatBits(Xor, h, w));
  }

  lemma {:induction false} HighXor(x0: nat, x1: nat, w: nat, k: nat)
    requires x0 < Pow2(k)
    ensures 0 <= Pow2(k) * x1 && 0 <= Pow2(k) * w
    ensures NatBits(Xor, x0 + Pow2(k) * x1, Pow2(k) * w) == x0 + Pow2(k) * NatBits(Xor, x1, w)
  {
    hide NatBits;
    hide Pow2;
    MulLe(Pow2(k), 0, x1);
    MulLe(Pow2(k), 0, w);
    XorBlock(x0, x1, 0, w, k);
    XorZero(x0);
  }

  /** Blocks of a size: different ones do not overlap. */
  lemma {:induction false} BlockOrder(p: nat, x: nat, y: nat)
    requires 0 < p
    ensures x < y ==> p * x + p <= p * y
    ensures y < x ==> p * y + p <= p * x
  {
    if x < y {
      MulLe(p, x + 1, y);
    } else if y < x {
      MulLe(p, y + 1, x);
    }
  }

  /** Exclusive-or on the lowest bit and the rest. */
  lemma {:induction false} XorHalf(x: nat, y: nat)
    ensures NatBits(Xor, x, y) == OnBits(Xor, x % 2, y % 2) + 2 * NatBits(Xor, x / 2, y / 2)
  {
    hide Bitwise;
    BitwiseUnfold(Xor, x, y);
  }

  lemma {:induction false} XorSplit(x: nat, v: nat, k: nat)
    ensures NatBits(Xor, x % Pow2(k), v % Pow2(k)) < Pow2(k)
    ensures NatBits(Xor, x, v) ==
      NatBits(Xor, x % Pow2(k), v % Pow2(k)) + Pow2(k) * NatBits(Xor, Shr(x, k), Shr(v, k))
  {
    hide NatBits;
    hide Pow2;
    hide Shr;
    Split(x, k);
    Split(v, k);
    XorBlock(x % Pow2(k), Shr(x, k), v % Pow2(k), Shr(v, k), k);
  }

  /** Neighbouring halves of a block, of which the constant changes the order. */
  lemma {:induction false} OddSwaps(h: nat, w: nat)
    requires w % 2 == 1
    ensures NatBits(Xor, 2 * h + 1, w) < NatBits(Xor, 2 * h, w)
  {
    hide NatBits;
    XorHalf(2 * h, w);
    XorHalf(2 * h + 1, w);
  }

  lemma {:induction false} EvenKeeps(h: nat, w: nat)
    requires w % 2 == 0
    ensures NatBits(Xor, 2 * h + 1, w) == NatBits(Xor, 2 * h, w) + 1
  {
    hide NatBits;
    XorHalf(2 * h, w);
    XorHalf(2 * h + 1, w);
  }

  lemma {:induction false} SwappedEnds(a: nat, b: nat, v: nat, k: nat)
    requires Shr(a, k) % 2 == 0 && Shr(b, k) == Shr(a, k) + 1 && Shr(v, k) % 2 == 1
    ensures NatBits(Xor, b, v) < NatBits(Xor, a, v)
  {
    hide NatBits;
    hide Pow2;
    hide Shr;
    XorSplit(a, v, k);
    XorSplit(b, v, k);
    OddSwaps(Shr(a, k) / 2, Shr(v, k));
    BlockOrder(Pow2(k), NatBits(Xor, Shr(b, k), Shr(v, k)), NatBits(Xor, Shr(a, k), Shr(v, k)));
  }

  /** The lower half of the range and a value of it, bits above k and bits below. */
  lemma {:induction false} LowerHalf(a: nat, b: nat, v: nat, y: nat, k: nat)
    requires y < Pow2(k) && Shr(a, k) % 2 == 0 && Shr(b, k) == Shr(a, k) + 1 && Shr(v, k) % 2 == 0
    ensures var p, xh := Pow2(k), NatBits(Xor, Shr(a, k), Shr(v, k));
      && NatBits(Xor, y + p * xh, v) == NatBits(Xor, y, v % p) + p * Shr(a, k)
      && NatBits(Xor, a, v) == NatBits(Xor, a % p, v % p) + p * xh
      && NatBits(Xor, b, v) >= p * xh + p && NatBits(Xor, y, v % p) < p
  {
    hide NatBits;
    hide Pow2;
    hide Shr;
    var p, ah, vh := Pow2(k), Shr(a, k), Shr(v, k);
    var xh := NatBits(Xor, ah, vh);
    XorTwice(ah, vh, xh);
    Split(v, k);
    XorBlock(y, xh, v % p, vh, k);
    XorSplit(a, v, k);
    XorSplit(b, v, k);
    EvenKeeps(ah / 2, vh);
    BlockOrder(p, xh, xh + 1);
  }

  /** The values of the lower half that lie in the range are other ones. */
  lemma {:induction false} ShiftedEnd(a: nat, b: nat, v: nat, k: nat) returns (x: nat)
    requires Shr(a, k) % 2 == 0 && Shr(b, k) == Shr(a, k) + 1 && Shr(v, k) % 2 == 0
    requires v % Pow2(k) != 0
    ensures NatBits(Xor, x, v) <= b && !RangeKeptAt(a, b, v, x)
  {
    hide NatBits;
    hide Pow2;
    hide Shr;
    var p, ah, xh := Pow2(k), Shr(a, k), NatBits(Xor, Shr(a, k), Shr(v, k));
    var y := XorOrderWitness(v % p, a % p, k);
    MulLe(p, 0, xh);
    x := y + p * xh;
    LowerHalf(a, b, v, y, k);
    Split(a, k);
    Split(b, k);
    BlockOrder(p, ah, ah + 1);
  }

  lemma {:induction false} HalfBlock(x: nat, m: nat)
    requires m > 0
    ensures Shr(x, m) == Shr(x, m - 1) / 2
    ensures x % Pow2(m) == x % Pow2(m - 1) + Pow2(m - 1) * (Shr(x, m - 1) % 2)
  {
    var p := Pow2(m - 1);
    assert Pow2(m) == 2 * p;
    hide Pow2;
    DivDiv(x, p, 2);
    SplitBy(x, p);
    var h := x / p;
    Dist(p, h % 2, 2 * (h / 2));
    Assoc(p, 2, h / 2);
    assert h == h % 2 + 2 * (h / 2);
    MulLe(p, 0, h % 2);
    MulLe(p, h % 2, 1);
    DivUnique(x, 2 * p, h / 2, x % p + p * (h % 2));
  }

  /** m is the number of low bits in which the ends of the range differ. */
  predicate DifferBelow(a: nat, b: nat, m: nat)
  {
    Shr(a, m) == Shr(b, m) && (m > 0 ==> Shr(a, m - 1) != Shr(b, m - 1))
  }

  lemma {:induction false} RangeBroken(a: nat, b: nat, v: nat, m: nat, len: nat) returns (x: nat)
    requires a <= b < Pow2(len) && v < Pow2(len) && m > 0 && DifferBelow(a, b, m) && v % Pow2(m) != 0
    ensures x < Pow2(len) && !RangeKeptAt(a, b, v, x)
  {
    hide NatBits;
    hide Pow2;
    hide Shr;
    HalfBlock(a, m);
    HalfBlock(b, m);
    HalfBlock(v, m);
    ShrOrder(a, b, m - 1);
    if Shr(v, m - 1) % 2 == 1 {
      x := NatBits(Xor, a, v);
      XorTwice(a, v, x);
      SwappedEnds(a, b, v, m - 1);
      XorBelow(a, v, len);
    } else {
      x := ShiftedEnd(a, b, v, m - 1);
      XorTwice(x, v, NatBits(Xor, x, v));
      XorBelow(NatBits(Xor, x, v), v, len);
    }
  }

  lemma {:induction false} ShrOrder(a: nat, b: nat, k: nat)
    requires a <= b
    ensures Shr(a, k) <= Shr(b, k)
  {
    var p := Pow2(k);
    hide Pow2;
    SplitBy(a, p);
    SplitBy(b, p);
    if a / p > b / p {
      BlockOrder(p, b / p, a / p);
    }
  }

  /** An exclusive-or may move to the ends of a range for all values of the width
      if and only if it only touches bits above those in which the ends differ. */
  lemma {:induction false} XorRangeExact(len: nat, v: nat, a: nat, b: nat, m: nat)
    requires a <= b < Pow2(len) && v < Pow2(len) && DifferBelow(a, b, m)
    ensures var left, r := Binop(XorOp, len, v), Range(Const(a, len), Const(b, len));
      KeptBelow(left, Eq, r, TransferOne(XorOp, v, r, len).value, len) <==> v % Pow2(m) == 0
  {
    hide NatBits;
    hide Pow2;
    hide Shr;
    var left, r := Binop(XorOp, len, v), Range(Const(a, len), Const(b, len));
    var r' := TransferOne(XorOp, v, r, len).value;
    XorBelow(a, v, len);
    XorBelow(b, v, len);
    if v % Pow2(m) == 0 {
      forall x: nat | x < Pow2(len)
        ensures Holds(left, Eq, One(r), x) == Holds(HandledLhs(left), Eq, One(r'), x)
      {
        RangeKept(a, b, v, m, x);
      }
    } else {
      ModOne(v);
      var x := RangeBroken(a, b, v, m, len);
      assert Holds(left, Eq, One(r), x) != Holds(HandledLhs(left), Eq, One(r'), x);
    }
  }

  lemma {:induction false} ModOne(v: nat)
    ensures v % Pow2(0) == 0
  {
  }
}
