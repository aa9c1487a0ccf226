/** Bitwise operations on unbounded integers in two's complement, and their
    meaning bit by bit. */
module Bits {
  import opened Arith
  import opened PowerOfTwo

  datatype BitOp = And | Or | Xor

  /** The operation on single bits. */
  function OnBits(op: BitOp, a: int, b: int): int
  {
    match op
    case And => if a == 1 && b == 1 then 1 else 0
    case Or => if a == 1 || b == 1 then 1 else 0
    case Xor => if a != b then 1 else 0
  }

  /** The number of steps after which only sign bits are left. */
  function Spread(x: int): nat
  {
    if x < 0 then -x - 1 else x
  }

  function Bitwise(op: BitOp, x: int, y: int): int
    decreases Spread(x) + Spread(y)
  {
    if -1 <= x <= 0 && -1 <= y <= 0 then -OnBits(op, x % 2, y % 2)
    else OnBits(op, x % 2, y % 2) + 2 * Bitwise(op, x / 2, y / 2)
  }

  /** The operation on numbers that are not negative. */
  function NatBits(op: BitOp, x: nat, y: nat): (z: nat)
  {
    BitwiseSign(op, x, y);
    Bitwise(op, x, y)
  }

  /** Bit i of x, sign bits included. */
  function TestBit(x: int, i: nat): int
  {
    (x / Pow2(i)) % 2
  }

  /** mpz_scan1 from bit 0 on a number that is not zero. */
  function LowestBit(v: nat): nat
    requires v > 0
  {
    if v % 2 == 1 then 0 else 1 + LowestBit(v / 2)
  }

  /** The defining equation also holds where only sign bits are left. */
  lemma {:induction false} BitwiseUnfold(op: BitOp, x: int, y: int)
    ensures Bitwise(op, x, y) == OnBits(op, x % 2, y % 2) + 2 * Bitwise(op, x / 2, y / 2)
  {
  }

  lemma {:induction false} TestBitNext(x: int, i: nat)
    ensures TestBit(x, i + 1) == TestBit(x / 2, i)
  {
    DivDiv(x, 2, Pow2(i));
  }

  /** Dividing twice is dividing by the product. */
  lemma {:induction false} DivDiv(x: int, a: int, b: int)
    requires 0 < a && 0 < b
    ensures 0 < a * b && x / (a * b) == (x / a) / b
  {
    var q, r := x / a, x % a;
    var q', r' := q / b, q % b;
    MulLe(a, 1, b);
    MulLe(a, r', b - 1);
    MulLe(a, 0, r');
    assert x == q' * (a * b) + (a * r' + r) by {
      Dist(a, b * q', r'); Assoc(a, b, q'); Assoc(q', a, b); Assoc(a, q', b);
    }
    DivUnique(x, a * b, q', a * r' + r);
  }

  lemma {:induction false} TestBitZero(x: int)
    ensures TestBit(x, 0) == x % 2
  {
  }

  lemma {:induction false} HalfOfSum(lo: int, m: int)
    ensures (lo + 2 * m) % 2 == lo % 2 && (lo + 2 * m) / 2 == lo / 2 + m
  {
  }

  /** What the operation means: it acts on every bit separately. */
  lemma {:induction false} BitwiseTestBit(op: BitOp, x: int, y: int, i: nat)
    ensures TestBit(Bitwise(op, x, y), i) == OnBits(op, TestBit(x, i), TestBit(y, i))
    decreases i
  {
    hide Bitwise;
    hide TestBit;
    BitwiseUnfold(op, x, y);
    var z, h := Bitwise(op, x, y), Bitwise(op, x / 2, y / 2);
    HalfOfSum(OnBits(op, x % 2, y % 2), h);
    if i == 0 {
      TestBitZero(x);
      TestBitZero(y);
      TestBitZero(z);
    } else {
      TestBitNext(x, i - 1);
      TestBitNext(y, i - 1);
      TestBitNext(z, i - 1);
      BitwiseTestBit(op, x / 2, y / 2, i - 1);
    }
  }

  /** Integers with the same bits are equal. */
  lemma {:induction false} SameBits(x: int, y: int)
    requires forall i: nat :: TestBit(x, i) == TestBit(y, i)
    ensures x == y
    decreases Spread(x) + Spread(y)
  {
    assert TestBit(x, 0) == TestBit(y, 0);
    if !(-1 <= x <= 0 && -1 <= y <= 0) {
      forall i: nat
        ensures TestBit(x / 2, i) == TestBit(y / 2, i)
      {
        TestBitNext(x, i);
        TestBitNext(y, i);
        assert TestBit(x, i + 1) == TestBit(y, i + 1);
      }
      SameBits(x / 2, y / 2);
    }
  }

  /* ---- Working on a block of k low bits and the rest ---- */

  lemma {:induction false} HalfOfBlock(lo: int, hi: int, p: int)
    ensures (lo + (2 * p) * hi) % 2 == lo % 2
    ensures (lo + (2 * p) * hi) / 2 == lo / 2 + p * hi
  {
    Assoc(2, p, hi);
    HalfOfSum(lo, p * hi);
  }

  lemma {:induction false} BlockSum(b: int, lo: int, p: int, hi: int)
    ensures b + 2 * (lo + p * hi) == (b + 2 * lo) + (2 * p) * hi
  {
    Assoc(2, p, hi);
  }

  lemma {:induction false} BlockStep(op: BitOp, x0: int, x1: int, y0: int, y1: int, p: int)
    requires var lo := Bitwise(op, x0 / 2, y0 / 2);
      0 <= lo < p && Bitwise(op, x0 / 2 + p * x1, y0 / 2 + p * y1) == lo + p * Bitwise(op, x1, y1)
    ensures Bitwise(op, x0 + (2 * p) * x1, y0 + (2 * p) * y1) == Bitwise(op, x0, y0) + (2 * p) * Bitwise(op, x1, y1)
    ensures 0 <= Bitwise(op, x0, y0) < 2 * p
  {
    hide Bitwise;
    HalfOfBlock(x0, x1, p);
    HalfOfBlock(y0, y1, p);
    BitwiseUnfold(op, x0 + (2 * p) * x1, y0 + (2 * p) * y1);
    BitwiseUnfold(op, x0, y0);
    BlockSum(OnBits(op, x0 % 2, y0 % 2), Bitwise(op, x0 / 2, y0 / 2), p, Bitwise(op, x1, y1));
  }

  lemma {:induction false} BlockNone(op: BitOp, x: int, y: int, p: nat)
    requires p == 1
    ensures Bitwise(op, 0 + p * x, 0 + p * y) == Bitwise(op, 0, 0) + p * Bitwise(op, x, y)
    ensures Bitwise(op, 0, 0) == 0
  {
  }

  lemma {:induction false} HalfBelow(x: int, p: int)
    requires 0 <= x < 2 * p
    ensures 0 <= x / 2 < p
  {
  }

  lemma {:induction false} BitwiseBlock(op: BitOp, x0: int, x1: int, y0: int, y1: int, k: nat)
    requires 0 <= x0 < Pow2(k) && 0 <= y0 < Pow2(k)
    ensures Bitwise(op, x0 + Pow2(k) * x1, y0 + Pow2(k) * y1) == Bitwise(op, x0, y0) + Pow2(k) * Bitwise(op, x1, y1)
    ensures 0 <= Bitwise(op, x0, y0) < Pow2(k)
  {
    if k == 0 {
      PowZero();
      BlockNone(op, x1, y1, Pow2(0));
    } else {
      hide Bitwise;
      var p := Pow2(k - 1);
      assert Pow2(k) == 2 * p;
      hide Pow2;
      HalfBelow(x0, p);
      HalfBelow(y0, p);
      BitwiseBlock(op, x0 / 2, x1, y0 / 2, y1, k - 1);
      BlockStep(op, x0, x1, y0, y1, p);
    }
  }

  /** Operands that are all zeros or all ones. */
  lemma {:induction false} BitwiseConstant(op: BitOp, x: int)
    ensures Bitwise(op, x, 0) == match op case And => 0 case Or => x case Xor => x
    ensures Bitwise(op, x, -1) == match op case And => x case Or => -1 case Xor => -1 - x
    decreases Spread(x)
  {
    if !(-1 <= x <= 0) {
      BitwiseConstant(op, x / 2);
    }
  }

  lemma {:induction false} BitwiseCommutes(op: BitOp, x: int, y: int)
    ensures Bitwise(op, x, y) == Bitwise(op, y, x)
    decreases Spread(x) + Spread(y)
  {
    if !(-1 <= x <= 0 && -1 <= y <= 0) {
      BitwiseCommutes(op, x / 2, y / 2);
    }
  }

  /** The sign of the result is the operation on the signs. */
  lemma {:induction false} BitwiseSign(op: BitOp, x: int, y: int)
    ensures (Bitwise(op, x, y) < 0) == (OnBits(op, if x < 0 then 1 else 0, if y < 0 then 1 else 0) == 1)
    decreases Spread(x) + Spread(y)
  {
    if !(-1 <= x <= 0 && -1 <= y <= 0) {
      BitwiseSign(op, x / 2, y / 2);
    }
  }

  lemma {:induction false} ShrTwice(x: nat, a: nat, b: nat)
    ensures Shr(x, a + b) == Shr(Shr(x, a), b)
  {
    Pow2Add(a, b);
    hide Pow2;
    DivDiv(x, Pow2(a), Pow2(b));
  }
}
