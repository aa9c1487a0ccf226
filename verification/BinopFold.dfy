/** Folding a chain of bit operations with constants into one mask and one
    exclusive-or, as netlink_gen_bitwise does (src/netlink_linearize.c). */
module BinopFold {
  import opened Arith
  import opened Bits
  import opened PowerOfTwo

  /** mpz_bitmask: the number whose width low bits are set. */
  function Ones(width: nat): (m: nat)
  {
    Pow2(width) - 1
  }

  /** What is loaded, and one operation with a constant after the other. */
  datatype Step = Step(op: BitOp, value: nat)

  /** The operations applied one by one. */
  function Nested(x: int, steps: seq<Step>): int
  {
    if steps == [] then x
    else Bitwise(steps[|steps| - 1].op, Nested(x, steps[..|steps| - 1]), steps[|steps| - 1].value)
  }

  /** The generated instruction. */
  function MaskXor(x: int, mask: int, xor: int): int
  {
    Bitwise(Xor, Bitwise(And, x, mask), xor)
  }

  /** The bits of the old value that an operation keeps, and those it flips. */
  function Keep(s: Step, width: nat): int
  {
    match s.op
    case And => s.value
    case Or => -1 - s.value
    case Xor => Ones(width)
  }

  function Flip(s: Step): nat
  {
    match s.op
    case And => 0
    case Or => s.value
    case Xor => s.value
  }

  /** combine_binop. */
  function CombineMask(mask: int, keep: int): int
  {
    Bitwise(And, mask, keep)
  }

  function CombineXor(xor: int, keep: int, flip: int): int
  {
    Bitwise(Xor, flip, Bitwise(And, xor, keep))
  }

  /** The pair that the loop has computed after these operations. */
  function Mask(steps: seq<Step>, width: nat): int
  {
    if steps == [] then Ones(width)
    else CombineMask(Mask(steps[..|steps| - 1], width), Keep(steps[|steps| - 1], width))
  }

  function Flips(steps: seq<Step>, width: nat): int
  {
    if steps == [] then 0
    else
      var s := steps[|steps| - 1];
      CombineXor(Flips(steps[..|steps| - 1], width), Keep(s, width), Flip(s))
  }

  /** A mask may be wider than the chain; the other constants have its width. */
  predicate ConstantFits(s: Step, width: nat)
  {
    s.op == And || s.value < Pow2(width)
  }

  predicate ConstantsFit(steps: seq<Step>, width: nat)
  {
    forall i :: 0 <= i < |steps| ==> ConstantFits(steps[i], width)
  }

  /* ---- Bits of the constants ---- */

  lemma {:induction false} AllOnes(i: nat)
    ensures TestBit(-1, i) == 1
  {
    if i == 0 {
    } else {
      TestBitNext(-1, i - 1);
      AllOnes(i - 1);
    }
  }

  lemma {:induction false} Complement(v: int, i: nat)
    ensures TestBit(-1 - v, i) == 1 - TestBit(v, i)
  {
    BitwiseConstant(Xor, v);
    BitwiseTestBit(Xor, v, -1, i);
    AllOnes(i);
  }

  lemma {:induction false} OnesBit(width: nat, i: nat)
    ensures TestBit(Ones(width), i) == if i < width then 1 else 0
  {
    if i == 0 {
      assert width > 0 ==> Pow2(width) == 2 * Pow2(width - 1);
    } else {
      TestBitNext(Ones(width), i - 1);
      if width == 0 {
        OnesBit(0, i - 1);
      } else {
        OnesBit(width - 1, i - 1);
        assert Ones(width) / 2 == Ones(width - 1);
      }
    }
  }

  /** A number below 2^width has no bit at or above width. */
  lemma {:induction false} HighBit(x: int, width: nat, i: nat)
    requires 0 <= x < Pow2(width) && width <= i
    ensures TestBit(x, i) == 0
  {
    Pow2Monotone(width, i);
    hide Pow2;
    DivUnique(x, Pow2(i), 0, x);
  }

  /** A non-negative number without such bits is below 2^width. */
  lemma {:induction false} NoHighBits(x: int, width: nat)
    requires 0 <= x && forall i: nat :: width <= i ==> TestBit(x, i) == 0
    ensures x < Pow2(width)
  {
    hide Bitwise;
    var y := Bitwise(And, x, Ones(width));
    forall i: nat
      ensures TestBit(x, i) == TestBit(y, i)
    {
      BitwiseTestBit(And, x, Ones(width), i);
      OnesBit(width, i);
      BitRange(x, i);
      if width <= i {
        assert TestBit(x, i) == 0;
      }
    }
    SameBits(x, y);
    AndBelow(x, width);
  }

  lemma {:induction false} BitRange(x: int, i: nat)
    ensures 0 <= TestBit(x, i) <= 1
  {
  }

  lemma {:induction false} AndBelow(x: int, width: nat)
    ensures 0 <= Bitwise(And, x, Ones(width)) < Pow2(width)
  {
    hide Bitwise;
    var p := Pow2(width);
    var lo, hi := x % p, x / p;
    hide Pow2;
    BitwiseBlock(And, lo, hi, Ones(width), 0, width);
    BitwiseConstant(And, hi);
    assert lo + p * hi == x && Ones(width) + p * 0 == Ones(width);
    assert p * Bitwise(And, hi, 0) == 0;
  }

  /** Bit operations keep numbers below 2^width. */
  lemma {:induction false} BitwiseBelow(op: BitOp, x: int, y: int, width: nat)
    requires 0 <= x < Pow2(width) && 0 <= y < Pow2(width)
    ensures 0 <= Bitwise(op, x, y) < Pow2(width)
  {
    hide Bitwise;
    hide Pow2;
    BitwiseBlock(op, x, 0, y, 0, width);
  }

  lemma {:induction false} AndFits(x: int, y: int, width: nat)
    requires 0 <= x < Pow2(width)
    ensures 0 <= Bitwise(And, x, y) < Pow2(width)
  {
    hide Bitwise;
    BitwiseSign(And, x, y);
    forall i: nat | width <= i
      ensures TestBit(Bitwise(And, x, y), i) == 0
    {
      BitwiseTestBit(And, x, y, i);
      HighBit(x, width, i);
    }
    NoHighBits(Bitwise(And, x, y), width);
  }

  /* ---- One operation ---- */

  lemma {:induction false} CombineBit(s: Step, x: int, mask: int, xor: int, width: nat, i: nat)
    requires ConstantFits(s, width) && 0 <= xor < Pow2(width) && 0 <= x < Pow2(width)
    ensures TestBit(Bitwise(s.op, MaskXor(x, mask, xor), s.value), i)
      == TestBit(MaskXor(x, CombineMask(mask, Keep(s, width)), CombineXor(xor, Keep(s, width), Flip(s))), i)
  {
    hide Bitwise;
    hide TestBit;
    var keep, flip := Keep(s, width), Flip(s);
    BitwiseTestBit(s.op, MaskXor(x, mask, xor), s.value, i);
    MaskXorBit(x, mask, xor, i);
    MaskXorBit(x, CombineMask(mask, keep), CombineXor(xor, keep, flip), i);
    BitwiseTestBit(And, mask, keep, i);
    BitwiseTestBit(Xor, flip, Bitwise(And, xor, keep), i);
    BitwiseTestBit(And, xor, keep, i);
    KeepFlipBit(s, width, i);
    IsBit(x, i);
    IsBit(mask, i);
    IsBit(xor, i);
    IsBit(s.value, i);
    if width <= i {
      HighBit(x, width, i);
      HighBit(xor, width, i);
      if s.op != And {
        HighBit(s.value, width, i);
      }
    }
  }

  lemma {:induction false} IsBit(x: int, i: nat)
    ensures TestBit(x, i) == 0 || TestBit(x, i) == 1
  {
  }

  lemma {:induction false} MaskXorBit(x: int, mask: int, xor: int, i: nat)
    ensures TestBit(MaskXor(x, mask, xor), i)
      == OnBits(Xor, OnBits(And, TestBit(x, i), TestBit(mask, i)), TestBit(xor, i))
  {
    hide Bitwise;
    hide TestBit;
    BitwiseTestBit(Xor, Bitwise(And, x, mask), xor, i);
    BitwiseTestBit(And, x, mask, i);
  }

  lemma {:induction false} KeepFlipBit(s: Step, width: nat, i: nat)
    ensures TestBit(Keep(s, width), i) ==
      match s.op
      case And => TestBit(s.value, i)
      case Or => 1 - TestBit(s.value, i)
      case Xor => if i < width then 1 else 0
    ensures TestBit(Flip(s), i) == if s.op == And then 0 else TestBit(s.value, i)
  {
    Complement(s.value, i);
    OnesBit(width, i);
    HighBit(0, 0, i);
  }

  lemma {:induction false} CombineStep(s: Step, x: int, mask: int, xor: int, width: nat)
    requires ConstantFits(s, width) && 0 <= mask < Pow2(width) && 0 <= xor < Pow2(width) && 0 <= x < Pow2(width)
    ensures var keep := Keep(s, width);
      Bitwise(s.op, MaskXor(x, mask, xor), s.value)
      == MaskXor(x, CombineMask(mask, keep), CombineXor(xor, keep, Flip(s)))
    ensures 0 <= CombineMask(mask, Keep(s, width)) < Pow2(width)
    ensures 0 <= CombineXor(xor, Keep(s, width), Flip(s)) < Pow2(width)
  {
    hide Bitwise;
    var keep, flip := Keep(s, width), Flip(s);
    forall i: nat
      ensures TestBit(Bitwise(s.op, MaskXor(x, mask, xor), s.value), i)
        == TestBit(MaskXor(x, CombineMask(mask, keep), CombineXor(xor, keep, flip)), i)
    {
      CombineBit(s, x, mask, xor, width, i);
    }
    SameBits(Bitwise(s.op, MaskXor(x, mask, xor), s.value),
      MaskXor(x, CombineMask(mask, keep), CombineXor(xor, keep, flip)));
    AndFits(mask, keep, width);
    AndFits(xor, keep, width);
    PowPositive(width);
    BitwiseBelow(Xor, flip, Bitwise(And, xor, keep), width);
  }

  /* ---- The whole chain ---- */

  /** For every input of the width, the single mask and exclusive-or give what
      the operations give one after the other. */
  lemma {:induction false} FoldIsNested(x: int, steps: seq<Step>, width: nat)
    requires 0 <= x < Pow2(width) && ConstantsFit(steps, width)
    ensures MaskXor(x, Mask(steps, width), Flips(steps, width)) == Nested(x, steps)
    ensures 0 <= Mask(steps, width) < Pow2(width)
    ensures 0 <= Flips(steps, width) < Pow2(width)
    ensures 0 <= Nested(x, steps) < Pow2(width)
    decreases |steps|
  {
    hide Bitwise;
    if steps == [] {
      AndOnes(x, width);
      BitwiseConstant(Xor, x);
    } else {
      var n := |steps| - 1;
      FoldIsNested(x, steps[..n], width);
      CombineStep(steps[n], x, Mask(steps[..n], width), Flips(steps[..n], width), width);
      StepBelow(steps[n], Nested(x, steps[..n]), width);
    }
  }

  /** One operation keeps a number within the width. */
  lemma {:induction false} StepBelow(s: Step, x: nat, width: nat)
    requires ConstantFits(s, width) && x < Pow2(width)
    ensures 0 <= Bitwise(s.op, x, s.value) < Pow2(width)
  {
    hide Bitwise;
    if s.op == And {
      AndFits(x, s.value, width);
    } else {
      BitwiseBelow(s.op, x, s.value, width);
    }
  }

  lemma {:induction false} AndOnes(x: int, width: nat)
    requires 0 <= x < Pow2(width)
    ensures Bitwise(And, x, Ones(width)) == x
  {
    hide Bitwise;
    forall i: nat
      ensures TestBit(Bitwise(And, x, Ones(width)), i) == TestBit(x, i)
    {
      BitwiseTestBit(And, x, Ones(width), i);
      OnesBit(width, i);
      BitRange(x, i);
      if width <= i {
        HighBit(x, width, i);
      }
    }
    SameBits(Bitwise(And, x, Ones(width)), x);
  }

  lemma {:induction false} MaskBlock(lo: nat, hi: nat, k: nat, p: nat)
    requires lo < Pow2(k) && hi < Pow2(p)
    ensures Bitwise(And, lo + Pow2(k) * hi, Pow2(k) * Ones(p)) == Pow2(k) * hi
  {
    hide Bitwise;
    hide Pow2;
    BitwiseBlock(And, lo, hi, 0, Ones(p), k);
    BitwiseConstant(And, lo);
    AndOnes(hi, p);
  }

  lemma {:induction false} PowPositive(width: nat)
    ensures 0 < Pow2(width)
  {
  }

  /** Two exclusive-ors with the same number cancel. */
  lemma {:induction false} XorTwice(x: nat, v: nat, c: nat)
    ensures NatBits(Xor, x, v) == c <==> x == NatBits(Xor, c, v)
  {
    hide Bitwise;
    forall a: nat
      ensures NatBits(Xor, NatBits(Xor, a, v), v) == a
    {
      forall i: nat
        ensures TestBit(NatBits(Xor, NatBits(Xor, a, v), v), i) == TestBit(a, i)
      {
        BitwiseTestBit(Xor, a, v, i);
        BitwiseTestBit(Xor, NatBits(Xor, a, v), v, i);
        BitRange(a, i);
        BitRange(v, i);
      }
      SameBits(NatBits(Xor, NatBits(Xor, a, v), v), a);
    }
  }

  lemma {:induction false} XorFits(x: nat, y: nat, w: nat)
    requires x < Pow2(w) && y < Pow2(w)
    ensures NatBits(Xor, x, y) < Pow2(w)
  {
    BitwiseBelow(Xor, x, y, w);
  }

  /** A mask of low bits takes the remainder. */
  lemma {:induction false} LowBits(x: nat, k: nat)
    ensures Bitwise(And, x, Ones(k)) == x % Pow2(k)
  {
    hide Bitwise;
    hide Pow2;
    var p := Pow2(k);
    BitwiseBlock(And, x % p, x / p, Ones(k), 0, k);
    AndOnes(x % p, k);
    BitwiseConstant(And, x / p);
    assert x % p + p * (x / p) == x && Ones(k) + p * 0 == Ones(k);
  }

  /* ---- Inputs wider than the chain ---- */

  /** Of the bits above the width, those that all the masks let through. */
  function Kept(hi: nat, steps: seq<Step>, width: nat): nat
  {
    if steps == [] then hi
    else
      var rest, s := Kept(hi, steps[..|steps| - 1], width), steps[|steps| - 1];
      if s.op == And then NatBits(And, rest, Shr(s.value, width)) else rest
  }

  /** One operation on the bits below the width and on those above it. */
  lemma {:induction false} StepBlock(lo: nat, hi: nat, s: Step, width: nat)
    requires lo < Pow2(width) && ConstantFits(s, width)
    ensures Bitwise(s.op, lo + Pow2(width) * hi, s.value) == Bitwise(s.op, lo, s.value)
      + Pow2(width) * (if s.op == And then NatBits(And, hi, Shr(s.value, width)) else hi)
  {
    hide Bitwise;
    hide Pow2;
    var p := Pow2(width);
    SplitBy(s.value, p);
    BitwiseBlock(s.op, lo, hi, s.value % p, s.value / p, width);
    BitwiseBlock(s.op, lo, 0, s.value % p, s.value / p, width);
    if s.op == And {
      BitwiseCommutes(And, 0, s.value / p);
      BitwiseConstant(And, s.value / p);
    } else {
      DivUnique(s.value, p, 0, s.value);
      BitwiseConstant(s.op, hi);
      BitwiseConstant(s.op, 0);
    }
  }

  /** The operations work below the width and above it independently. */
  lemma {:induction false} NestedBlock(lo: nat, hi: nat, steps: seq<Step>, width: nat)
    requires lo < Pow2(width) && ConstantsFit(steps, width)
    ensures Nested(lo + Pow2(width) * hi, steps) == Nested(lo, steps) + Pow2(width) * Kept(hi, steps, width)
    decreases |steps|
  {
    hide Bitwise;
    hide Pow2;
    if steps != [] {
      var n := |steps| - 1;
      NestedBlock(lo, hi, steps[..n], width);
      FoldIsNested(lo, steps[..n], width);
      StepBlock(Nested(lo, steps[..n]), Kept(hi, steps[..n], width), steps[n], width);
    }
  }

  lemma {:induction false} MaskXorBlock(lo: nat, hi: nat, mask: nat, flips: nat, width: nat)
    requires lo < Pow2(width) && mask < Pow2(width) && flips < Pow2(width)
    ensures MaskXor(lo + Pow2(width) * hi, mask, flips) == MaskXor(lo, mask, flips)
  {
    hide Bitwise;
    hide Pow2;
    BitwiseBlock(And, lo, hi, mask, 0, width);
    BitwiseConstant(And, hi);
    assert mask + Pow2(width) * 0 == mask;
    assert Bitwise(And, lo, mask) + Pow2(width) * 0 == Bitwise(And, lo, mask);
  }

  /** Of any number the fold gives what the nested operations give below the width. */
  lemma {:induction false} FoldModulo(x: nat, steps: seq<Step>, width: nat)
    requires ConstantsFit(steps, width)
    ensures 0 <= Mask(steps, width) < Pow2(width) && 0 <= Flips(steps, width) < Pow2(width)
    ensures 0 <= Nested(x, steps)
    ensures MaskXor(x, Mask(steps, width), Flips(steps, width)) == Nested(x, steps) % Pow2(width)
    ensures Shr(Nested(x, steps), width) == Kept(Shr(x, width), steps, width)
  {
    hide Bitwise;
    hide Pow2;
    hide MaskXor;
    hide Mask;
    hide Flips;
    hide Nested;
    hide Kept;
    var p := Pow2(width);
    var lo, hi := x % p, x / p;
    SplitBy(x, p);
    FoldIsNested(lo, steps, width);
    NestedBlock(lo, hi, steps, width);
    MaskXorBlock(lo, hi, Mask(steps, width), Flips(steps, width), width);
    MulLe(p, 0, Kept(hi, steps, width));
    DivUnique(Nested(x, steps), p, Kept(hi, steps, width), Nested(lo, steps));
  }

  /** The fold is the nested operations on a number if and only if the masks let
      nothing of it through above the width. */
  lemma {:induction false} FoldExact(x: nat, steps: seq<Step>, width: nat)
    requires ConstantsFit(steps, width)
    ensures MaskXor(x, Mask(steps, width), Flips(steps, width)) == Nested(x, steps)
      <==> Kept(Shr(x, width), steps, width) == 0
  {
    hide Bitwise;
    hide Pow2;
    hide MaskXor;
    hide Mask;
    hide Flips;
    hide Nested;
    hide Kept;
    FoldModulo(x, steps, width);
    SplitBy(Nested(x, steps), Pow2(width));
    if Shr(Nested(x, steps), width) > 0 {
      MulLe(Pow2(width), 1, Shr(Nested(x, steps), width));
    }
  }

  predicate HasAnd(steps: seq<Step>)
  {
    exists i :: 0 <= i < |steps| && steps[i].op == And
  }

  /** With masks of the width: the number has the width, or there is a mask. */
  lemma {:induction false} KeptNarrow(hi: nat, steps: seq<Step>, width: nat)
    requires forall i :: 0 <= i < |steps| ==> steps[i].value < Pow2(width)
    ensures Kept(hi, steps, width) == 0 <==> hi == 0 || HasAnd(steps)
    decreases |steps|
  {
    hide Bitwise;
    hide Pow2;
    if steps != [] {
      var n := |steps| - 1;
      var rest := steps[..n];
      KeptNarrow(hi, rest, width);
      assert HasAnd(steps) <==> HasAnd(rest) || steps[n].op == And by {
        assert forall i :: 0 <= i < n ==> steps[i] == rest[i];
      }
      DivUnique(steps[n].value, Pow2(width), 0, steps[n].value);
      BitwiseConstant(And, Kept(hi, rest, width));
    }
  }

  /** At a wider input an exclusive-or loses the bits above the width. */
  lemma {:induction false} WiderInputLosesBits()
    ensures MaskXor(2, Mask([Step(Xor, 1)], 1), Flips([Step(Xor, 1)], 1)) != Nested(2, [Step(Xor, 1)])
  {
    var steps := [Step(Xor, 1)];
    assert steps[..0] == [];
    assert Pow2(1) == 2 * Pow2(0);
    assert Mask(steps, 1) == Bitwise(And, 1, 1) == 1;
    assert Flips(steps, 1) == Bitwise(Xor, 1, Bitwise(And, 0, 1)) == 1;
    assert Bitwise(And, 2, 1) == 0;
    assert Nested(2, []) == 2;
    assert Nested(2, steps) == Bitwise(Xor, 2, 1) == 3;
  }
}
