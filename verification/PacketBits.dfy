/** The bits of a packet, numbered from the first byte's highest bit, and the
    numbers that runs of them stand for. */
module PacketBits {
  import opened Arith
  import opened Bits
  import opened PowerOfTwo
  import opened Bytes
  import opened BinopFold

  function Bit(p: seq<Byte>, i: nat): (b: nat)
    requires i < 8 * |p|
    ensures b <= 1
  {
    (p[i / 8] / Pow2(7 - i % 8)) % 2
  }

  /** The number of n bits from bit i on, the first one highest. */
  function Field(p: seq<Byte>, i: nat, n: nat): (v: nat)
    requires i + n <= 8 * |p|
  {
    if n == 0 then 0 else 2 * Field(p, i, n - 1) + Bit(p, i + n - 1)
  }

  lemma {:induction false} FieldBound(p: seq<Byte>, i: nat, n: nat)
    requires i + n <= 8 * |p|
    ensures Field(p, i, n) < Pow2(n)
  {
    if n > 0 {
      FieldBound(p, i, n - 1);
    }
  }

  lemma {:induction false} FieldSplit(p: seq<Byte>, i: nat, m: nat, n: nat)
    requires i + m + n <= 8 * |p|
    ensures Field(p, i, m + n) == Field(p, i + m, n) + Pow2(n) * Field(p, i, m)
    decreases n
  {
    hide Bit;
    if n == 0 {
      assert Pow2(0) == 1;
    } else {
      FieldSplit(p, i, m, n - 1);
      assert Pow2(n) == 2 * Pow2(n - 1);
      hide Pow2;
      BlockSum(Bit(p, i + m + n - 1), Field(p, i + m, n - 1), Pow2(n - 1), Field(p, i, m));
    }
  }

  /** Two runs of bits with the same number have the same bits. */
  lemma {:induction false} FieldBits(p: seq<Byte>, p': seq<Byte>, i: nat, n: nat, k: nat)
    requires i + n <= 8 * |p| && |p'| == |p| && i <= k < i + n
    requires Field(p, i, n) == Field(p', i, n)
    ensures Bit(p, k) == Bit(p', k)
    decreases n
  {
    hide Bit;
    if k < i + n - 1 {
      FieldBits(p, p', i, n - 1, k);
    }
  }

  lemma {:induction false} BitOfByte(p: seq<Byte>, j: nat, k: nat)
    requires j < |p| && k < 8
    ensures Bit(p, 8 * j + k) == (p[j] / Pow2(7 - k)) % 2
  {
  }

  lemma {:induction false} HalvedTwice(x: nat, q: nat)
    requires 0 < q
    ensures 2 * (x / (2 * q)) + (x / q) % 2 == x / q
  {
    DivDiv(x, q, 2);
  }

  lemma {:induction false} ByteField(p: seq<Byte>, j: nat, k: nat)
    requires j < |p| && k <= 8
    ensures Field(p, 8 * j, k) == p[j] / Pow2(8 - k)
    decreases k
  {
    hide Bit;
    if k == 0 {
      BytePower();
    } else {
      ByteField(p, j, k - 1);
      BitOfByte(p, j, k - 1);
      assert Pow2(9 - k) == 2 * Pow2(8 - k);
      hide Pow2;
      HalvedTwice(p[j], Pow2(8 - k));
    }
  }

  /** Whole bytes in network order are a run of bits. */
  lemma {:induction false} BytesField(p: seq<Byte>, a: nat, n: nat)
    requires a + n <= |p|
    ensures Import(p[a..a + n], Big) == Field(p, 8 * a, 8 * n)
    decreases n
  {
    hide Field;
    hide Pow2;
    hide Import;
    if n == 0 {
      NoBytes(p[a..a]);
      assert Field(p, 8 * a, 0) == 0 by { NoBits(p, 8 * a); }
    } else {
      BytesField(p, a, n - 1);
      assert p[a..a + n] == p[a..a + n - 1] + [p[a + n - 1]];
      ImportSnoc(p[a..a + n - 1], p[a + n - 1]);
      FieldSplit(p, 8 * a, 8 * (n - 1), 8);
      LastByte(p, a + n - 1);
    }
  }

  lemma {:induction false} NoBits(p: seq<Byte>, i: nat)
    requires i <= 8 * |p|
    ensures Field(p, i, 0) == 0
  {
  }

  lemma {:induction false} NoBytes(s: seq<Byte>)
    requires s == []
    ensures Import(s, Big) == 0
  {
  }

  lemma {:induction false} LastByte(p: seq<Byte>, j: nat)
    requires j < |p|
    ensures Field(p, 8 * j, 8) == p[j] && Pow2(8) == 256
  {
    BytePower();
    ByteField(p, j, 8);
    assert Pow2(0) == 1;
  }

  lemma {:induction false} ImportSnoc(s: seq<Byte>, x: Byte)
    ensures Import(s + [x], Big) == x + 256 * Import(s, Big)
  {
    assert Reversed(s + [x]) == [x] + Reversed(s);
    assert ([x] + Reversed(s))[1..] == Reversed(s);
  }

  lemma {:induction false} BitsField(p: seq<Byte>, p': seq<Byte>, i: nat, n: nat)
    requires i + n <= 8 * |p| && |p'| == |p|
    requires forall k: nat :: i <= k < i + n ==> Bit(p, k) == Bit(p', k)
    ensures Field(p, i, n) == Field(p', i, n)
    decreases n
  {
    hide Bit;
    if n > 0 {
      BitsField(p, p', i, n - 1);
    }
  }

  /** Packets with the same bits are the same. */
  lemma {:induction false} SamePacket(p: seq<Byte>, p': seq<Byte>)
    requires |p'| == |p| && forall k: nat :: k < 8 * |p| ==> Bit(p, k) == Bit(p', k)
    ensures p == p'
  {
    hide Bit;
    hide Field;
    forall j | 0 <= j < |p|
      ensures p[j] == p'[j]
    {
      BitsField(p, p', 8 * j, 8);
      LastByte(p, j);
      LastByte(p', j);
    }
  }

  /* ---- Three parts of a number ---- */

  /** A low part of s bits, a middle part of n bits, and the rest. */
  function Parts(lo: nat, mid: nat, hi: nat, s: nat, n: nat): (v: nat)
  {
    MulLe(Pow2(n), 0, hi);
    MulLe(Pow2(s), 0, mid + Pow2(n) * hi);
    lo + Pow2(s) * (mid + Pow2(n) * hi)
  }

  lemma {:induction false} PartsBitwise(op: BitOp, x0: nat, x1: nat, x2: nat, y0: nat, y1: nat, y2: nat, s: nat, n: nat)
    requires x0 < Pow2(s) && y0 < Pow2(s) && x1 < Pow2(n) && y1 < Pow2(n)
    ensures Bitwise(op, x0, y0) >= 0 && Bitwise(op, x1, y1) >= 0 && Bitwise(op, x2, y2) >= 0
    ensures Bitwise(op, Parts(x0, x1, x2, s, n), Parts(y0, y1, y2, s, n))
      == Parts(Bitwise(op, x0, y0), Bitwise(op, x1, y1), Bitwise(op, x2, y2), s, n)
  {
    hide Bitwise;
    hide Pow2;
    BitwiseSign(op, x2, y2);
    BitwiseBlock(op, x1, x2, y1, y2, n);
    BitwiseBlock(op, x0, x1 + Pow2(n) * x2, y0, y1 + Pow2(n) * y2, s);
  }

  lemma {:induction false} PartsUnique(x0: nat, x1: nat, x2: nat, y0: nat, y1: nat, y2: nat, s: nat, n: nat)
    requires x0 < Pow2(s) && y0 < Pow2(s) && x1 < Pow2(n) && y1 < Pow2(n)
    requires Parts(x0, x1, x2, s, n) == Parts(y0, y1, y2, s, n)
    ensures x0 == y0 && x1 == y1 && x2 == y2
  {
    hide Pow2;
    var p, q := Pow2(s), Pow2(n);
    DivUnique(x0 + p * (x1 + q * x2), p, x1 + q * x2, x0);
    DivUnique(x0 + p * (x1 + q * x2), p, y1 + q * y2, y0);
    DivUnique(x1 + q * x2, q, x2, x1);
    DivUnique(x1 + q * x2, q, y2, y1);
  }

  lemma {:induction false} PartsBelow(x0: nat, x1: nat, x2: nat, s: nat, n: nat, m: nat)
    requires x0 < Pow2(s) && x1 < Pow2(n) && x2 < Pow2(m)
    ensures Parts(x0, x1, x2, s, n) < Pow2(s + n + m)
  {
    Pow2Add(n, m);
    Pow2Add(s, n + m);
    hide Pow2;
    BlockBelow(x1, x2, Pow2(n), Pow2(m));
    BlockBelow(x0, x1 + Pow2(n) * x2, Pow2(s), Pow2(n + m));
  }

  /** The bits of bytes that contain a field, around it. */
  lemma {:induction false} FieldParts(p: seq<Byte>, i: nat, o: nat, n: nat, s: nat)
    requires i + o + n + s <= 8 * |p|
    ensures Field(p, i, o + n + s) == Parts(Field(p, i + o + n, s), Field(p, i + o, n), Field(p, i, o), s, n)
  {
    hide Field;
    hide Pow2;
    FieldSplit(p, i, o + n, s);
    FieldSplit(p, i, o, n);
  }
}
