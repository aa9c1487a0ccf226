/** Byte strings and the numbers they stand for in either byte order, as the
    import and export functions of gmputil.c lay them out on a little-endian
    host. */
module Bytes {
  import opened Arith
  import opened Bits
  import opened PowerOfTwo

  type Byte = x: int | 0 <= x < 256

  /** The byte order of an expression: network order or that of the host. */
  datatype ByteOrder = Big | Host

  /** The number whose least significant byte comes first. */
  function Le(s: seq<Byte>): (v: nat)
  {
    if s == [] then 0 else s[0] + 256 * Le(s[1..])
  }

  /** The n low bytes of v, least significant first. */
  function LeBytes(v: nat, n: nat): (s: seq<Byte>)
    ensures |s| == n
  {
    if n == 0 then [] else [v % 256] + LeBytes(v / 256, n - 1)
  }

  function Reversed(s: seq<Byte>): (r: seq<Byte>)
    ensures |r| == |s| && forall i :: 0 <= i < |s| ==> r[i] == s[|s| - 1 - i]
  {
    seq(|s|, i requires 0 <= i < |s| => s[|s| - 1 - i])
  }

  function Ordered(s: seq<Byte>, order: ByteOrder): (r: seq<Byte>)
    ensures |r| == |s|
  {
    if order == Big then Reversed(s) else s
  }

  function Import(s: seq<Byte>, order: ByteOrder): (v: nat)
  {
    Le(Ordered(s, order))
  }

  function Export(v: nat, order: ByteOrder, n: nat): (s: seq<Byte>)
    ensures |s| == n
  {
    Ordered(LeBytes(v, n), order)
  }

  function Zeros(n: nat): (s: seq<Byte>)
    ensures |s| == n && forall i :: 0 <= i < n ==> s[i] == 0
  {
    seq(n, i => 0)
  }

  /* ---- Both functions are inverse to each other ---- */

  lemma {:induction false} LeBound(s: seq<Byte>)
    ensures Le(s) < Pow2(8 * |s|)
  {
    if s == [] {
    } else {
      LeBound(s[1..]);
      PowByte(|s| - 1);
    }
  }

  lemma {:induction false} PowByte(n: nat)
    ensures Pow2(8 * (n + 1)) == 256 * Pow2(8 * n)
  {
    BytePower();
    Pow2Add(8, 8 * n);
  }

  lemma {:induction false} LeLeBytes(v: nat, n: nat)
    requires v < Pow2(8 * n)
    ensures Le(LeBytes(v, n)) == v
  {
    if n == 0 {
      assert Pow2(0) == 1;
    } else {
      PowByte(n - 1);
      hide Pow2;
      LeLeBytes(v / 256, n - 1);
      assert LeBytes(v, n)[1..] == LeBytes(v / 256, n - 1);
    }
  }

  lemma {:induction false} LeBytesLe(s: seq<Byte>)
    ensures LeBytes(Le(s), |s|) == s
  {
    if s == [] {
    } else {
      LeBytesLe(s[1..]);
      assert Le(s) % 256 == s[0] && Le(s) / 256 == Le(s[1..]);
    }
  }

  lemma {:induction false} ReversedTwice(s: seq<Byte>)
    ensures Reversed(Reversed(s)) == s
  {
  }

  /** What is exported into enough bytes is imported again. */
  lemma {:induction false} ImportExport(v: nat, order: ByteOrder, n: nat)
    requires v < Pow2(8 * n)
    ensures Import(Export(v, order, n), order) == v
  {
    LeLeBytes(v, n);
    ReversedTwice(LeBytes(v, n));
  }

  lemma {:induction false} ExportImport(s: seq<Byte>, order: ByteOrder)
    ensures Export(Import(s, order), order, |s|) == s
    ensures Import(s, order) < Pow2(8 * |s|)
  {
    LeBytesLe(Ordered(s, order));
    LeBound(Ordered(s, order));
    ReversedTwice(s);
  }

  /** Exporting in one order and importing in the other reverses the bytes. */
  lemma {:induction false} ExportOtherOrder(v: nat, n: nat)
    ensures Reversed(Export(v, Host, n)) == Export(v, Big, n)
    ensures Reversed(Export(v, Big, n)) == Export(v, Host, n)
  {
    ReversedTwice(LeBytes(v, n));
  }

  lemma {:induction false} ExportInjective(u: nat, v: nat, order: ByteOrder, n: nat)
    requires u < Pow2(8 * n) && v < Pow2(8 * n)
    ensures Export(u, order, n) == Export(v, order, n) <==> u == v
  {
    ImportExport(u, order, n);
    ImportExport(v, order, n);
  }

  lemma {:induction false} ExportZero(order: ByteOrder, n: nat)
    ensures Export(0, order, n) == Zeros(n)
  {
    LeBytesZero(n);
  }

  lemma {:induction false} LeBytesZero(n: nat)
    ensures LeBytes(0, n) == Zeros(n)
  {
    if n > 0 {
      LeBytesZero(n - 1);
    }
  }

  /** More bytes than needed: the rest is zero, above or in front. */
  lemma {:induction false} LeBytesSplit(v: nat, m: nat, n: nat)
    requires m <= n
    ensures LeBytes(v, n) == LeBytes(v % Pow2(8 * m), m) + LeBytes(Shr(v, 8 * m), n - m)
  {
    if m == 0 {
      PowZero();
      ShrNothing(v);
      assert LeBytes(v % Pow2(0), 0) == [];
    } else {
      PowByte(m - 1);
      hide Pow2;
      LeBytesSplit(v / 256, m - 1, n - 1);
      SplitStep(v, m, n, Pow2(8 * (m - 1)));
    }
  }

  /** One byte more in front of the place where a number is split. */
  lemma {:induction false} SplitStep(v: nat, m: nat, n: nat, p: nat)
    requires 0 < m <= n && 0 < p && Pow2(8 * m) == 256 * p && Pow2(8 * (m - 1)) == p
    requires LeBytes(v / 256, n - 1) == LeBytes((v / 256) % p, m - 1) + LeBytes(Shr(v / 256, 8 * (m - 1)), n - m)
    ensures LeBytes(v, n) == LeBytes(v % Pow2(8 * m), m) + LeBytes(Shr(v, 8 * m), n - m)
  {
    hide Pow2;
    DivDiv(v, 256, p);
    ModMod(v, p);
    var x := v % (256 * p);
    assert LeBytes(x, m) == [x % 256] + LeBytes(x / 256, m - 1);
    assert LeBytes(v, n) == [v % 256] + LeBytes(v / 256, n - 1);
  }

  lemma {:induction false} ModMod(v: nat, p: nat)
    requires 0 < p
    ensures (v % (256 * p)) % 256 == v % 256
    ensures (v % (256 * p)) / 256 == (v / 256) % p
  {
    DivDiv(v, 256, p);
    var q, r := v / (256 * p), v % (256 * p);
    assert v == 256 * (p * q) + r by { Assoc(256, p, q); }
    assert (v / 256) == p * q + r / 256;
    assert 0 <= r / 256 < p;
    DivUnique(v / 256, p, q, r / 256);
  }

  /* ---- Byte-wise operations ---- */

  /** A bit operation applied to every pair of bytes. */
  function ByteBits(op: BitOp, s: seq<Byte>, t: seq<Byte>): (r: seq<Byte>)
    requires |s| == |t|
    ensures |r| == |s|
  {
    seq(|s|, i requires 0 <= i < |s| => ByteBit(op, s[i], t[i]))
  }

  function ByteBit(op: BitOp, x: Byte, y: Byte): (z: Byte)
  {
    BytePower();
    BitwiseBlock(op, x, 0, y, 0, 8);
    Bitwise(op, x, y)
  }

  lemma {:induction false} ByteBitsStep(op: BitOp, x: nat, y: nat)
    ensures Bitwise(op, x, y) >= 0
    ensures Bitwise(op, x, y) % 256 == Bitwise(op, x % 256, y % 256)
    ensures Bitwise(op, x, y) / 256 == Bitwise(op, x / 256, y / 256)
  {
    BytePower();
    hide Bitwise;
    BitwiseSign(op, x, y);
    BitwiseBlock(op, x % 256, x / 256, y % 256, y / 256, 8);
  }

  /** The operation on numbers is the operation on their bytes. */
  lemma {:induction false} LeBytesBitwise(op: BitOp, x: nat, y: nat, n: nat)
    ensures Bitwise(op, x, y) >= 0
    ensures LeBytes(Bitwise(op, x, y), n) == ByteBits(op, LeBytes(x, n), LeBytes(y, n))
    decreases n
  {
    hide Bitwise;
    ByteBitsStep(op, x, y);
    if n > 0 {
      LeBytesBitwise(op, x / 256, y / 256, n - 1);
    }
  }

  lemma {:induction false} ExportBitwise(op: BitOp, x: nat, y: nat, order: ByteOrder, n: nat)
    ensures Bitwise(op, x, y) >= 0
    ensures Export(Bitwise(op, x, y), order, n) == ByteBits(op, Export(x, order, n), Export(y, order, n))
  {
    hide Bitwise;
    LeBytesBitwise(op, x, y, n);
  }

  /* ---- Comparing byte strings as memcmp does ---- */

  function Memcmp(s: seq<Byte>, t: seq<Byte>): int
    requires |s| == |t|
  {
    if s == [] then 0
    else if s[0] < t[0] then -1
    else if t[0] < s[0] then 1
    else Memcmp(s[1..], t[1..])
  }

  lemma {:induction false} MemcmpEqual(s: seq<Byte>, t: seq<Byte>)
    requires |s| == |t|
    ensures Memcmp(s, t) == 0 <==> s == t
  {
    if s == [] {
    } else {
      MemcmpEqual(s[1..], t[1..]);
      assert s == [s[0]] + s[1..] && t == [t[0]] + t[1..];
    }
  }

  lemma {:induction false} LeTop(s: seq<Byte>)
    requires |s| > 0
    ensures Le(s) == Le(s[..|s| - 1]) + Pow2(8 * (|s| - 1)) * s[|s| - 1]
  {
    if |s| == 1 {
    } else {
      LeTop(s[1..]);
      assert s[1..][..|s| - 2] == s[..|s| - 1][1..];
      PowByte(|s| - 2);
      Assoc(256, Pow2(8 * (|s| - 2)), s[|s| - 1]);
    }
  }

  lemma {:induction false} TopDecides(p: int, x: int, y: int, a: int, b: int)
    requires 0 <= a < p && 0 <= b < p
    requires x < y
    ensures a + p * x < b + p * y
  {
    MulLe(p, x + 1, y);
  }

  /** In network order the first byte that differs decides as the numbers do. */
  lemma {:induction false} MemcmpReversed(s: seq<Byte>, t: seq<Byte>)
    requires |s| == |t|
    ensures Memcmp(Reversed(s), Reversed(t)) < 0 <==> Le(s) < Le(t)
    ensures Memcmp(Reversed(s), Reversed(t)) > 0 <==> Le(s) > Le(t)
  {
    if s == [] {
    } else {
      var n := |s| - 1;
      hide Pow2;
      hide Le;
      LeTop(s);
      LeTop(t);
      LeBound(s[..n]);
      LeBound(t[..n]);
      MemcmpReversed(s[..n], t[..n]);
      assert Reversed(s)[1..] == Reversed(s[..n]);
      assert Reversed(t)[1..] == Reversed(t[..n]);
      if s[n] < t[n] {
        TopDecides(Pow2(8 * n), s[n], t[n], Le(s[..n]), Le(t[..n]));
      } else if t[n] < s[n] {
        TopDecides(Pow2(8 * n), t[n], s[n], Le(t[..n]), Le(s[..n]));
      }
    }
  }

  lemma {:induction false} MemcmpBig(u: nat, v: nat, n: nat)
    requires u < Pow2(8 * n) && v < Pow2(8 * n)
    ensures Memcmp(Export(u, Big, n), Export(v, Big, n)) < 0 <==> u < v
    ensures Memcmp(Export(u, Big, n), Export(v, Big, n)) > 0 <==> u > v
  {
    LeLeBytes(u, n);
    LeLeBytes(v, n);
    MemcmpReversed(LeBytes(u, n), LeBytes(v, n));
  }

  lemma {:induction false} LeAppend(s: seq<Byte>, t: seq<Byte>)
    ensures Le(s + t) == Le(s) + Pow2(8 * |s|) * Le(t)
  {
    if s == [] {
      assert s + t == t;
    } else {
      LeAppend(s[1..], t);
      assert (s + t)[1..] == s[1..] + t;
      PowByte(|s| - 1);
      hide Pow2;
      Dist(256, Le(s[1..]), Pow2(8 * (|s| - 1)) * Le(t));
      Assoc(256, Pow2(8 * (|s| - 1)), Le(t));
    }
  }

  /* ---- Leading bytes ---- */

  lemma {:induction false} ReversedLeading(s: seq<Byte>, t: seq<Byte>)
    ensures Reversed(s + t)[..|t|] == Reversed(t)
  {
  }

  /** The first k of n bytes are the high bits in network order and the low
      ones in host order. */
  lemma {:induction false} ExportLeading(v: nat, order: ByteOrder, k: nat, n: nat)
    requires k <= n && v < Pow2(8 * n)
    ensures order == Big ==> Export(v, order, n)[..k] == Export(Shr(v, 8 * (n - k)), Big, k)
    ensures order == Host ==> Export(v, order, n)[..k] == Export(v % Pow2(8 * k), Host, k)
  {
    hide Pow2;
    hide LeBytes;
    hide Shr;
    LeBytesSplit(v, n - k, n);
    LeBytesSplit(v, k, n);
    ReversedLeading(LeBytes(v % Pow2(8 * (n - k)), n - k), LeBytes(Shr(v, 8 * (n - k)), k));
  }

  /** A buffer with some bytes replaced. */
  function Patch(p: seq<Byte>, a: nat, s: seq<Byte>): (p': seq<Byte>)
    requires a + |s| <= |p|
    ensures |p'| == |p|
  {
    p[..a] + s + p[a + |s|..]
  }
}
