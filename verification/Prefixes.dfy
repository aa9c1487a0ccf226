/** Prefixes as pairs of bounds for the kernel, and ranges turned back into
    prefixes (src/netlink.c). */
module Prefixes {
  import opened Lengths
  import opened Arith
  import opened Bits
  import opened PowerOfTwo
  import opened BinopFold
  import opened Bytes
  import opened SetKeys
  import opened PayloadBits
  import Machine

  /** What mpz_scan1 returns when there is no bit. */
  const ULONG_MAX: nat := 0xFFFF_FFFF_FFFF_FFFF

  datatype Interval = RangeOf(low: nat, high: nat) | PrefixOf(base: nat, prefixLen: nat)

  /** The numbers of a width that an interval stands for. */
  predicate Contains(i: Interval, len: nat, y: nat)
  {
    match i
    case RangeOf(low, high) => low <= y <= high
    case PrefixOf(base, n) => n <= len && Shr(y, len - n) == Shr(base, len - n)
  }

  /* ---- Scanning for bits ---- */

  /** mpz_scan0 from bit 0 */
  function Scan0(v: nat): nat
  {
    if v % 2 == 0 then 0 else 1 + Scan0(v / 2)
  }

  /** mpz_scan1 */
  function Scan1(v: nat, start: nat): nat
  {
    if Shr(v, start) == 0 then ULONG_MAX else start + LowestBit(Shr(v, start))
  }

  /** mpz_bitmask_is_prefix */
  predicate BitmaskIsPrefix(bitmask: nat, len: nat)
  {
    var n1 := Scan0(bitmask);
    n1 != ULONG_MAX && Scan1(bitmask, n1 + 1) >= len
  }

  /** mpz_bitmask_to_prefix */
  function BitmaskToPrefix(bitmask: nat, len: nat): int
  {
    len - Scan0(bitmask)
  }

  /** range_expr_to_prefix: the low bits of the lower bound are not looked at. */
  function RangeToPrefix(low: nat, high: nat, len: nat): Interval
  {
    var bitmask := NatBits(Xor, low, high);
    var n := BitmaskToPrefix(bitmask, len);
    if BitmaskIsPrefix(bitmask, len) && n >= 0 then PrefixOf(low, n) else RangeOf(low, high)
  }

  lemma {:induction false} OnesHalf(n: nat)
    requires n > 0
    ensures Ones(n) % 2 == 1 && Ones(n) / 2 == Ones(n - 1) && Ones(0) == 0
  {
    assert Pow2(n) == 2 * Pow2(n - 1) && Pow2(0) == 1;
  }

  lemma {:induction false} Scan0Ones(n: nat)
    ensures Scan0(Ones(n)) == n
  {
    OnesHalf(if n > 0 then n else 1);
    if n > 0 {
      hide Ones;
      Scan0Ones(n - 1);
    }
  }

  /** The bits below the first zero are ones, and that bit is zero. */
  lemma {:induction false} Scan0Splits(v: nat)
    ensures v == Ones(Scan0(v)) + Shl(Shr(v, Scan0(v) + 1), Scan0(v) + 1)
  {
    var n := Scan0(v);
    if v % 2 == 0 {
      assert Pow2(1) == 2 * Pow2(0) && Ones(0) == 0;
    } else {
      Scan0Splits(v / 2);
      OnesHalf(n);
      assert Pow2(n + 1) == 2 * Pow2(n);
      hide Pow2;
      DivDiv(v, 2, Pow2(n));
      Assoc(2, Pow2(n), Shr(v, n + 1));
    }
  }

  lemma {:induction false} LowestBitBelow(v: nat, k: nat)
    requires 0 < v < Pow2(k)
    ensures LowestBit(v) < k
  {
    if v % 2 == 0 {
      LowestBitBelow(v / 2, k - 1);
    }
  }

  /** The test accepts exactly the numbers whose low bits are ones. */
  lemma {:induction false} IsPrefixMeans(v: nat, len: nat)
    requires v < Pow2(len) && len < ULONG_MAX
    ensures BitmaskIsPrefix(v, len) <==> v == Ones(Scan0(v))
    ensures Scan0(v) <= len
  {
    var n := Scan0(v);
    Scan0Splits(v);
    OnesBelow(v, n, len);
    hide Pow2;
    hide Ones;
    var rest := Shr(v, n + 1);
    if rest == 0 {
      ShlNothing(n + 1);
    } else {
      ShlSomething(rest, n + 1);
      HighPart(v, n + 1, len);
      LowestBitBelow(rest, len - (n + 1));
    }
  }

  lemma {:induction false} ShlNothing(k: nat)
    ensures Shl(0, k) == 0
  {
  }

  lemma {:induction false} ShlSomething(v: nat, k: nat)
    requires v > 0
    ensures Shl(v, k) > 0
  {
    MulLe(Pow2(k), 1, v);
  }

  lemma {:induction false} OnesBelow(v: nat, n: nat, len: nat)
    requires Ones(n) <= v < Pow2(len)
    ensures n <= len
  {
    if n > len {
      Pow2Strict(len, n);
    }
  }

  lemma {:induction false} HighPart(v: nat, k: nat, len: nat)
    requires v < Pow2(len) && Shr(v, k) > 0
    ensures k < len && Shr(v, k) < Pow2(len - k)
  {
    if k >= len {
      Pow2Monotone(len, k);
      DivUnique(v, Pow2(k), 0, v);
    } else {
      Pow2Add(k, len - k);
      hide Pow2;
      QuotientBelow(v, Pow2(k), Pow2(len - k));
    }
  }

  /* ---- When a range is a prefix ---- */

  predicate Aligned(x: nat, n: nat)
  {
    x % Pow2(n) == 0
  }

  /** A block of 2^n numbers that starts at a multiple of its size. */
  predicate IsBlock(low: nat, high: nat, n: nat)
  {
    Aligned(low, n) && high == low + Ones(n)
  }

  lemma {:induction false} BlockXor(low: nat, high: nat, n: nat)
    requires Aligned(low, n)
    ensures high == low + Ones(n) <==> NatBits(Xor, low, high) == Ones(n)
  {
    hide Bitwise;
    hide Pow2;
    var p, h := Pow2(n), low / Pow2(n);
    assert low == 0 + p * h;
    BitwiseBlock(Xor, 0, h, Ones(n), 0, n);
    BitwiseConstant(Xor, h);
    BitwiseConstant(Xor, Ones(n));
    BitwiseCommutes(Xor, 0, Ones(n));
    assert Ones(n) + p * 0 == Ones(n);
    BitwiseCommutes(Xor, low, high);
    BitwiseCommutes(Xor, low, Ones(n));
    XorTwice(high, low, Ones(n));
  }

  /** A block becomes the prefix that it is. */
  lemma {:induction false} BlockBecomesPrefix(low: nat, high: nat, n: nat, len: nat)
    requires n <= len < ULONG_MAX && low < Pow2(len) && high < Pow2(len) && IsBlock(low, high, n)
    ensures RangeToPrefix(low, high, len) == PrefixOf(low, len - n)
  {
    hide Pow2;
    hide NatBits;
    hide BitmaskIsPrefix;
    hide Aligned;
    BlockXor(low, high, n);
    XorFits(low, high, len);
    IsPrefixMeans(NatBits(Xor, low, high), len);
    Scan0Ones(n);
  }

  lemma {:induction false} BlockMembers(low: nat, n: nat, y: nat)
    requires Aligned(low, n)
    ensures low <= y <= low + Ones(n) <==> Shr(y, n) == Shr(low, n)
  {
    hide Pow2;
    var p := Pow2(n);
    var h := low / p;
    assert low == p * h;
    if low <= y <= low + p - 1 {
      DivUnique(y, p, h, y - low);
    }
  }

  /** A prefix that comes out of a range stands for the same numbers if and only if
      the lower bound is aligned, which the program does not check. */
  lemma {:induction false} PrefixMeansRange(low: nat, high: nat, len: nat)
    requires low <= high < Pow2(len) && len < ULONG_MAX
    requires RangeToPrefix(low, high, len).PrefixOf?
    ensures var r := RangeToPrefix(low, high, len);
      r.prefixLen <= len &&
      ((forall y: nat :: Contains(r, len, y) <==> low <= y <= high) <==> Aligned(low, len - r.prefixLen))
  {
    hide Pow2;
    hide NatBits;
    hide BitmaskIsPrefix;
    hide Shr;
    hide Aligned;
    XorFits(low, high, len);
    var v := NatBits(Xor, low, high);
    IsPrefixMeans(v, len);
    var r, n := RangeToPrefix(low, high, len), Scan0(v);
    if Aligned(low, n) {
      BlockXor(low, high, n);
      forall y: nat
        ensures Contains(r, len, y) <==> low <= y <= high
      {
        BlockMembers(low, n, y);
      }
    } else {
      var y := BlockStart(low, n);
      assert Contains(r, len, y) && y < low;
    }
  }

  /** The range from 1 to 2 becomes a prefix that 0 is in as well. */
  lemma {:induction false} UnalignedRange()
    ensures var r := RangeToPrefix(1, 2, 32);
      r == PrefixOf(1, 30) && Contains(r, 32, 0) && Contains(r, 32, 3)
  {
    assert Bitwise(Xor, 1, 2) == 3 by {
      assert Bitwise(Xor, 0, 0) == 0 && Bitwise(Xor, 0, 1) == 1;
    }
    assert Pow2(2) == 2 * Pow2(1) && Pow2(1) == 2 * Pow2(0);
    Pow2Monotone(2, 32);
    assert Scan0(3) == 2 && Scan0(1) == 1 && Scan0(0) == 0;
    IsPrefixMeans(3, 32);
  }

  lemma {:induction false} BlockStart(low: nat, n: nat) returns (y: nat)
    requires !Aligned(low, n)
    ensures y < low && Shr(y, n) == Shr(low, n)
  {
    hide Pow2;
    var p := Pow2(n);
    SplitBy(low, p);
    y := p * (low / p);
    DivUnique(y, p, low / p, 0);
  }

  /** For an aligned lower bound a prefix comes out exactly if the range is a
      block. */
  lemma {:induction false} PrefixExactlyBlock(low: nat, high: nat, len: nat, n: nat)
    requires low <= high < Pow2(len) && n <= len < ULONG_MAX && Aligned(low, n)
    ensures RangeToPrefix(low, high, len) == PrefixOf(low, len - n) <==> high == low + Ones(n)
  {
    hide Pow2;
    hide NatBits;
    hide BitmaskIsPrefix;
    hide Aligned;
    BlockXor(low, high, n);
    XorFits(low, high, len);
    IsPrefixMeans(NatBits(Xor, low, high), len);
    if high == low + Ones(n) {
      BlockBecomesPrefix(low, high, n, len);
    }
  }

  /* ---- Through the kernel and back ---- */

  /** expr_evaluate_prefix: the base without the bits that the prefix leaves open. */
  function ClearedBase(base: nat, size: nat, prefixLen: nat): nat
    requires prefixLen <= size
  {
    NatBits(And, base, Shl(Ones(prefixLen), size - prefixLen))
  }

  lemma {:induction false} ClearedValue(base: nat, size: nat, prefixLen: nat)
    requires base < Pow2(size) && prefixLen <= size
    ensures ClearedBase(base, size, prefixLen) == Shl(Shr(base, size - prefixLen), size - prefixLen)
  {
    hide Bitwise;
    var k := size - prefixLen;
    Pow2Add(k, prefixLen);
    hide Pow2;
    QuotientBelow(base, Pow2(k), Pow2(prefixLen));
    MaskBlock(base % Pow2(k), Shr(base, k), k, prefixLen);
  }

  lemma {:induction false} RoundedDown(x: nat, k: nat)
    ensures var y := Shl(Shr(x, k), k); y <= x && Aligned(y, k) && Shr(y, k) == Shr(x, k)
  {
    hide Pow2;
    SplitBy(x, Pow2(k));
    DivUnique(Shl(Shr(x, k), k), Pow2(k), Shr(x, k), 0);
  }

  lemma {:induction false} ClearedIsAligned(base: nat, size: nat, prefixLen: nat)
    requires base < Pow2(size) && prefixLen <= size
    ensures var b, k := ClearedBase(base, size, prefixLen), size - prefixLen;
      Aligned(b, k) && b <= base && Shr(b, k) == Shr(base, k)
  {
    hide Aligned;
    hide Shr;
    hide Shl;
    hide Pow2;
    ClearedValue(base, size, prefixLen);
    RoundedDown(base, size - prefixLen);
  }

  /** The bytes of both bounds. */
  function BoundBytes(base: nat, prefixLen: nat, t: Subtype): seq<Byte>
    requires prefixLen <= t.size
  {
    Export(base, t.order, ByteLen(t.size)) + Export(base + Ones(t.size - prefixLen), t.order, ByteLen(t.size))
  }

  /** netlink_gen_prefix; the second bound lies behind the padded first one, so the
      buffer is long enough for widths of full slots only. */
  method GenPrefix(base: nat, prefixLen: nat, t: Subtype) returns (data: array<Byte>)
    requires prefixLen <= t.size && t.size % 32 == 0
    ensures data[..] == BoundBytes(base, prefixLen, t)
  {
    hide Export;
    hide Patch;
    hide Ones;
    var n := ByteLen(t.size);
    var len := n * 2;
    data := new Byte[len];
    assert Machine.PadLength(n) == n;
    ghost var empty := data[..];
    var offset := ExportPad(data, 0, base, t);
    var count := ExportPad(data, offset, base + Ones(t.size - prefixLen), t);
    BothHalves(empty, Export(base, t.order, n), Export(base + Ones(t.size - prefixLen), t.order, n));
  }

  lemma {:induction false} BothHalves(data: seq<Byte>, a: seq<Byte>, b: seq<Byte>)
    requires |data| == |a| + |b|
    ensures Patch(Patch(data, 0, a), |a|, b) == a + b
  {
  }

  function IntervalOf(value: nat, t: Subtype): Interval
  {
    var len := ByteLen(2 * t.size);
    var data := Export(value, t.order, len);
    RangeToPrefix(Import(data[..len / 2], t.order), Import(data[len / 2..], t.order), len / 2 * 8)
  }

  /** The number of the bytes of two bounds. */
  function TwoBounds(x: nat, y: nat, t: Subtype): nat
  {
    Import(Export(x, t.order, ByteLen(t.size)) + Export(y, t.order, ByteLen(t.size)), Big)
  }

  predicate WellFormedPrefix(base: nat, prefixLen: nat, t: Subtype)
  {
    && t.order == Big && t.size % 32 == 0 && 0 < t.size < ULONG_MAX && prefixLen <= t.size
    && base < Pow2(t.size) && Aligned(base, t.size - prefixLen)
  }

  /** In network order both bounds are read back. */
  lemma {:induction false} BoundsReadBack(x: nat, y: nat, n: nat)
    requires x < Pow2(8 * n) && y < Pow2(8 * n)
    ensures IntervalOf(Import(Export(x, Big, n) + Export(y, Big, n), Big), Subtype(8 * n, Big))
      == RangeToPrefix(x, y, 8 * n)
  {
    hide Export;
    hide Import;
    hide Pow2;
    hide RangeToPrefix;
    assert ByteLen(2 * (8 * n)) == 2 * n;
    var a, b := Export(x, Big, n), Export(y, Big, n);
    ExportImport(a + b, Big);
    Halves(a, b);
    ImportExport(x, Big, n);
    ImportExport(y, Big, n);
  }

  lemma {:induction false} Halves(a: seq<Byte>, b: seq<Byte>)
    ensures |a + b| == |a| + |b| && (a + b)[..|a|] == a && (a + b)[|a|..] == b
  {
  }

  lemma {:induction false} AlignedEnd(v: nat, size: nat, k: nat)
    requires k <= size && v < Pow2(size) && Aligned(v, k)
    ensures v + Ones(k) < Pow2(size)
  {
    hide Pow2;
    BlockEnd(v, size, k);
  }

  lemma {:induction false} BlockRoundTrip(base: nat, k: nat, n: nat)
    requires 0 < 8 * n < ULONG_MAX && k <= 8 * n && base < Pow2(8 * n) && Aligned(base, k)
    ensures IntervalOf(Import(Export(base, Big, n) + Export(base + Ones(k), Big, n), Big), Subtype(8 * n, Big))
      == PrefixOf(base, 8 * n - k)
  {
    hide Export;
    hide Import;
    hide Pow2;
    hide RangeToPrefix;
    hide IntervalOf;
    hide Aligned;
    hide Ones;
    AlignedEnd(base, 8 * n, k);
    BoundsReadBack(base, base + Ones(k), n);
    BlockBecomesPrefix(base, base + Ones(k), k, 8 * n);
  }

  /** A prefix in network order of a width of full slots comes back as it was. */
  lemma {:induction false} PrefixRoundTrip(base: nat, prefixLen: nat, t: Subtype)
    requires WellFormedPrefix(base, prefixLen, t)
    ensures IntervalOf(Import(BoundBytes(base, prefixLen, t), Big), t) == PrefixOf(base, prefixLen)
  {
    hide Export;
    hide Import;
    hide Pow2;
    hide IntervalOf;
    hide Aligned;
    hide Ones;
    hide ByteLen;
    FullSlots(t.size);
    BlockRoundTrip(base, t.size - prefixLen, ByteLen(t.size));
  }

  lemma {:induction false} FullSlots(size: nat)
    requires size % 32 == 0
    ensures 8 * ByteLen(size) == size
  {
  }

  /** netlink_parse_interval_elem, on the number that the bytes were read as: of two
      bounds in network order it makes their interval, and of the bounds of a prefix
      that prefix. */
  method ParseIntervalElem(value: nat, t: Subtype) returns (i: Interval)
    ensures i == IntervalOf(value, t)
    ensures forall x: nat, y: nat ::
      t.order == Big && t.size % 8 == 0 && x < Pow2(t.size) && y < Pow2(t.size) && value == TwoBounds(x, y, t)
      ==> i == RangeToPrefix(x, y, t.size)
    ensures forall base: nat, prefixLen: nat ::
      WellFormedPrefix(base, prefixLen, t) && value == Import(BoundBytes(base, prefixLen, t), Big)
      ==> i == PrefixOf(base, prefixLen)
  {
    hide Export;
    hide Import;
    hide RangeToPrefix;
    hide BoundBytes;
    hide Aligned;
    hide Pow2;
    var len := ByteLen(2 * t.size);
    var data := Export(value, t.order, len);
    var left := Import(data[..len / 2], t.order);
    var right := Import(data[len / 2..], t.order);
    i := RangeToPrefix(left, right, len / 2 * 8);
    BoundsParsed(value, t);
    PrefixParsed(value, t);
  }

  lemma {:induction false} BoundsParsed(value: nat, t: Subtype)
    ensures forall x: nat, y: nat ::
      t.order == Big && t.size % 8 == 0 && x < Pow2(t.size) && y < Pow2(t.size) && value == TwoBounds(x, y, t)
      ==> IntervalOf(value, t) == RangeToPrefix(x, y, t.size)
  {
    hide Export;
    hide Import;
    hide RangeToPrefix;
    hide IntervalOf;
    hide Pow2;
    if t.order == Big && t.size % 8 == 0 {
      assert t == Subtype(8 * ByteLen(t.size), Big);
      forall x: nat, y: nat | x < Pow2(t.size) && y < Pow2(t.size) && value == TwoBounds(x, y, t)
        ensures IntervalOf(value, t) == RangeToPrefix(x, y, t.size)
      {
        BoundsReadBack(x, y, ByteLen(t.size));
      }
    }
  }

  lemma {:induction false} PrefixParsed(value: nat, t: Subtype)
    ensures forall base: nat, prefixLen: nat ::
      WellFormedPrefix(base, prefixLen, t) && value == Import(BoundBytes(base, prefixLen, t), Big)
      ==> IntervalOf(value, t) == PrefixOf(base, prefixLen)
  {
    hide Import;
    hide IntervalOf;
    hide BoundBytes;
    hide Aligned;
    hide Pow2;
    forall base: nat, prefixLen: nat | WellFormedPrefix(base, prefixLen, t) && value == Import(BoundBytes(base, prefixLen, t), Big)
      ensures IntervalOf(value, t) == PrefixOf(base, prefixLen)
    {
      PrefixRoundTrip(base, prefixLen, t);
    }
  }
}
