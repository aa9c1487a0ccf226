/** Reading and writing header fields that are not whole bytes through loads and
    stores of whole bytes (src/evaluate.c). */
module PayloadBits {
  import opened Lengths
  import opened Arith
  import opened Bits
  import opened PowerOfTwo
  import opened BinopFold
  import opened Bytes
  import opened PacketBits

  /** The bytes that a run of bits touches. */
  function Touched(offset: nat, len: nat): nat
  {
    (offset % 8 + len + 7) / 8
  }

  /** expr_offset_shift: the bits below the field in the bytes that are loaded, and
      what the load is longer than the field rounded up. */
  method ExprOffsetShift(len: nat, offset: nat) returns (shift: nat, extraLen: nat)
    requires len > 0
    ensures ByteLen(len + extraLen) == Touched(offset, len)
    ensures offset % 8 + len + shift == 8 * Touched(offset, len) && shift < 8
  {
    var newOffset := offset % 8;
    var rounded := (len + 7) / 8 * 8;
    var s: int := rounded - (newOffset + len);
    extraLen := 0;
    while s < 0
      invariant s == rounded + extraLen - (newOffset + len)
      invariant s < 8 && (extraLen == 0 || (extraLen == 8 && s >= 0))
      decreases -s
    {
      s := s + 8;
      extraLen := extraLen + 8;
    }
    shift := s;
  }

  /* ---- Reading ---- */

  /** Load n bytes from byte at, keep the bits of the mask, shift them down. */
  datatype FieldRead = FieldRead(at: nat, n: nat, mask: nat, shift: nat)

  function ReadValue(p: seq<Byte>, r: FieldRead): nat
    requires r.at + r.n <= |p|
  {
    Shr(NatBits(And, Import(p[r.at..r.at + r.n], Big), r.mask), r.shift)
  }

  lemma {:induction false} PartsZero(mid: nat, s: nat, n: nat)
    ensures Parts(0, mid, 0, s, n) == Shl(mid, s)
  {
  }

  /** The mask keeps the middle part and the shift takes it down. */
  lemma {:induction false} ReadMiddle(lo: nat, mid: nat, hi: nat, s: nat, n: nat)
    requires lo < Pow2(s) && mid < Pow2(n)
    ensures Shr(NatBits(And, Parts(lo, mid, hi, s, n), Shl(Ones(n), s)), s) == mid
  {
    hide Bitwise;
    hide Pow2;
    hide Parts;
    hide Shl;
    PartsZero(Ones(n), s, n);
    PartsBitwise(And, lo, mid, hi, 0, Ones(n), 0, s, n);
    BitwiseConstant(And, lo);
    BitwiseConstant(And, hi);
    AndOnes(mid, n);
    PartsZero(mid, s, n);
    ShrOfShl(mid, s);
  }

  lemma {:induction false} ShrOfShl(v: nat, s: nat)
    ensures Shr(Shl(v, s), s) == v
  {
    DivUnique(Shl(v, s), Pow2(s), v, 0);
  }

  /** The bytes around a field, as the number they are loaded as. */
  lemma {:induction false} LoadedParts(p: seq<Byte>, a: nat, n: nat, o: nat, len: nat, s: nat)
    requires o + len + s == 8 * n && a + n <= |p|
    ensures Import(p[a..a + n], Big)
      == Parts(Field(p, 8 * a + o + len, s), Field(p, 8 * a + o, len), Field(p, 8 * a, o), s, len)
    ensures Field(p, 8 * a + o + len, s) < Pow2(s) && Field(p, 8 * a + o, len) < Pow2(len)
  {
    hide Field;
    hide Pow2;
    hide Parts;
    hide Import;
    BytesField(p, a, n);
    FieldParts(p, 8 * a, o, len, s);
    FieldBound(p, 8 * a + o + len, s);
    FieldBound(p, 8 * a + o, len);
  }

  /** expr_evaluate_bits: what is built for a field reads exactly the bits of the
      field in every packet that has the bytes. */
  method EvaluateBits(offset: nat, len: nat) returns (r: FieldRead)
    requires len > 0
    ensures r.at == offset / 8 && r.n == Touched(offset, len)
    ensures forall p: seq<Byte> :: r.at + r.n <= |p| ==>
      offset + len <= 8 * |p| && ReadValue(p, r) == Field(p, offset, len)
  {
    hide ReadValue;
    hide Field;
    hide Pow2;
    hide Shl;
    var shift, extraLen := ExprOffsetShift(len, offset);
    r := FieldRead(offset / 8, ByteLen(len + extraLen), Shl(Ones(len), shift), shift);
    forall p: seq<Byte> | r.at + r.n <= |p|
      ensures offset + len <= 8 * |p| && ReadValue(p, r) == Field(p, offset, len)
    {
      ReadsField(p, r, offset, len);
    }
  }

  lemma {:induction false} ReadsField(p: seq<Byte>, r: FieldRead, offset: nat, len: nat)
    requires r.at == offset / 8 && r.at + r.n <= |p| && offset % 8 + len + r.shift == 8 * r.n
    requires r.mask == Shl(Ones(len), r.shift)
    ensures offset + len <= 8 * |p| && ReadValue(p, r) == Field(p, offset, len)
  {
    hide Field;
    hide Pow2;
    hide Shl;
    hide Shr;
    hide NatBits;
    hide Import;
    hide Parts;
    var o := offset % 8;
    assert 8 * r.at + o == offset;
    LoadedParts(p, r.at, r.n, o, len, r.shift);
    ReadMiddle(Field(p, 8 * r.at + o + len, r.shift), Field(p, offset, len), Field(p, 8 * r.at, o), r.shift, len);
  }

  /* ---- Writing ---- */

  /** A write as it should be: the field has the value, all other bits are as
      before. */
  ghost predicate WritesField(p: seq<Byte>, p': seq<Byte>, offset: nat, len: nat, v: nat)
    requires offset + len <= 8 * |p|
  {
    && |p'| == |p| && Field(p', offset, len) == v
    && forall k: nat :: k < 8 * |p| && !(offset <= k < offset + len) ==> Bit(p', k) == Bit(p, k)
  }

  /** The mask that keeps everything but the field. */
  function OtherBits(n: nat, len: nat, s: nat): nat
  {
    NatBits(Xor, Ones(8 * n), Shl(Ones(len), s))
  }

  function Munged(loaded: nat, mask: nat, v: nat, s: nat): nat
  {
    NatBits(Xor, NatBits(And, loaded, mask), Shl(v, s))
  }

  lemma {:induction false} OnesParts(s: nat, n: nat, o: nat)
    ensures Ones(s + n + o) == Parts(Ones(s), Ones(n), Ones(o), s, n)
  {
    Pow2Add(n, o);
    Pow2Add(s, n + o);
    hide Pow2;
    var p, q, r := Pow2(s), Pow2(n), Pow2(o);
    DistSub(q, r, 1);
    DistSub(p, q * r, 1);
  }

  lemma {:induction false} OtherBitsParts(n: nat, len: nat, s: nat, o: nat)
    requires o + len + s == 8 * n
    ensures OtherBits(n, len, s) == Parts(Ones(s), 0, Ones(o), s, len)
  {
    hide Bitwise;
    hide Pow2;
    hide Parts;
    hide Shl;
    OnesParts(s, len, o);
    PartsZero(Ones(len), s, len);
    PartsBitwise(Xor, Ones(s), Ones(len), Ones(o), 0, Ones(len), 0, s, len);
    BitwiseConstant(Xor, Ones(s));
    BitwiseConstant(Xor, Ones(o));
    XorSelf(Ones(len));
  }

  lemma {:induction false} XorSelf(x: int)
    ensures Bitwise(Xor, x, x) == 0
  {
    hide Bitwise;
    hide TestBit;
    forall i: nat
      ensures TestBit(Bitwise(Xor, x, x), i) == TestBit(0, i)
    {
      BitwiseTestBit(Xor, x, x, i);
      ZeroBit(i);
    }
    SameBits(Bitwise(Xor, x, x), 0);
  }

  lemma {:induction false} ZeroBit(i: nat)
    ensures TestBit(0, i) == 0
  {
    HighBit(0, 0, i);
  }

  /** The parts of what is stored: only the middle one is new. */
  lemma {:induction false} MungedParts(lo: nat, mid: nat, hi: nat, v: nat, n: nat, len: nat, s: nat, o: nat)
    requires lo < Pow2(s) && mid < Pow2(len) && hi < Pow2(o) && v < Pow2(len) && o + len + s == 8 * n
    ensures Munged(Parts(lo, mid, hi, s, len), OtherBits(n, len, s), v, s) == Parts(lo, v, hi, s, len)
  {
    hide Bitwise;
    hide Pow2;
    hide Parts;
    hide Shl;
    hide OtherBits;
    OtherBitsParts(n, len, s, o);
    PartsBitwise(And, lo, mid, hi, Ones(s), 0, Ones(o), s, len);
    AndOnes(lo, s);
    AndOnes(hi, o);
    BitwiseConstant(And, mid);
    PartsZero(v, s, len);
    PartsBitwise(Xor, lo, 0, hi, 0, v, 0, s, len);
    BitwiseConstant(Xor, lo);
    BitwiseConstant(Xor, hi);
    BitwiseConstant(Xor, v);
    BitwiseCommutes(Xor, 0, v);
  }

  /** Storing bytes puts their number into the packet. */
  lemma {:induction false} PatchField(p: seq<Byte>, a: nat, x: nat, n: nat)
    requires a + n <= |p| && x < Pow2(8 * n)
    ensures var p' := Patch(p, a, Export(x, Big, n)); Field(p', 8 * a, 8 * n) == x
  {
    hide Field;
    hide Pow2;
    hide Export;
    hide Import;
    var p' := Patch(p, a, Export(x, Big, n));
    assert p'[a..a + n] == Export(x, Big, n);
    BytesField(p', a, n);
    ImportExport(x, Big, n);
  }

  lemma {:induction false} PatchOutside(p: seq<Byte>, a: nat, s: seq<Byte>, k: nat)
    requires a + |s| <= |p| && k < 8 * |p| && !(8 * a <= k < 8 * (a + |s|))
    ensures Bit(Patch(p, a, s), k) == Bit(p, k)
  {
    assert Patch(p, a, s)[k / 8] == p[k / 8];
  }

  /** Storing the munged bytes writes the field and nothing else. */
  lemma {:induction false} MungeWrites(p: seq<Byte>, a: nat, n: nat, o: nat, len: nat, s: nat, v: nat)
    requires o + len + s == 8 * n && a + n <= |p| && v < Pow2(len)
    ensures var x := Munged(Import(p[a..a + n], Big), OtherBits(n, len, s), v, s);
      x < Pow2(8 * n) && WritesField(p, Patch(p, a, Export(x, Big, n)), 8 * a + o, len, v)
  {
    hide Field;
    hide Bit;
    hide Pow2;
    hide Export;
    hide Import;
    hide Parts;
    hide Munged;
    hide Patch;
    LoadedParts(p, a, n, o, len, s);
    var lo, hi := Field(p, 8 * a + o + len, s), Field(p, 8 * a, o);
    FieldBound(p, 8 * a, o);
    MungedParts(lo, Field(p, 8 * a + o, len), hi, v, n, len, s, o);
    PartsBelow(lo, v, hi, s, len, o);
    var x := Parts(lo, v, hi, s, len);
    var p' := Patch(p, a, Export(x, Big, n));
    PatchField(p, a, x, n);
    FieldParts(p', 8 * a, o, len, s);
    FieldBound(p', 8 * a + o + len, s);
    FieldBound(p', 8 * a + o, len);
    PartsUnique(lo, v, hi, Field(p', 8 * a + o + len, s), Field(p', 8 * a + o, len), Field(p', 8 * a, o), s, len);
    forall k: nat | k < 8 * |p| && !(8 * a + o <= k < 8 * a + o + len)
      ensures Bit(p', k) == Bit(p, k)
    {
      if k < 8 * a || 8 * (a + n) <= k {
        PatchOutside(p, a, Export(x, Big, n), k);
      } else if k < 8 * a + o {
        FieldBits(p', p, 8 * a, o, k);
      } else {
        FieldBits(p', p, 8 * a + o + len, s, k);
      }
    }
  }

  /** Storing a value in whole bytes. */
  lemma {:induction false} PlainWrites(p: seq<Byte>, a: nat, n: nat, v: nat)
    requires a + n <= |p| && v < Pow2(8 * n)
    ensures WritesField(p, Patch(p, a, Export(v, Big, n)), 8 * a, 8 * n, v)
  {
    hide Field;
    hide Bit;
    hide Pow2;
    hide Export;
    hide Patch;
    PatchField(p, a, v, n);
    forall k: nat | k < 8 * |p| && !(8 * a <= k < 8 * a + 8 * n)
      ensures Bit(Patch(p, a, Export(v, Big, n)), k) == Bit(p, k)
    {
      PatchOutside(p, a, Export(v, Big, n), k);
    }
  }

  /* ---- Laws of reading and writing ---- */

  /** Writing leaves one packet only. */
  lemma {:induction false} WriteUnique(p: seq<Byte>, p1: seq<Byte>, p2: seq<Byte>, offset: nat, len: nat, v: nat)
    requires offset + len <= 8 * |p|
    requires WritesField(p, p1, offset, len, v) && WritesField(p, p2, offset, len, v)
    ensures p1 == p2
  {
    hide Field;
    hide Bit;
    forall k: nat | k < 8 * |p|
      ensures Bit(p1, k) == Bit(p2, k)
    {
      if offset <= k < offset + len {
        FieldBits(p1, p2, offset, len, k);
      }
    }
    SamePacket(p1, p2);
  }

  /** Writing what is there changes nothing. */
  lemma {:induction false} WriteRead(p: seq<Byte>, p': seq<Byte>, offset: nat, len: nat)
    requires offset + len <= 8 * |p| && WritesField(p, p', offset, len, Field(p, offset, len))
    ensures p' == p
  {
    WriteUnique(p, p', p, offset, len, Field(p, offset, len));
  }

  /** Of two writes of a field the second one counts. */
  lemma {:induction false} WriteTwice(p: seq<Byte>, p1: seq<Byte>, p2: seq<Byte>, offset: nat, len: nat, v1: nat, v2: nat)
    requires offset + len <= 8 * |p|
    requires WritesField(p, p1, offset, len, v1) && WritesField(p1, p2, offset, len, v2)
    ensures WritesField(p, p2, offset, len, v2)
  {
  }

  /* ---- The statement, which evaluation rewrites in place ---- */

  /** The value to store: as given, or munged into bytes that are loaded first. */
  datatype Val = Plain(v: nat) | Munge(at: nat, n: nat, mask: nat, v: nat, shift: nat)

  const NFT_REG_SIZE: nat := 16

  class PayloadStmt {
    /** The place of the field in bits; of whole bytes once it is evaluated. */
    var offset: nat
    var len: nat
    var val: Val

    constructor (o: nat, l: nat, v: nat)
      ensures offset == o && len == l && val == Plain(v)
    {
      offset, len, val := o, l, Plain(v);
    }

    /** The bytes of the packet that the statement needs. */
    predicate Reaches(p: seq<Byte>)
      reads this
    {
      && offset / 8 + len / 8 <= |p| && (val.Munge? ==> val.at + val.n <= |p|)
    }

    /** The packet after the statement. */
    function Run(p: seq<Byte>): (p': seq<Byte>)
      requires Reaches(p)
      reads this
    {
      var x := match val
        case Plain(v) => v
        case Munge(at, n, mask, v, shift) => Munged(Import(p[at..at + n], Big), mask, v, shift);
      Patch(p, offset / 8, Export(x, Big, len / 8))
    }

    predicate NeedsAdjustment()
      reads this
    {
      offset % 8 != 0 || len % 8 != 0
    }

    /** stmt_evaluate_payload, needCsum if a checksum is to be kept up to date. The
        rewritten statement writes exactly the field in every packet it reaches. */
    method Evaluate(needCsum: bool)
      requires val.Plain? && len > 0 && val.v < Pow2(len)
      requires Touched(offset, len) + (if needCsum then Touched(offset, len) % 2 else 0) <= NFT_REG_SIZE
      modifies this
      ensures offset % 8 == 0 && len % 8 == 0
      ensures needCsum ==> (len / 8) % 2 == 0
      ensures forall p: seq<Byte> :: Reaches(p) ==>
        old(offset) + old(len) <= 8 * |p| && WritesField(p, Run(p), old(offset), old(len), old(val.v))
    {
      hide Pow2;
      hide Munged;
      hide OtherBits;
      hide Export;
      hide Import;
      hide WritesField;
      hide Patch;
      ghost var v := val.v;
      if !NeedsAdjustment() {
        if !needCsum || (len / 8) % 2 == 0 {
          forall p: seq<Byte> | Reaches(p)
            ensures old(offset) + old(len) <= 8 * |p| && WritesField(p, Run(p), old(offset), old(len), v)
          {
            PlainWrites(p, offset / 8, len / 8, v);
          }
          return;
        }
      }
      var byteOffset := offset / 8;
      var shift, extraLen := ExprOffsetShift(len, offset);
      var byteSize := ByteLen(len + extraLen);
      if needCsum && byteSize % 2 == 1 {
        byteSize := byteSize + 1;
        if byteOffset % 2 == 1 {
          byteOffset := byteOffset - 1;
        } else {
          shift := shift + 8;
        }
      }
      ghost var o := offset - 8 * byteOffset;
      assert o + len + shift == 8 * byteSize;
      var mask := MaskConstant(OtherBits(byteSize, len, shift), byteSize, len, shift);
      val := Munge(byteOffset, byteSize, mask, val.v, shift);
      len := byteSize * 8;
      offset := byteOffset * 8;
      forall p: seq<Byte> | Reaches(p)
        ensures old(offset) + old(len) <= 8 * |p| && WritesField(p, Run(p), old(offset), old(len), v)
      {
        MungeWrites(p, byteOffset, byteSize, o, old(len), shift, v);
      }
    }
  }

  /** The mask goes through a buffer of a register's size in host order. */
  method MaskConstant(bitmask: nat, n: nat, ghost len: nat, ghost shift: nat) returns (mask: nat)
    requires n <= NFT_REG_SIZE && bitmask == OtherBits(n, len, shift) && len + shift <= 8 * n
    ensures mask == bitmask
  {
    hide OtherBits;
    var data := Export(bitmask, Host, NFT_REG_SIZE);
    mask := Import(data[..n], Host);
    OtherBitsBelow(n, len, shift);
    Pow2Monotone(8 * n, 8 * NFT_REG_SIZE);
    ExportLeading(bitmask, Host, n, NFT_REG_SIZE);
    SmallModulo(bitmask, Pow2(8 * n));
    ImportExport(bitmask, Host, n);
  }

  lemma {:induction false} OtherBitsBelow(n: nat, len: nat, s: nat)
    requires len + s <= 8 * n
    ensures OtherBits(n, len, s) < Pow2(8 * n)
  {
    var o := 8 * n - len - s;
    OtherBitsParts(n, len, s, o);
    PartsBelow(Ones(s), 0, Ones(o), s, len, o);
  }
}
