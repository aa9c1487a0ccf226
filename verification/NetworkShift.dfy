/** The shift over a field in network order that stays where binop_transfer does not
    come by, as in the keys of named sets (src/evaluate.c): the instruction shifts
    the bytes as a number in host order (src/netlink_linearize.c). */
module NetworkShift {
  import opened Lengths
  import opened Arith
  import opened Bits
  import opened PowerOfTwo
  import opened BinopFold
  import opened Bytes
  import opened Machine
  import opened Terms
  import opened Linearize
  import opened FieldRules
  import PacketBits
  import PayloadBits
  import SetKeys

  /** The code of the field with its mask, and netlink_gen_shift. */
  function ShiftedCode(key: nat, len: nat, shift: nat, extraLen: nat, dreg: nat, low: nat): seq<Instr>
  {
    var a, d := FieldMask(key, len, shift, extraLen), PutRegister(dreg);
    TermCode(a, dreg, low) + [BitwiseShift(d, d, ByteLen(len + shift), false, Export(shift, Host, 4))]
  }

  /** The bytes that it leaves for the bytes of a packet. */
  function ShiftedField(p: seq<Byte>, offset: nat, len: nat, shift: nat): seq<Byte>
    requires offset / 8 + PayloadBits.Touched(offset, len) <= |p|
  {
    var at, n := offset / 8, PayloadBits.Touched(offset, len);
    ShiftBytes(Export(NatBits(And, Import(p[at..at + n], Big), Shl(Ones(len), shift)), Big, n), false, shift)
  }

  /** The shift after code that leaves the bytes s. */
  lemma {:induction false} ShiftAfter(code: seq<Instr>, s: seq<Byte>, shift: nat, dreg: nat, low: nat, regs: Regs, w: World)
    requires 1 <= dreg && 1 <= low && 0 < |s| && shift < 8 && Offset(dreg) + PadLength(|s|) <= Offset(low) <= 64
    requires Computed(Run(code, regs, w), true, regs, dreg, s, low)
    ensures var d := PutRegister(dreg);
      Computed(Run(code + [BitwiseShift(d, d, |s|, false, Export(shift, Host, 4))], regs, w), true, regs, dreg,
        ShiftBytes(s, false, shift), low)
  {
    hide Run;
    hide Exec;
    hide Export;
    hide ShiftBytes;
    hide Write;
    hide Read;
    hide SameBelow;
    CountIn32(shift);
    ImportExport(shift, Host, 4);
    var d := PutRegister(dreg);
    var i, o := BitwiseShift(d, d, |s|, false, Export(shift, Host, 4)), Run(code, regs, w);
    if o.Running? {
      ExecShift(o.regs, dreg, |s|, false, i.data, w);
    }
    ShiftLength(s, shift);
    ThenReplace(code, i, true, regs, dreg, s, ShiftBytes(s, false, shift), low, w);
  }

  lemma {:induction false} ShiftedCodeRuns(key: nat, p: seq<Byte>, offset: nat, len: nat, shift: nat, extraLen: nat,
      dreg: nat, low: nat, regs: Regs, w: World)
    requires Placed(offset, len, shift, extraLen) && len + shift <= 128 && Loads(w, key, p, offset, len)
    requires 1 <= dreg && dreg + Space(len + shift) <= low <= SLOTS + 1
    ensures Computed(Run(ShiftedCode(key, len, shift, extraLen, dreg, low), regs, w), true, regs, dreg,
      ShiftedField(p, offset, len, shift), low)
  {
    hide Run;
    hide Export;
    hide Import;
    hide ShiftBytes;
    hide WellTyped;
    hide NatBits;
    hide Shl;
    hide Pow2;
    hide TermImage;
    hide FieldMask;
    hide Computed;
    hide SameBelow;
    hide Padded;
    var a, n := FieldMask(key, len, shift, extraLen), PayloadBits.Touched(offset, len);
    FieldTyped(key, offset, len, shift, extraLen, w);
    SpaceOfBytes(len + shift);
    TermRuns(a, dreg, low, regs, w);
    FieldImage(key, p, offset, len, shift, extraLen, w);
    ShiftAfter(TermCode(a, dreg, low), TermImage(a, w), shift, dreg, low, regs, w);
  }

  lemma {:induction false} FieldImage(key: nat, p: seq<Byte>, offset: nat, len: nat, shift: nat, extraLen: nat, w: World)
    requires Placed(offset, len, shift, extraLen) && Loads(w, key, p, offset, len)
    ensures Present(FieldMask(key, len, shift, extraLen), w)
    ensures var at, n := offset / 8, PayloadBits.Touched(offset, len);
      TermImage(FieldMask(key, len, shift, extraLen), w)
        == Export(NatBits(And, Import(p[at..at + n], Big), Shl(Ones(len), shift)), Big, n)
  {
    hide Export;
    hide Import;
    hide NatBits;
    hide Shl;
    hide Pow2;
    var at, n := offset / 8, PayloadBits.Touched(offset, len);
    assert ByteLen(len + shift) == n;
    assert w.fields[key][..n] == p[at..at + n] && HasField(key, len + extraLen, w);
    assert Eval(Terms.Field(key, Big, len + extraLen), w) == Import(p[at..at + n], Big);
  }

  lemma {:induction false} CountIn32(shift: nat)
    requires shift < 8
    ensures shift < Pow2(32)
  {
    WordPowers();
    Pow2Monotone(8, 32);
    BytePower();
  }

  lemma {:induction false} ShiftLength(s: seq<Byte>, shift: nat)
    ensures |ShiftBytes(s, false, shift)| == |s|
  {
  }

  /* ---- When that is the field ---- */

  /** The bytes are those of the number of the field, in every packet. */
  ghost predicate ShiftsRight(offset: nat, len: nat, shift: nat)
  {
    forall p: seq<Byte> :: offset / 8 + PayloadBits.Touched(offset, len) <= |p| ==>
      offset + len <= 8 * |p| &&
      ShiftedField(p, offset, len, shift) == Export(PacketBits.Field(p, offset, len), Big, PayloadBits.Touched(offset, len))
  }

  lemma {:induction false} OneByteOrder(v: nat)
    ensures Export(v, Big, 1) == Export(v, Host, 1)
  {
    assert Reversed(LeBytes(v, 1)) == LeBytes(v, 1);
  }

  /** In one byte there is no order, and a shift by nothing changes nothing. */
  lemma {:induction false} SmallShift(x: nat, n: nat, shift: nat)
    requires x < Pow2(8 * n) && (n == 1 || shift == 0)
    ensures ShiftBytes(Export(x, Big, n), false, shift) == Export(Shr(x, shift), Big, n)
  {
    hide Export;
    hide Import;
    hide Pow2;
    hide Shr;
    if shift == 0 {
      ShrNothing(x);
      ShrNothing(Import(Export(x, Big, n), Host));
      ExportImport(Export(x, Big, n), Host);
    } else {
      OneByteOrder(x);
      OneByteOrder(Shr(x, shift));
      ImportExport(x, Host, 1);
    }
  }

  lemma {:induction false} HostAppend(s: seq<Byte>, t: seq<Byte>)
    ensures Import(s + t, Host) == Import(s, Host) + Pow2(8 * |s|) * Import(t, Host)
  {
    LeAppend(s, t);
  }

  lemma {:induction false} TwoBytes(a: Byte, b: Byte)
    ensures Import([a, b], Host) == a + 256 * b && Import([a, b], Big) == b + 256 * a
  {
    assert [a, b][1..] == [b] && [b][1..] == [] && [b, a][1..] == [a] && [a][1..] == [];
    assert Le([b]) == b && Le([a]) == a;
    assert Reversed([a, b]) == [b, a];
  }

  /** The bytes of 256: as a number in host order they are small. */
  lemma {:induction false} SmallInHost(n: nat) returns (b: seq<Byte>)
    requires n >= 2
    ensures |b| == n && Import(b, Big) == 256 && Import(b, Host) == Pow2(8 * (n - 2))
  {
    hide Import;
    hide Pow2;
    var z, e: seq<Byte> := Zeros(n - 2), [1, 0];
    b := z + e;
    TwoBytes(1, 0);
    SetKeys.ImportAppend(z, e);
    HostAppend(z, e);
    SetKeys.ZeroBytes(Big, n - 2);
    SetKeys.ZeroBytes(Host, n - 2);
  }

  lemma {:induction false} SingleByte(f: Byte, order: ByteOrder)
    ensures Import([f], order) == f
  {
    assert Reversed([f]) == [f] && [f][1..] == [];
    assert Le([f]) == f;
  }

  /** The number of the field, which is less than a byte, is large in host order. */
  lemma {:induction false} LargeInHost(f: Byte, n: nat)
    requires 0 < f && n >= 2
    ensures Import(Export(f, Big, n), Host) >= Pow2(8 * (n - 1))
  {
    hide Import;
    hide Pow2;
    hide Export;
    var z, e: seq<Byte> := Zeros(n - 1), [f];
    SingleByte(f, Big);
    SingleByte(f, Host);
    SetKeys.ImportAppend(z, e);
    HostAppend(z, e);
    SetKeys.ZeroBytes(Big, n - 1);
    SetKeys.ZeroBytes(Host, n - 1);
    ExportImport(z + e, Big);
    MulLe(Pow2(8 * (n - 1)), 1, f);
  }

  /** The mask of a field that goes on into the next byte keeps 256. */
  lemma {:induction false} MaskKeeps(len: nat, shift: nat)
    requires 0 < shift < 8 && len > 8 - shift
    ensures 0 < Pow2(8 - shift) < 256
    ensures NatBits(And, 256, Shl(Ones(len), shift)) == 256 && Shr(256, shift) == Pow2(8 - shift)
  {
    BytePower();
    Pow2Add(shift, 8 - shift);
    Pow2Strict(8 - shift, 8);
    Pow2Strict(8 - shift, len);
    hide Pow2;
    hide Bitwise;
    PowPositive(shift);
    MaskBlock(0, Pow2(8 - shift), shift, len);
    DivUnique(256, Pow2(shift), Pow2(8 - shift), 0);
  }

  /** Shifted as a number in host order these bytes are not those of the field. */
  lemma {:induction false} WrongByte(b: seq<Byte>, f: Byte, n: nat, shift: nat)
    requires |b| == n >= 2 && 0 < f && Import(b, Host) == Pow2(8 * (n - 2))
    ensures ShiftBytes(b, false, shift) != Export(f, Big, n)
  {
    hide Import;
    hide Export;
    LargeInHost(f, n);
    ShrBelow(Pow2(8 * (n - 2)), shift);
    Pow2Strict(8 * (n - 2), 8 * (n - 1));
    Pow2Monotone(8 * (n - 1), 8 * n);
    hide Pow2;
    ImportExport(Shr(Pow2(8 * (n - 2)), shift), Host, n);
  }

  /** A field over two bytes whose number is the lowest bit of the byte before the
      last one: what is shifted gets into the wrong byte. */
  lemma {:induction false} ShiftFails(offset: nat, len: nat, shift: nat) returns (p: seq<Byte>)
    requires 0 < shift < 8 && offset % 8 + len + shift == 8 * PayloadBits.Touched(offset, len)
    requires 2 <= PayloadBits.Touched(offset, len)
    ensures offset / 8 + PayloadBits.Touched(offset, len) <= |p| && offset + len <= 8 * |p|
    ensures ShiftedField(p, offset, len, shift) != Export(PacketBits.Field(p, offset, len), Big, PayloadBits.Touched(offset, len))
  {
    hide Import;
    hide Export;
    hide Pow2;
    hide NatBits;
    hide ShiftBytes;
    hide Shl;
    hide Shr;
    hide PacketBits.Field;
    var at, n := offset / 8, PayloadBits.Touched(offset, len);
    var b := SmallInHost(n);
    p := Zeros(at) + b;
    assert p[at..at + n] == b;
    MaskKeeps(len, shift);
    PayloadBits.ReadsField(p, PayloadBits.FieldRead(at, n, Shl(Ones(len), shift), shift), offset, len);
    ExportImport(b, Big);
    WrongByte(b, Pow2(8 - shift), n, shift);
  }

  /** The shift that is left reads the field in every packet if and only if the field
      is in one byte, or there is nothing to shift. */
  lemma {:induction false} NetworkShiftExact(offset: nat, len: nat, shift: nat)
    requires 0 < len && shift < 8 && offset % 8 + len + shift == 8 * PayloadBits.Touched(offset, len)
    ensures ShiftsRight(offset, len, shift) <==> PayloadBits.Touched(offset, len) == 1 || shift == 0
  {
    hide ShiftBytes;
    hide Export;
    hide Import;
    hide Pow2;
    hide Bitwise;
    hide PacketBits.Field;
    var at, n := offset / 8, PayloadBits.Touched(offset, len);
    if n == 1 || shift == 0 {
      forall p: seq<Byte> | at + n <= |p|
        ensures offset + len <= 8 * |p| && ShiftedField(p, offset, len, shift) == Export(PacketBits.Field(p, offset, len), Big, n)
      {
        PayloadBits.ReadsField(p, PayloadBits.FieldRead(at, n, Shl(Ones(len), shift), shift), offset, len);
        ExportImport(p[at..at + n], Big);
        AndFits(Import(p[at..at + n], Big), Shl(Ones(len), shift), 8 * n);
        SmallShift(NatBits(And, Import(p[at..at + n], Big), Shl(Ones(len), shift)), n, shift);
      }
    } else {
      var p := ShiftFails(offset, len, shift);
    }
  }
}
