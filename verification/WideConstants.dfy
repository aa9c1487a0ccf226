/** A right shift that is moved leaves a constant longer by the shift; with more bytes
    than the left side it is compared with what stands behind the left side in the
    registers (src/evaluate.c, src/netlink_linearize.c). */
module WideConstants {
  import opened Lengths
  import opened Arith
  import opened Bits
  import opened PowerOfTwo
  import opened BinopFold
  import opened Bytes
  import opened Machine
  import opened Terms
  import opened Linearize
  import opened Shortened
  import opened Rules
  import opened PrefixRules
  import opened FieldRules
  import Moved = BinopTransfer

  /* ---- What is compared ---- */

  /** Behind n bytes of a value: zeros to the end of its slots, then what the
      registers held before. */
  function Behind(regs: Regs, n: nat, k: nat): (s: seq<Byte>)
    requires n <= k <= SLOTS * SLOT_SIZE
    ensures |s| == k - n
  {
    var pad := PadLength(n);
    if k <= pad then Zeros(k - n) else Zeros(pad - n) + regs[pad..k]
  }

  lemma {:induction false} WrittenAndBehind(regs: Regs, s: seq<Byte>, k: nat)
    requires |s| <= k <= 16
    ensures Fits(NFT_REG_1, |s|) && Fits(NFT_REG_1, k)
    ensures Read(Write(regs, NFT_REG_1, s), NFT_REG_1, k) == s + Behind(regs, |s|, k)
  {
    hide Padded;
    var r := Write(regs, NFT_REG_1, s);
    var pad := PadLength(|s|);
    assert r == Padded(s) + regs[pad..];
    if k <= pad {
      PaddedPart(s, k);
      assert r[..k] == Padded(s)[..k];
    } else {
      PaddedPart(s, pad);
      assert r[..k] == Padded(s) + regs[pad..k];
    }
  }

  lemma {:induction false} PaddedPart(s: seq<Byte>, k: nat)
    requires |s| <= k <= PadLength(|s|)
    ensures Padded(s)[..k] == s + Zeros(k - |s|)
  {
  }

  lemma {:induction false} SeenAfter(r: Regs, regs: Regs, s: seq<Byte>, k: nat)
    requires |s| <= k <= 16 && Fits(NFT_REG_1, |s|) && SameBelow(r, Write(regs, NFT_REG_1, s), NFT_REG_1 + 4)
    ensures InPlace(r, s + Behind(regs, |s|, k))
  {
    hide Read;
    hide Write;
    hide SameBelow;
    hide Behind;
    WrittenAndBehind(regs, s, k);
    ReadBelow(r, Write(regs, NFT_REG_1, s), NFT_REG_1, k, NFT_REG_1 + 4);
  }

  /** Whether the statement goes on: its value and what is behind it are the bytes of
      the constant. */
  lemma {:induction false} WideRuns(t: Term, op: RelOp, v: nat, order: ByteOrder, len: nat, regs: Regs, w: World)
    requires WellTyped(t, w) && op in {Implicit, Eq, Neq} && 4 + Need(t) <= SLOTS
    requires ByteLen(TermLen(t)) <= ByteLen(len) <= 16
    ensures var s := Match(One(t), op, Const(v, order, len, false));
      var seen := TermImage(t, w) + Behind(regs, ByteLen(TermLen(t)), ByteLen(len));
      if Present(t, w) then Passes(Run(StmtCode(s), regs, w), (seen == Export(v, order, ByteLen(len))) == (op != Neq))
      else Run(StmtCode(s), regs, w) == NoMatch
  {
    hide Run;
    hide TermImage;
    hide Export;
    hide Memcmp;
    hide Read;
    hide Write;
    hide SameBelow;
    hide WellTyped;
    hide ExprCode;
    hide Behind;
    hide InPlace;
    hide Padded;
    var s := Match(One(t), op, Const(v, order, len, false));
    var k, n := ByteLen(len), ByteLen(TermLen(t));
    var tail := RelationTail(op, s.right, NFT_REG_1);
    assert FreeAfter(s) == NFT_REG_1 + 4 && Image(s.left, w) == TermImage(t, w);
    var r := LeftRuns(s.left, tail, NFT_REG_1 + 4, regs, w);
    if Present(t, w) {
      SeenAfter(r, regs, TermImage(t, w), k);
      var seen, data := TermImage(t, w) + Behind(regs, n, k), Export(v, order, k);
      CompareRuns(CmpOpOf(op), seen, data, r, w);
      MemcmpEqual(seen, data);
    }
  }

  /** In host order: the value is the low bytes of the constant, and its other bytes
      are behind the value. */
  lemma {:induction false} HostSplit(x: nat, v: nat, n: nat, k: nat, tail: seq<Byte>)
    requires x < Pow2(8 * n) && n <= k && |tail| == k - n
    ensures Export(x, Host, n) + tail == Export(v, Host, k)
      <==> x == v % Pow2(8 * n) && tail == Export(Shr(v, 8 * n), Host, k - n)
  {
    hide Pow2;
    hide LeBytes;
    LeBytesSplit(v, n, k);
    ExportInjective(x, v % Pow2(8 * n), Host, n);
    var a, b := Export(v % Pow2(8 * n), Host, n), Export(Shr(v, 8 * n), Host, k - n);
    assert Export(v, Host, k) == a + b;
    var s := Export(x, Host, n);
    assert (s + tail)[..n] == s && (s + tail)[n..] == tail && (a + b)[..n] == a && (a + b)[n..] == b;
  }

  /* ---- When that is the comparison of the numbers ---- */

  /** Right for every value of n bytes and all registers. */
  ghost predicate WideRight(v: nat, n: nat, k: nat)
    requires n <= k <= 16
  {
    forall x: nat, regs: Regs :: x < Pow2(8 * n) ==>
      (Export(x, Host, n) + Behind(regs, n, k) == Export(v, Host, k) <==> x == v)
  }

  /** The constant ends with the zeros that fill up the slots, or one of its bytes
      there is not zero. */
  predicate WideFits(v: nat, n: nat, k: nat)
  {
    k <= PadLength(n) || Shr(v, 8 * n) % Pow2(8 * (PadLength(n) - n)) != 0
  }

  lemma {:induction false} HighPart(v: nat, n: nat, k: nat)
    requires n <= k && v < Pow2(8 * k)
    ensures Shr(v, 8 * n) < Pow2(8 * (k - n))
    ensures Shr(v, 8 * n) == 0 <==> v < Pow2(8 * n)
  {
    Pow2Add(8 * n, 8 * (k - n));
    hide Pow2;
    QuotientBelow(v, Pow2(8 * n), Pow2(8 * (k - n)));
    SplitBy(v, Pow2(8 * n));
    if v < Pow2(8 * n) {
      DivUnique(v, Pow2(8 * n), 0, v);
    }
  }

  /** The first bytes of a number in host order are zero exactly if it ends with as
      many zero bits. */
  lemma {:induction false} ZerosFirst(h: nat, m: nat, k: nat)
    requires m <= k
    ensures Export(h, Host, k)[..m] == Zeros(m) <==> h % Pow2(8 * m) == 0
  {
    hide Pow2;
    hide LeBytes;
    LeBytesSplit(h, m, k);
    var a := Export(h % Pow2(8 * m), Host, m);
    assert Export(h, Host, k)[..m] == a;
    ExportZero(Host, m);
    PowPositive(8 * m);
    ExportInjective(h % Pow2(8 * m), 0, Host, m);
  }

  /** With zeros to the end. */
  lemma {:induction false} PaddedIsRight(x: nat, v: nat, n: nat, k: nat, regs: Regs)
    requires n <= k <= 16 && k <= PadLength(n) && v < Pow2(8 * k) && x < Pow2(8 * n)
    ensures Export(x, Host, n) + Behind(regs, n, k) == Export(v, Host, k) <==> x == v
  {
    hide Export;
    hide Pow2;
    hide Shr;
    HighPart(v, n, k);
    HostSplit(x, v, n, k, Behind(regs, n, k));
    ExportZero(Host, k - n);
    PowPositive(8 * (k - n));
    ExportInjective(0, Shr(v, 8 * n), Host, k - n);
    if v < Pow2(8 * n) {
      SmallModulo(v, Pow2(8 * n));
    }
  }

  /** With a byte that cannot be among the zeros. */
  lemma {:induction false} NeverSeen(x: nat, v: nat, n: nat, k: nat, regs: Regs)
    requires n <= k <= 16 && k > PadLength(n) && v < Pow2(8 * k) && x < Pow2(8 * n)
    requires Shr(v, 8 * n) % Pow2(8 * (PadLength(n) - n)) != 0
    ensures Export(x, Host, n) + Behind(regs, n, k) != Export(v, Host, k) && x != v
  {
    hide Export;
    hide Pow2;
    hide Shr;
    var m := PadLength(n) - n;
    HighPart(v, n, k);
    HostSplit(x, v, n, k, Behind(regs, n, k));
    ZerosFirst(Shr(v, 8 * n), m, k - n);
    assert Behind(regs, n, k)[..m] == Zeros(m);
    ZeroModulo(Pow2(8 * m));
  }

  lemma {:induction false} ZeroModulo(p: nat)
    requires 0 < p
    ensures 0 % p == 0
  {
  }

  /** Otherwise what the registers held before decides. */
  lemma {:induction false} StaleDecides(v: nat, n: nat, k: nat) returns (x: nat, regs: Regs)
    requires n <= k <= 16 && v < Pow2(8 * k) && !WideFits(v, n, k)
    ensures x < Pow2(8 * n) && x == v % Pow2(8 * n)
    ensures (Export(x, Host, n) + Behind(regs, n, k) == Export(v, Host, k)) != (x == v)
  {
    hide Export;
    hide Pow2;
    hide Shr;
    var pad, h := PadLength(n), Shr(v, 8 * n);
    var m := pad - n;
    HighPart(v, n, k);
    ZerosFirst(h, m, k - n);
    PowPositive(8 * n);
    var e := Export(h, Host, k - n);
    if h == 0 {
      x, regs := v, seq(64, i => if i == pad then 1 else 0);
      SmallModulo(v, Pow2(8 * n));
      ExportZero(Host, k - n);
      assert Behind(regs, n, k)[m] == 1;
      assert e[m] == 0;
      HostSplit(x, v, n, k, Behind(regs, n, k));
    } else {
      x := v % Pow2(8 * n);
      regs := Zeros(pad) + e[m..] + Zeros(64 - k);
      assert regs[pad..k] == e[m..];
      assert Behind(regs, n, k) == e[..m] + e[m..] == e;
      HostSplit(x, v, n, k, e);
    }
  }

  /** A longer constant in host order is compared right for all values and all
      registers if and only if it fits: if it has no more bytes than the slots of the
      value, or one of its bytes there cannot be met. */
  lemma {:induction false} WideExact(v: nat, n: nat, k: nat)
    requires n <= k <= 16 && v < Pow2(8 * k)
    ensures WideRight(v, n, k) <==> WideFits(v, n, k)
  {
    hide Export;
    hide Pow2;
    hide Shr;
    hide Behind;
    hide WideFits;
    if WideFits(v, n, k) {
      forall x: nat, regs: Regs | x < Pow2(8 * n)
        ensures Export(x, Host, n) + Behind(regs, n, k) == Export(v, Host, k) <==> x == v
      {
        FitsIsRight(x, v, n, k, regs);
      }
    } else {
      var x, regs := StaleDecides(v, n, k);
    }
  }

  lemma {:induction false} FitsIsRight(x: nat, v: nat, n: nat, k: nat, regs: Regs)
    requires n <= k <= 16 && v < Pow2(8 * k) && WideFits(v, n, k) && x < Pow2(8 * n)
    ensures Export(x, Host, n) + Behind(regs, n, k) == Export(v, Host, k) <==> x == v
  {
    hide Export;
    hide Pow2;
    hide Behind;
    if k <= PadLength(n) {
      PaddedIsRight(x, v, n, k, regs);
    } else {
      NeverSeen(x, v, n, k, regs);
    }
  }

  /** For a constant that the value can be equal to: the padding must reach. */
  lemma {:induction false} SmallFits(v: nat, n: nat, k: nat)
    requires n <= k <= 16 && v < Pow2(8 * n)
    ensures WideFits(v, n, k) <==> k <= PadLength(n)
  {
    hide Pow2;
    DivUnique(v, Pow2(8 * n), 0, v);
    PowPositive(8 * (PadLength(n) - n));
    ZeroModulo(Pow2(8 * (PadLength(n) - n)));
  }

  /* ---- Statements with a right shift that has been moved ---- */

  /** The statement that is left of a comparison of a shifted field with a constant c
      of cl bits. */
  function MovedStmt(f: Term, k: nat, op: RelOp, c: nat, cl: nat): Stmt
  {
    Match(One(Masked(f, k)), op, Const(Shl(c, k), TermOrder(f), cl + k, false))
  }

  /** It decides as the shifted field does, for every value of it and all registers. */
  ghost predicate AlwaysDecides(f: Term, k: nat, op: RelOp, c: nat, cl: nat, w: World)
    requires f.Field? && op in {Implicit, Eq, Neq}
  {
    forall x: nat, regs: Regs :: x < Pow2(8 * ByteLen(f.len)) ==> DecidesAt(f, k, op, c, cl, x, regs, w)
  }

  predicate DecidesAt(f: Term, k: nat, op: RelOp, c: nat, cl: nat, x: nat, regs: Regs, w: World)
    requires f.Field? && op in {Implicit, Eq, Neq}
  {
    Decides(Run(StmtCode(MovedStmt(f, k, op, c, cl)), regs, WithValue(w, f, x)), true, (Shr(x, k) == c) == (op != Neq))
  }

  lemma {:induction false} MultipleKept(c: nat, k: nat, m: nat)
    ensures Shl(Shr(Shl(c, k) % Pow2(m), k), k) == Shl(c, k) % Pow2(m)
  {
    if k <= m {
      Pow2Add(k, m - k);
      hide Pow2;
      var p, q := Pow2(k), Pow2(m - k);
      SplitBy(c, q);
      Dist(p, c % q, q * (c / q));
      Assoc(p, q, c / q);
      MulLess(p, c % q, q);
      MulLe(p, 0, c % q);
      DivUnique(Shl(c, k), p * q, c / q, p * (c % q));
      DivUnique(p * (c % q), p, c % q, 0);
    } else {
      Pow2Add(m, k - m);
      hide Pow2;
      Assoc(Pow2(m), Pow2(k - m), c);
      MulLe(Pow2(k - m), 0, c);
      DivUnique(Shl(c, k), Pow2(m), Pow2(k - m) * c, 0);
      DivUnique(0, Pow2(k), 0, 0);
    }
  }

  /** One value of the field. */
  lemma {:induction false} DecidesMeans(f: Term, k: nat, op: RelOp, c: nat, cl: nat, x: nat, regs: Regs, w: World)
    requires f.Field? && f.order == Host && 0 < f.len <= 128 && f.len % 8 == 0 && op in {Implicit, Eq, Neq}
    requires ByteLen(f.len) <= ByteLen(cl + k) <= 16 && x < Pow2(f.len)
    ensures var y, n, j := Shl(Shr(x, k), k), ByteLen(f.len), ByteLen(cl + k);
      Passes(Run(StmtCode(MovedStmt(f, k, op, c, cl)), regs, WithValue(w, f, x)),
        (Export(y, Host, n) + Behind(regs, n, j) == Export(Shl(c, k), Host, j)) == (op != Neq)) &&
      y < Pow2(8 * n) && (y == Shl(c, k) <==> Shr(x, k) == c) &&
      (DecidesAt(f, k, op, c, cl, x, regs, w) <==>
        ((Export(y, Host, n) + Behind(regs, n, j) == Export(Shl(c, k), Host, j)) <==> y == Shl(c, k)))
  {
    hide Run;
    hide StmtCode;
    hide Export;
    hide Import;
    hide Pow2;
    hide Shl;
    hide Shr;
    hide NatBits;
    hide WithValue;
    hide Behind;
    hide HasLength;
    hide ConstantsFit;
    hide WellTyped;
    var w', t, n := WithValue(w, f, x), Masked(f, k), ByteLen(f.len);
    assert 8 * n == f.len;
    FieldHolds(f, x, w);
    NoSteps(f);
    MaskedTyped(f, k, w');
    Moved.MaskForShift(x, f.len, k);
    ShlOrder(Shr(x, k), c, k);
    var y := Shl(Shr(x, k), k);
    assert Eval(t, w') == NatBits(And, Eval(f, w'), Shl(Ones(f.len), k)) == y;
    MaskStays(x, f.len, Shl(Ones(f.len), k));
    assert Need(f) == 0 && Need(t) == 0 && Present(t, w') == Present(f, w');
    assert TermImage(t, w') == Export(y, Host, n);
    WideRuns(t, op, Shl(c, k), Host, cl + k, regs, w');
  }

  lemma {:induction false} NoSteps(f: Term)
    requires f.Field?
    ensures Steps(f) == [] && ConstantsFit(Steps(f), f.len)
  {
  }

  lemma {:induction false} MaskStays(x: nat, len: nat, mask: nat)
    requires x < Pow2(len)
    ensures NatBits(And, x, mask) < Pow2(len)
  {
    AndFits(x, mask, len);
  }

  lemma {:induction false} ByteLenWhole(len: nat)
    requires len % 8 == 0
    ensures 8 * ByteLen(len) == len
  {
  }

  lemma {:induction false} FitsDecides(f: Term, k: nat, op: RelOp, c: nat, cl: nat, x: nat, regs: Regs, w: World)
    requires f.Field? && f.order == Host && 0 < f.len <= 128 && f.len % 8 == 0 && op in {Implicit, Eq, Neq}
    requires ByteLen(f.len) <= ByteLen(cl + k) <= 16 && Shl(c, k) < Pow2(8 * ByteLen(cl + k)) && x < Pow2(8 * ByteLen(f.len))
    requires WideFits(Shl(c, k), ByteLen(f.len), ByteLen(cl + k))
    ensures DecidesAt(f, k, op, c, cl, x, regs, w)
  {
    hide Export;
    hide Pow2;
    hide Shl;
    hide Shr;
    hide Behind;
    hide WideFits;
    hide DecidesAt;
    hide Run;
    hide StmtCode;
    hide ByteLen;
    ByteLenWhole(f.len);
    DecidesMeans(f, k, op, c, cl, x, regs, w);
    FitsIsRight(Shl(Shr(x, k), k), Shl(c, k), ByteLen(f.len), ByteLen(cl + k), regs);
  }

  lemma {:induction false} StaleMoved(f: Term, k: nat, op: RelOp, c: nat, cl: nat, w: World) returns (x: nat, regs: Regs)
    requires f.Field? && f.order == Host && 0 < f.len <= 128 && f.len % 8 == 0 && op in {Implicit, Eq, Neq}
    requires ByteLen(f.len) <= ByteLen(cl + k) <= 16 && Shl(c, k) < Pow2(8 * ByteLen(cl + k))
    requires !WideFits(Shl(c, k), ByteLen(f.len), ByteLen(cl + k))
    ensures x < Pow2(8 * ByteLen(f.len)) && !DecidesAt(f, k, op, c, cl, x, regs, w)
  {
    hide Export;
    hide Pow2;
    hide Shl;
    hide Shr;
    hide Behind;
    hide WideFits;
    hide DecidesAt;
    hide Run;
    hide StmtCode;
    hide ByteLen;
    ByteLenWhole(f.len);
    x, regs := StaleDecides(Shl(c, k), ByteLen(f.len), ByteLen(cl + k));
    MultipleKept(c, k, 8 * ByteLen(f.len));
    DecidesMeans(f, k, op, c, cl, x, regs, w);
  }

  /** After the shift of a field in host order has been moved, the statement decides
      right for all values and registers if and only if the longer constant fits. */
  lemma {:induction false} MovedWideExact(f: Term, k: nat, op: RelOp, c: nat, cl: nat, w: World)
    requires f.Field? && f.order == Host && 0 < f.len <= 128 && f.len % 8 == 0 && op in {Implicit, Eq, Neq}
    requires ByteLen(f.len) <= ByteLen(cl + k) <= 16 && c < Pow2(cl)
    ensures AlwaysDecides(f, k, op, c, cl, w) <==> WideFits(Shl(c, k), ByteLen(f.len), ByteLen(cl + k))
  {
    hide Pow2;
    hide Shl;
    hide DecidesAt;
    hide WideFits;
    hide ByteLen;
    var n, j, v := ByteLen(f.len), ByteLen(cl + k), Shl(c, k);
    ByteLenWhole(f.len);
    ShiftedBelow(c, cl, k);
    ByteLenPower(cl + k);
    if WideFits(v, n, j) {
      forall x: nat, regs: Regs | x < Pow2(8 * n)
        ensures DecidesAt(f, k, op, c, cl, x, regs, w)
      {
        FitsDecides(f, k, op, c, cl, x, regs, w);
      }
    } else {
      var x, regs := StaleMoved(f, k, op, c, cl, w);
    }
  }

  /** The mark 0x100 in its field. */
  lemma {:induction false} MarkHolds(key: nat, w: World)
    ensures 0x100 < Pow2(8 * ByteLen(32))
    ensures var f := Terms.Field(key, Host, 32);
      WithValue(w, f, 0x100).fields[key] == [0, 1, 0, 0] && Eval(f, WithValue(w, f, 0x100)) == 0x100
  {
    hide Export;
    hide Import;
    Powers();
    hide Pow2;
    BytesOf(0, 1, 0, 0, Host);
    ExportImport([0, 1, 0, 0], Host);
    FieldHolds(Terms.Field(key, Host, 32), 0x100, w);
  }

  lemma {:induction false} EightUp()
    ensures Shl(1, 8) == 0x100 && Shr(0x100, 8) == 1 && Shl(Shr(0x100, 8), 8) == 0x100
    ensures 0x100 % Pow2(32) == 0x100 && Shr(0x100, 32) == 0 && 0x100 < Pow2(32)
  {
    Powers();
    hide Pow2;
    DivUnique(0x100, 0x1_0000_0000, 0, 0x100);
  }

  /** A byte behind the mark that is not zero is not the fifth byte of the constant. */
  lemma {:induction false} StaleByte(regs: Regs)
    requires regs[4] != 0
    ensures Export(0x100, Host, 4) + Behind(regs, 4, 5) != Export(0x100, Host, 5)
  {
    hide Export;
    hide Behind;
    EightUp();
    hide Pow2;
    hide Shr;
    FirstBehind(regs);
    HostSplit(0x100, 0x100, 4, 5, Behind(regs, 4, 5));
    ExportZero(Host, 1);
    assert Zeros(1)[0] == 0 && [regs[4]][0] != 0;
  }

  /** meta mark >> 8 == 1, with the mark 0x100: if the first byte behind the mark in
      the registers is not zero, the rule does not match. */
  lemma {:induction false} MarkShiftFails(key: nat, regs: Regs, w: World)
    requires regs[4] != 0
    ensures var f := Terms.Field(key, Host, 32);
      var w' := WithValue(w, f, 0x100);
      && w'.fields[key] == [0, 1, 0, 0] && Shr(Eval(f, w'), 8) == 1
      && Run(StmtCode(MovedStmt(f, 8, Eq, 1, 32)), regs, w') == NoMatch
  {
    hide Run;
    hide StmtCode;
    hide Behind;
    hide Export;
    hide Import;
    hide Eval;
    hide WithValue;
    hide Pow2;
    hide Shl;
    hide Shr;
    hide MovedStmt;
    hide DecidesAt;
    var f := Terms.Field(key, Host, 32);
    MarkHolds(key, w);
    EightUp();
    assert ByteLen(32) == 4 && ByteLen(40) == 5;
    DecidesMeans(f, 8, Eq, 1, 32, 0x100, regs, w);
    StaleByte(regs);
  }

  lemma {:induction false} FirstBehind(regs: Regs)
    ensures Behind(regs, 4, 5) == [regs[4]]
  {
  }
}
