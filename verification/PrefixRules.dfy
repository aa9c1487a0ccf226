/** Statements that compare prefixes: exactly when the compiled statement decides as
    it should for every value of the field it loads, and two at which it does not. */
module PrefixRules {
  import opened Lengths
  import opened Arith
  import opened Bits
  import opened PowerOfTwo
  import opened BinopFold
  import opened BitTests
  import opened Bytes
  import opened Machine
  import opened Terms
  import opened Linearize
  import opened Shortened
  import opened PrefixExact
  import opened Rules

  /* ---- Every value of a field ---- */

  /** The world in which a field holds a number. */
  function WithValue(w: World, f: Term, x: nat): World
    requires f.Field?
  {
    w.(fields := w.fields[f.key := Export(x, f.order, ByteLen(f.len))])
  }

  lemma {:induction false} FieldHolds(f: Term, x: nat, w: World)
    requires f.Field? && 0 < f.len <= 128 && x < Pow2(8 * ByteLen(f.len))
    ensures var w' := WithValue(w, f, x);
      Eval(f, w') == x && WellTyped(f, w') && Present(f, w') && WholeField(f, w')
    ensures x < Pow2(f.len) ==> HasLength(f, WithValue(w, f, x))
  {
    hide Export;
    hide Import;
    hide Pow2;
    ImportExport(x, f.order, ByteLen(f.len));
    var w' := WithValue(w, f, x);
    assert w'.fields[f.key][..ByteLen(f.len)] == Export(x, f.order, ByteLen(f.len));
  }

  /** What a chain over a field is like does not depend on the packet. */
  lemma {:induction false} ShapedAnyway(t: Term, w: World, w': World)
    requires Shaped(t, w) && Base(t).Field?
    ensures Shaped(t, w')
    ensures HasLength(t, w) && (Cuts(t) || HasLength(Base(t), w')) ==> HasLength(t, w')
    decreases t
  {
    hide ConstantsFit;
    hide Import;
    hide Pow2;
    if t.Binop? {
      ShapedAnyway(t.left, w, w');
    }
  }

  /** What is typed with one value of the field is typed with every other. */
  lemma {:induction false} StaysTyped(t: Term, x: nat, w: World)
    requires WellTyped(t, w) && Operand(t).Field? && x < Pow2(Room(t))
    ensures var w' := WithValue(w, Operand(t), x);
      WellTyped(t, w') && Present(t, w') && WholeField(t, w') && Eval(Operand(t), w') == x
  {
    hide Export;
    hide Import;
    hide Pow2;
    hide Eval;
    hide HasLength;
    hide ConstantsFit;
    hide Cuts;
    OnlyChainsCut(t);
    OperandAlike(t, w);
    IsShaped(Operand(t), w);
    RoomInBytes(t, w);
    Pow2Monotone(Room(t), 8 * ByteLen(TermLen(t)));
    FieldHolds(Operand(t), x, w);
    var w' := WithValue(w, Operand(t), x);
    match t
    case Field(_, _, _) =>
    case Binop(_, left, _, _, _) =>
      IsShaped(t, w);
      ShapedAnyway(t, w, w');
      ChainPresent(t, w');
    case Shift(_, _, _, _) =>
    case Swap(_, _) =>
    case _ =>
  }

  lemma {:induction false} ChainPresent(t: Term, w: World)
    ensures Present(t, w) == Present(Base(t), w)
  {
    if t.Binop? {
      ChainPresent(t.left, w);
    }
  }

  /** The statement is typed and the emitted comparison agrees, with this value. */
  predicate AgreesAt(s: Stmt, w: World, x: nat)
    requires s.Match? && s.left.One? && Operand(s.left.term).Field?
  {
    var w' := WithValue(w, Operand(s.left.term), x);
    StmtTyped(s, w') && Generates(s) && PrefixAgrees(s, w')
  }

  ghost predicate AgreesAlways(s: Stmt, w: World)
    requires s.Match? && s.left.One? && Operand(s.left.term).Field?
  {
    forall x: nat :: x < Pow2(Room(s.left.term)) ==> AgreesAt(s, w, x)
  }

  predicate ShortStmt(s: Stmt, w: World)
  {
    && StmtTyped(s, w) && s.Match? && s.right.Prefix? && Truncates(s.right)
    && s.left.One? && Operand(s.left.term).Field?
  }

  lemma {:induction false} AgreesMeans(s: Stmt, w: World, x: nat)
    requires ShortStmt(s, w) && x < Pow2(Room(s.left.term))
    ensures var t, right := s.left.term, s.right;
      0 < right.prefixLen && WellTyped(t, w) && ByteLen(right.len) == ByteLen(TermLen(t)) &&
      (AgreesAt(s, w, x) <==>
        ShortTest(t, right.prefixLen, right.value, x)
          == SameLead(ValueOf(t, x), right.value, right.len, right.prefixLen, right.text && right.order == Host))
  {
    hide Export;
    hide Pow2;
    hide Eval;
    hide ShortTest;
    hide SameLead;
    hide WithValue;
    var t := s.left.term;
    ImageNotEmpty(s.left, w);
    StaysTyped(t, x, w);
    var w' := WithValue(w, Operand(t), x);
    ImageNotEmpty(s.left, w');
    ValueOfOperand(t, w');
    assert StmtTyped(s, w');
  }

  /** A comparison with a prefix of whole bytes, over a field or one operation on it,
      decides as it should for every value of the field if and only if the emitted
      test of its bits is the one that is meant. */
  lemma {:induction false} ShortStmtExact(s: Stmt, w: World)
    requires ShortStmt(s, w)
    ensures 0 < s.right.prefixLen && ByteLen(s.right.len) == ByteLen(TermLen(s.left.term))
    ensures AgreesAlways(s, w) <==>
      ShortSame(s.left.term, s.right.prefixLen, s.right.value, s.right.len, s.right.text && s.right.order == Host)
  {
    hide Pow2;
    hide ShortTest;
    hide SameLead;
    hide AgreesAt;
    hide ShortSame;
    var t, right := s.left.term, s.right;
    var low := right.text && right.order == Host;
    ImageNotEmpty(s.left, w);
    assert ByteLen(right.len) == ByteLen(TermLen(t));
    forall x: nat | x < Pow2(Room(t))
      ensures AgreesAt(s, w, x) <==>
        ShortTest(t, right.prefixLen, right.value, x) == SameLead(ValueOf(t, x), right.value, right.len, right.prefixLen, low)
    {
      AgreesMeans(s, w, x);
    }
    ShortExact(t, right.prefixLen, right.value, right.len, low, w);
  }

  /** Over a plain field: whole bytes in network order, a string, or all of it. */
  lemma {:induction false} FieldStmtExact(s: Stmt, w: World)
    requires ShortStmt(s, w) && s.left.term.Field? && s.left.term.len == s.right.len
    ensures AgreesAlways(s, w) <==>
      PlainFits(s.right.order, s.right.len, s.right.prefixLen, s.right.text && s.right.order == Host)
  {
    hide Pow2;
    hide AgreesAlways;
    hide ShortSame;
    hide ShortRight;
    var t, right := s.left.term, s.right;
    var low := right.text && right.order == Host;
    ShortStmtExact(s, w);
    ImageNotEmpty(s.left, w);
    ShortExact(t, right.prefixLen, right.value, right.len, low, w);
    PlainExact(t.order, t.key, t.len, right.prefixLen, right.value, low);
  }

  /** Prefixes of some bits of a type of whole bytes always agree. */
  lemma {:induction false} MaskStmtAgrees(s: Stmt, w: World)
    requires StmtTyped(s, w) && Generates(s) && s.Match? && s.right.Prefix? && !Truncates(s.right) && s.right.len % 8 == 0
    ensures PrefixAgrees(s, w)
  {
    hide Pow2;
    hide Eval;
    hide Image;
    hide Export;
    hide MaskTest;
    hide SameLead;
    if ExprPresent(s.left, w) {
      ImageNotEmpty(s.left, w);
      LeftFits(s.right.value, s.right.order, s.right.len, s.left, w);
      assert 8 * ByteLen(s.right.len) == s.right.len;
      WholeBytesRight(s.right.order, s.right.len, s.right.prefixLen, s.right.value, Eval(s.left.term, w));
    }
  }

  /* ---- Two statements that do not decide as they should ---- */

  lemma {:induction false} Powers()
    ensures Pow2(8) == 0x100 && Pow2(16) == 0x1_0000 && Pow2(24) == 0x100_0000 && Pow2(32) == 0x1_0000_0000
  {
    BytePower();
    Pow2Add(8, 8);
    Pow2Add(8, 16);
    Pow2Add(16, 16);
  }

  /** ip saddr & 255.255.0.0 == 10.0.0.0/8 */
  function MaskedSource(key: nat): Stmt
  {
    Match(One(Binop(And, Field(key, Big, 32), 0xffff_0000, Big, 32)), Eq, Prefix(0x0a00_0000, Big, 32, 8, false))
  }

  /** The folded mask is cut to the eight bits of the prefix, the low ones. */
  lemma {:induction false} MaskedSourceFold(key: nat)
    ensures var t := MaskedSource(key).left.term;
      Steps(t) == [Step(And, 0xffff_0000)] && Mask(Steps(t), 8) == 0 && Flips(Steps(t), 8) == 0
  {
    hide Bitwise;
    var t := MaskedSource(key).left.term;
    assert Steps(t.left) == [];
    assert Steps(t) == [Step(And, 0xffff_0000)];
    assert Steps(t)[..0] == [];
    Powers();
    BitwiseCommutes(And, Ones(8), 0xffff_0000);
    LowBits(0xffff_0000, 8);
    BitwiseCommutes(And, 0, 0xffff_0000);
    BitwiseConstant(And, 0xffff_0000);
    BitwiseConstant(Xor, 0);
  }

  lemma {:induction false} MaskedSourceValue(x: nat)
    requires x == 0x0a01_0203
    ensures NatBits(And, x, 0xffff_0000) == 0x0a01_0000
  {
    hide Bitwise;
    Powers();
    MaskBlock(0x0203, 0x0a01, 16, 16);
    assert x == 0x0203 + Pow2(16) * 0x0a01 && 0xffff_0000 == Pow2(16) * Ones(16);
  }

  lemma {:induction false} BytesOf(a: Byte, b: Byte, c: Byte, d: Byte, order: ByteOrder)
    ensures Import([a, b, c, d], order) == if order == Big then d + 256 * (c + 256 * (b + 256 * a)) else a + 256 * (b + 256 * (c + 256 * d))
  {
    assert Reversed([a, b, c, d]) == [d, c, b, a];
    LeOfFour(a, b, c, d);
    LeOfFour(d, c, b, a);
  }

  lemma {:induction false} LeOfFour(a: Byte, b: Byte, c: Byte, d: Byte)
    ensures Le([a, b, c, d]) == a + 256 * (b + 256 * (c + 256 * d))
  {
    assert [a, b, c, d][1..] == [b, c, d] && [b, c, d][1..] == [c, d] && [c, d][1..] == [d] && [d][1..] == [];
    assert Le([d]) == d;
    assert Le([c, d]) == c + 256 * d;
  }

  lemma {:induction false} MaskedSourceTyped(key: nat, w: World)
    requires key in w.fields && w.fields[key] == [10, 1, 2, 3]
    ensures var s := MaskedSource(key);
      && StmtTyped(s, w) && Generates(s) && StmtNeed(s) <= SLOTS && ExprPresent(s.left, w)
      && ChainShape(s.left.term, 8, w) && Eval(Operand(s.left.term), w) == 0x0a01_0203
  {
    hide Import;
    hide Bitwise;
    Powers();
    BytesOf(10, 1, 2, 3, Big);
    hide Pow2;
    var s := MaskedSource(key);
    var t := s.left.term;
    var f := t.left;
    assert ByteLen(32) == 4 && w.fields[key][..4] == [10, 1, 2, 3];
    assert Eval(f, w) == 0x0a01_0203;
    assert WellTyped(f, w) && Present(f, w);
    assert Steps(f) == [] && Base(f) == f && Base(t) == f;
    assert |Steps(t)| == 1;
    assert Need(f) == 0 && Need(t) == 0 && ExprNeed(s.left) == 0;
    assert WellTyped(t, w) && Present(t, w);
    assert ExprWellTyped(s.left, w);
    assert 0x0a00_0000 % 0x100_0000 == 0;
    assert RelationTyped(s.op, s.left, s.right, w);
  }

  lemma {:induction false} NoWord(n: nat)
    requires n > 0
    ensures RawNumber(0, Big, n) == 0
  {
  }

  /** What is emitted compares nothing of the address with 10; what is meant holds. */
  lemma {:induction false} MaskedSourceTest(key: nat, x: nat, w: World)
    requires x == 0x0a01_0203 && ChainShape(MaskedSource(key).left.term, 8, w)
    ensures x < Pow2(32) && 0x0a00_0000 < Pow2(32)
    ensures !ShortTest(MaskedSource(key).left.term, 8, 0x0a00_0000, x)
  {
    hide Bitwise;
    hide WellTyped;
    hide ShortTest;
    var t := MaskedSource(key).left.term;
    MaskedSourceFold(key);
    Powers();
    hide Pow2;
    ChainShort(t, 8, 0x0a00_0000, x, w);
    BitwiseConstant(And, Shr(x, 24));
    BitwiseConstant(Xor, 0);
    NoWord(1);
    assert Abs(0) == 0;
    assert ByteLen(8) == 1 && Mask(Steps(t), 8) == 0 && Flips(Steps(t), 8) == 0;
    assert ShortMask(t, 8) == 0 && ShortFlips(t, 8) == 0;
    assert Shr(0x0a00_0000, 24) == 10;
  }

  lemma {:induction false} MaskedSourceMeant(key: nat, x: nat)
    requires x == 0x0a01_0203
    ensures ValueOf(MaskedSource(key).left.term, x) == 0x0a01_0000
    ensures SamePrefix(0x0a01_0000, MaskedSource(key).right)
  {
    hide Bitwise;
    var t := MaskedSource(key).left.term;
    MaskedSourceValue(x);
    assert ChainValue(t.left, x) == x && ChainValue(t, x) == NatBits(And, x, 0xffff_0000);
    Powers();
    assert Shr(0x0a00_0000, 24) == 10 && Shr(0x0a01_0000, 24) == 10;
  }

  /** From 10.1.2.3 it does not match, although the source with its mask is in the
      prefix: the rule compares 0 with 10. */
  lemma {:induction false} MaskedSourceFails(key: nat, regs: Regs, w: World)
    requires key in w.fields && w.fields[key] == [10, 1, 2, 3]
    ensures var s := MaskedSource(key);
      && StmtTyped(s, w) && Generates(s)
      && Judge(s, w) == GoOn && Run(StmtCode(s), regs, w) == NoMatch
  {
    hide Bitwise;
    hide Export;
    hide Import;
    hide Run;
    hide Eval;
    hide Pow2;
    hide ShortTest;
    hide ValueOf;
    var s, x := MaskedSource(key), 0x0a01_0203;
    var t := s.left.term;
    MaskedSourceTyped(key, w);
    MaskedSourceTest(key, x, w);
    MaskedSourceMeant(key, x);
    ValueOfOperand(t, w);
    assert Eval(t, w) == 0x0a01_0000;
    assert SamePrefix(Eval(t, w), s.right);
    assert !PrefixAgrees(s, w);
    MatchRuns(s, regs, w);
  }

  /** meta mark 0x10000000/8, in host order */
  function MarkPrefix(key: nat): Stmt
  {
    Match(One(Field(key, Host, 32)), Eq, Prefix(0x1000_0000, Host, 32, 8, false))
  }

  /** With the mark 0x10000001 it does not match: the lowest byte is compared, with 0. */
  lemma {:induction false} MarkPrefixFails(key: nat, regs: Regs, w: World)
    requires key in w.fields && w.fields[key] == [1, 0, 0, 0x10]
    ensures var s := MarkPrefix(key);
      && StmtTyped(s, w) && Generates(s)
      && Judge(s, w) == GoOn && Run(StmtCode(s), regs, w) == NoMatch
  {
    hide Export;
    hide Import;
    hide Run;
    var s, x := MarkPrefix(key), 0x1000_0001;
    var t := s.left.term;
    Powers();
    BytesOf(1, 0, 0, 0x10, Host);
    assert w.fields[key][..4] == [1, 0, 0, 0x10];
    assert WellTyped(t, w) && Eval(t, w) == x && Present(t, w);
    assert Need(t) == 0 && ExprNeed(s.left) == 0;
    assert ExprWellTyped(s.left, w);
    assert 0x1000_0000 % 0x100_0000 == 0;
    assert RelationTyped(s.op, s.left, s.right, w);
    PlainShort(Host, key, 32, 8, 0x1000_0000, x);
    assert !ShortTest(t, 8, 0x1000_0000, x);
    assert Shr(0x1000_0000, 24) == 16 && Shr(x, 24) == 16;
    assert SamePrefix(Eval(t, w), s.right);
    assert !PrefixAgrees(s, w);
    MatchRuns(s, regs, w);
  }
}
