/** The instructions that netlink_linearize.c emits for an expression, and the
    proof that running them is evaluating the expression. */
module Linearize {
  import opened Lengths
  import opened Arith
  import opened Bits
  import opened PowerOfTwo
  import opened BinopFold
  import opened Bytes
  import opened Machine
  import opened Terms

  /** get_register: one 128-bit register, or the slots of a concatenation. */
  function Reserved(e: Expr): nat
  {
    if e.Concat? then PartsSpace(e.parts) else 4
  }

  function SwapSize(len: nat): nat
  {
    if len % 64 == 0 then 8 else if len % 32 == 0 then 4 else 2
  }

  /* ---- The emitted code; low is the first slot that is not in use ---- */

  function TermCode(t: Term, dreg: nat, low: nat): seq<Instr>
    decreases t, 0
  {
    var d := PutRegister(dreg);
    match t
    case Value(v, order, len) => [Immediate(d, Export(v, order, ByteLen(len)))]
    case Field(key, _, len) => [Load(key, d, ByteLen(len))]
    case Binop(_, left, _, _, _) => TermCode(Base(left), dreg, low) + [FoldInstr(t, d)]
    case Shift(toLeft, left, count, len) =>
      TermCode(left, dreg, low) + [BitwiseShift(d, d, ByteLen(len), toLeft, Export(count, Host, 4))]
    case Swap(_, arg) =>
      TermCode(arg, dreg, low) + [ByteOrderSwap(d, d, TermLen(arg) / 8, SwapSize(TermLen(arg)))]
    case Hash(input, params) =>
      ExprCode(input, low, low + Reserved(input))
      + [HashKey(PutRegister(low), d, ByteLen(ExprLen(input)), params)]
  }

  function FoldInstr(t: Term, d: nat): Instr
    requires t.Binop?
  {
    var n := ByteLen(t.len);
    BitwiseBool(d, d, n, Export(Abs(Mask(Steps(t), t.len)), t.order, n),
      Export(Abs(Flips(Steps(t), t.len)), t.order, n))
  }

  function ExprCode(e: Expr, dreg: nat, low: nat): seq<Instr>
    decreases e, 1
  {
    match e
    case One(t) => TermCode(t, dreg, low)
    case Concat(parts) => PartsCode(parts, dreg, low)
  }

  function PartsCode(parts: seq<Term>, dreg: nat, low: nat): seq<Instr>
    decreases parts, 1
  {
    if parts == [] then []
    else TermCode(parts[0], dreg, low) + PartsCode(parts[1..], dreg + Space(TermLen(parts[0])), low)
  }

  /** The slots that an expression takes above the ones in use, for the keys of
      the hashes inside. */
  function Need(t: Term): nat
    decreases t, 0
  {
    match t
    case Value(_, _, _) => 0
    case Field(_, _, _) => 0
    case Binop(_, left, _, _, _) => Need(left)
    case Shift(_, left, _, _) => Need(left)
    case Swap(_, arg) => Need(arg)
    case Hash(input, _) => Reserved(input) + ExprNeed(input)
  }

  function ExprNeed(e: Expr): nat
    decreases e, 1
  {
    match e
    case One(t) => Need(t)
    case Concat(parts) => PartsNeed(parts)
  }

  function PartsNeed(parts: seq<Term>): nat
    decreases parts, 1
  {
    if parts == [] then 0 else Max(Need(parts[0]), PartsNeed(parts[1..]))
  }

  function Max(a: nat, b: nat): nat
  {
    if a < b then b else a
  }

  /* ---- What it means that a run has computed an image ---- */

  /** The destination holds the image with zero padding and every other slot
      below low is as before; or something to load was missing. */
  predicate Computed(o: Outcome, present: bool, regs: Regs, dreg: nat, image: seq<Byte>, low: nat)
  {
    1 <= dreg <= low <= SLOTS + 1 && Fits(dreg, |image|) &&
    if present then o.Running? && SameBelow(o.regs, Write(regs, dreg, image), low) else o == NoMatch
  }

  /** An operand in place is read back. */
  lemma {:induction false} OperandRead(r: Regs, regs: Regs, dreg: nat, s: seq<Byte>, low: nat)
    requires 1 <= dreg && 1 <= low <= SLOTS + 1
    requires Fits(dreg, |s|) && Offset(dreg) + PadLength(|s|) <= Offset(low)
    requires SameBelow(r, Write(regs, dreg, s), low)
    ensures Read(r, dreg, |s|) == s
  {
    ReadBelow(r, Write(regs, dreg, s), dreg, |s|, low);
    WriteRead(regs, dreg, s);
  }

  /** One more instruction, which replaces the value in the destination. */
  lemma {:induction false} ThenReplace(code: seq<Instr>, i: Instr, present: bool, regs: Regs, dreg: nat,
      before: seq<Byte>, after: seq<Byte>, low: nat, w: World)
    requires 1 <= dreg && 1 <= low && |before| == |after|
    requires Computed(Run(code, regs, w), present, regs, dreg, before, low)
    requires Offset(dreg) + PadLength(|before|) <= Offset(low)
    requires var o := Run(code, regs, w);
      o.Running? && Read(o.regs, dreg, |before|) == before ==> Exec(i, o.regs, w) == Running(Write(o.regs, dreg, after))
    ensures Computed(Run(code + [i], regs, w), present, regs, dreg, after, low)
  {
    hide Run;
    hide Exec;
    hide Write;
    hide Read;
    hide SameBelow;
    RunAppend(code, [i], regs, w);
    if present {
      var r := Run(code, regs, w).regs;
      OperandRead(r, regs, dreg, before, low);
      RunOne(i, r, w);
      WriteBelow(r, Write(regs, dreg, before), dreg, after, low);
      WriteOver(regs, dreg, before, after);
    }
  }

  /* ---- The instructions compute what the expressions mean ---- */

  lemma {:induction false} IsShaped(t: Term, w: World)
    requires WellTyped(t, w)
    ensures Shaped(t, w)
  {
  }

  /** The innermost operand of a chain is like the chain in all that matters. */
  lemma {:induction false} BaseAlike(t: Term, w: World)
    requires Shaped(t, w)
    ensures WellTyped(Base(t), w) && TermOrder(Base(t)) == TermOrder(t)
    ensures ByteLen(TermLen(Base(t))) == ByteLen(TermLen(t))
    ensures Present(Base(t), w) == Present(t, w) && Need(Base(t)) == Need(t)
    ensures t.Binop? ==> ConstantsFit(Steps(t), t.len)
    decreases t
  {
    hide ConstantsFit;
    if t.Binop? {
      BaseAlike(t.left, w);
    }
  }

  /** The folded mask and exclusive-or act on the bytes as the chain does on the
      value. */
  lemma {:induction false} FoldedBytes(t: Term, w: World)
    requires t.Binop? && WellTyped(t, w)
    ensures var mask, flips := Mask(Steps(t), t.len), Flips(Steps(t), t.len);
      var n := ByteLen(t.len);
      |TermImage(Base(t), w)| == n &&
      ByteBits(Xor, ByteBits(And, TermImage(Base(t), w), Export(Abs(mask), t.order, n)),
        Export(Abs(flips), t.order, n)) == TermImage(t, w)
  {
    hide Bitwise;
    hide Export;
    hide Pow2;
    hide ByteLen;
    hide ConstantsFit;
    hide HasLength;
    hide Eval;
    BaseAlike(t, w);
    var x := Eval(Base(t), w);
    var n := ByteLen(t.len);
    FoldModulo(x, Steps(t), t.len);
    EvalIsNested(t, w);
    EvalFits(t, w);
    SmallModulo(Eval(t, w), Pow2(t.len));
    var mask, flips := Mask(Steps(t), t.len), Flips(Steps(t), t.len);
    ExportBitwise(And, x, mask, t.order, n);
    ExportBitwise(Xor, Bitwise(And, x, mask), flips, t.order, n);
  }

  lemma {:induction false} ShiftedBytes(t: Term, w: World)
    requires t.Shift? && WellTyped(t, w)
    ensures ShiftBytes(TermImage(t.left, w), t.toLeft, Import(Export(t.count, Host, 4), Host)) == TermImage(t, w)
  {
    hide Export;
    hide Import;
    hide Pow2;
    hide Shl;
    hide Shr;
    var n, v := ByteLen(t.len), Eval(t.left, w);
    ImportExport(t.count, Host, 4);
    EvalFits(t.left, w);
    ByteLenPower(t.len);
    ImportExport(v, Host, n);
    if t.toLeft {
      assert 8 * n == t.len;
      ExportModulo(Shl(v, t.count), n);
    }
  }

  /** Exporting drops what does not fit. */
  lemma {:induction false} ExportModulo(v: nat, n: nat)
    ensures Export(v, Host, n) == Export(v % Pow2(8 * n), Host, n)
  {
    hide Pow2;
    hide LeBytes;
    hide Shr;
    LeBytesSplit(v, n, n);
    assert |LeBytes(Shr(v, 8 * n), 0)| == 0;
  }

  lemma {:induction false} SwapOne(s: seq<Byte>)
    requires |s| > 0
    ensures SwapChunks(s, |s|) == Reversed(s)
  {
    assert s[..|s|] == s && s[|s|..] == [];
    assert SwapChunks(s[|s|..], |s|) == [];
  }

  lemma {:induction false} SwappedExport(v: nat, len: nat, toBig: bool)
    requires len == 16 || len == 32 || len == 64
    ensures SwapChunks(Export(v, if toBig then Host else Big, ByteLen(len)), SwapSize(len))
      == Export(v, if toBig then Big else Host, ByteLen(len))
  {
    hide SwapChunks;
    hide Export;
    hide Reversed;
    SwapOne(Export(v, if toBig then Host else Big, ByteLen(len)));
    ExportOtherOrder(v, ByteLen(len));
  }

  lemma {:induction false} SwappedBytes(t: Term, w: World)
    requires t.Swap? && WellTyped(t, w)
    ensures SwapChunks(TermImage(t.arg, w), SwapSize(TermLen(t.arg))) == TermImage(t, w)
  {
    hide SwapChunks;
    hide Export;
    hide Image;
    hide ExprWellTyped;
    SwappedExport(Eval(t.arg, w), TermLen(t.arg), t.toBig);
  }

  /** What can be said of each expression: at a destination of its own below
      low, and with enough slots above. */
  ghost predicate TermCorrect(t: Term, dreg: nat, low: nat, regs: Regs, w: World)
  {
    Computed(Run(TermCode(t, dreg, low), regs, w), Present(t, w), regs, dreg, TermImage(t, w), low)
  }

  ghost predicate ExprCorrect(e: Expr, dreg: nat, low: nat, regs: Regs, w: World)
  {
    Computed(Run(ExprCode(e, dreg, low), regs, w), ExprPresent(e, w), regs, dreg, Image(e, w), low)
  }

  lemma {:induction false} ValueRuns(t: Term, dreg: nat, low: nat, regs: Regs, w: World)
    requires t.Value?
    requires 1 <= dreg && dreg + Space(TermLen(t)) <= low <= SLOTS + 1 && 0 < TermLen(t)
    ensures TermCorrect(t, dreg, low, regs, w)
  {
    hide Run;
    hide Export;
    hide Write;
    hide Put;
    SpaceOfBytes(TermLen(t));
    var i := Immediate(PutRegister(dreg), TermImage(t, w));
    assert TermImage(t, w) == Export(t.value, t.order, ByteLen(t.len));
    assert TermCode(t, dreg, low) == [i];
    RunOne(i, regs, w);
    PutSlot(regs, dreg, TermImage(t, w));
  }

  lemma {:induction false} FieldRuns(t: Term, dreg: nat, low: nat, regs: Regs, w: World)
    requires t.Field?
    requires 1 <= dreg && dreg + Space(TermLen(t)) <= low <= SLOTS + 1 && 0 < TermLen(t)
    ensures TermCorrect(t, dreg, low, regs, w)
  {
    hide Run;
    hide Export;
    hide Import;
    hide Write;
    hide Put;
    SpaceOfBytes(TermLen(t));
    var i := Load(t.key, PutRegister(dreg), ByteLen(t.len));
    assert TermCode(t, dreg, low) == [i];
    RunOne(i, regs, w);
    if Present(t, w) {
      ExportImport(w.fields[t.key][..ByteLen(t.len)], t.order);
      assert TermImage(t, w) == w.fields[t.key][..ByteLen(t.len)];
      PutSlot(regs, dreg, TermImage(t, w));
    }
  }

  lemma {:induction false} FoldRuns(t: Term, dreg: nat, low: nat, regs: Regs, w: World)
    requires t.Binop? && WellTyped(t, w)
    requires 1 <= dreg && dreg + Space(TermLen(t)) <= low <= SLOTS + 1
    requires TermCorrect(Base(t), dreg, low, regs, w)
    ensures TermCorrect(t, dreg, low, regs, w)
  {
    hide Run;
    hide Exec;
    hide Export;
    hide TermImage;
    hide Write;
    hide Read;
    hide SameBelow;
    hide Mask;
    hide Flips;
    SpaceOfBytes(TermLen(t));
    BaseAlike(t, w);
    FoldedBytes(t, w);
    var o := Run(TermCode(Base(t), dreg, low), regs, w);
    if o.Running? {
      var i := FoldInstr(t, PutRegister(dreg));
      ExecBool(o.regs, dreg, i.mask, i.xor, w);
    }
    ThenReplace(TermCode(Base(t), dreg, low), FoldInstr(t, PutRegister(dreg)), Present(t, w), regs, dreg,
      TermImage(Base(t), w), TermImage(t, w), low, w);
  }

  lemma {:induction false} ShiftRuns(t: Term, dreg: nat, low: nat, regs: Regs, w: World)
    requires t.Shift? && WellTyped(t, w)
    requires 1 <= dreg && dreg + Space(TermLen(t)) <= low <= SLOTS + 1
    requires TermCorrect(t.left, dreg, low, regs, w)
    ensures TermCorrect(t, dreg, low, regs, w)
  {
    hide Run;
    hide Exec;
    hide Export;
    hide Import;
    hide TermImage;
    hide ShiftBytes;
    hide Write;
    hide Read;
    hide SameBelow;
    SpaceOfBytes(TermLen(t));
    ShiftedBytes(t, w);
    var code, d := TermCode(t.left, dreg, low), PutRegister(dreg);
    var i := BitwiseShift(d, d, ByteLen(t.len), t.toLeft, Export(t.count, Host, 4));
    var o := Run(code, regs, w);
    if o.Running? {
      ExecShift(o.regs, dreg, ByteLen(t.len), t.toLeft, i.data, w);
    }
    ThenReplace(code, i, Present(t, w), regs, dreg, TermImage(t.left, w), TermImage(t, w), low, w);
  }

  lemma {:induction false} SwapRuns(t: Term, dreg: nat, low: nat, regs: Regs, w: World)
    requires t.Swap? && WellTyped(t, w)
    requires 1 <= dreg && dreg + Space(TermLen(t)) <= low <= SLOTS + 1
    requires TermCorrect(t.arg, dreg, low, regs, w)
    ensures TermCorrect(t, dreg, low, regs, w)
  {
    hide Run;
    hide Exec;
    hide TermImage;
    hide SwapChunks;
    hide Write;
    hide Read;
    hide SameBelow;
    SpaceOfBytes(TermLen(t));
    SwappedBytes(t, w);
    var code, d := TermCode(t.arg, dreg, low), PutRegister(dreg);
    var n, size := TermLen(t.arg) / 8, SwapSize(TermLen(t.arg));
    assert n == ByteLen(TermLen(t.arg));
    var o := Run(code, regs, w);
    if o.Running? {
      ExecSwap(o.regs, dreg, n, size, w);
    }
    ThenReplace(code, ByteOrderSwap(d, d, n, size), Present(t, w), regs, dreg,
      TermImage(t.arg, w), TermImage(t, w), low, w);
  }

  /** The slots reserved for an expression hold its image. */
  lemma {:induction false} ReservedFits(e: Expr, w: World)
    requires ExprWellTyped(e, w)
    ensures 0 < Reserved(e) && Space(ExprLen(e)) <= Reserved(e)
  {
    match e
    case One(t) => assert Shaped(t, w);
    case Concat(parts) => assert WellTyped(parts[0], w) && Shaped(parts[0], w);
  }

  /** One more instruction, which takes the value above low and writes one below. */
  lemma {:induction false} ThenBelow(code: seq<Instr>, i: Instr, present: bool, regs: Regs, low: nat,
      key: seq<Byte>, high: nat, dreg: nat, s: seq<Byte>, w: World)
    requires 1 <= dreg <= low <= high
    requires Computed(Run(code, regs, w), present, regs, low, key, high)
    requires Offset(low) + PadLength(|key|) <= Offset(high)
    requires Fits(dreg, |s|) && Offset(dreg) + PadLength(|s|) <= Offset(low)
    requires var o := Run(code, regs, w);
      o.Running? && Read(o.regs, low, |key|) == key ==> Exec(i, o.regs, w) == Running(Write(o.regs, dreg, s))
    ensures Computed(Run(code + [i], regs, w), present, regs, dreg, s, low)
  {
    hide Run;
    hide Exec;
    hide Write;
    hide Read;
    hide SameBelow;
    hide PadLength;
    RunAppend(code, [i], regs, w);
    if present {
      var r := Run(code, regs, w).regs;
      OperandRead(r, regs, low, key, high);
      RunOne(i, r, w);
      ScratchLeaves(r, regs, low, key, dreg, s, high);
    }
  }

  lemma {:induction false} HashRuns(t: Term, dreg: nat, low: nat, regs: Regs, w: World)
    requires t.Hash? && WellTyped(t, w)
    requires 1 <= dreg && dreg + Space(TermLen(t)) <= low && low + Reserved(t.input) <= SLOTS + 1
    requires ExprCorrect(t.input, low, low + Reserved(t.input), regs, w)
    ensures TermCorrect(t, dreg, low, regs, w)
  {
    hide Run;
    hide Exec;
    hide Image;
    hide Export;
    hide Pow2;
    hide Write;
    hide Read;
    hide SameBelow;
    hide Reserved;
    hide ExprCode;
    var high := low + Reserved(t.input);
    var key := Image(t.input, w);
    assert PadLength(|key|) <= 4 * Reserved(t.input) && 0 < Reserved(t.input) by {
      ReservedFits(t.input, w);
      SpaceOfBytes(ExprLen(t.input));
    }
    var code := ExprCode(t.input, low, high);
    var i := HashKey(PutRegister(low), PutRegister(dreg), |key|, t.params);
    assert TermCode(t, dreg, low) == code + [i];
    assert TermImage(t, w) == Export(w.hash(t.params, key) % Pow2(32), Host, 4);
    var o := Run(code, regs, w);
    if o.Running? {
      ExecHash(o.regs, low, dreg, |key|, t.params, w);
    }
    ThenBelow(code, i, ExprPresent(t.input, w), regs, low, key, high, dreg, TermImage(t, w), w);
  }

  /** A value computed above low, and then one written below: below low only the
      second is seen. */
  lemma {:induction false} ScratchLeaves(r: Regs, regs: Regs, low: nat, key: seq<Byte>, dreg: nat, s: seq<Byte>, high: nat)
    requires 1 <= dreg <= low <= high <= SLOTS + 1 && Fits(low, |key|)
    requires SameBelow(r, Write(regs, low, key), high)
    requires Fits(dreg, |s|) && Offset(dreg) + PadLength(|s|) <= Offset(low)
    ensures SameBelow(Write(r, dreg, s), Write(regs, dreg, s), low)
  {
    hide Write;
    SameBelowLess(r, Write(regs, low, key), low, high);
    WriteAbove(regs, low, key, low);
    WriteBelow(r, regs, dreg, s, low);
  }

  /** What is inside a node is typed as well, and takes as much room. */
  lemma {:induction false} SubtermsTyped(t: Term, w: World)
    requires WellTyped(t, w)
    ensures 0 < TermLen(t) <= 128
    ensures t.Binop? ==> Base(t.left) == Base(t) && WellTyped(Base(t), w)
    ensures t.Binop? ==> Need(Base(t)) == Need(t) && Space(TermLen(Base(t))) == Space(TermLen(t))
    ensures t.Shift? ==> WellTyped(t.left, w) && Space(TermLen(t.left)) == Space(TermLen(t))
    ensures t.Swap? ==> WellTyped(t.arg, w)
    ensures t.Hash? ==> ExprWellTyped(t.input, w)
  {
    hide HasLength;
    hide ConstantsFit;
    assert Shaped(t, w);
    if t.Binop? {
      BaseAlike(t, w);
      SpaceOfBytes(TermLen(t));
      SpaceOfBytes(TermLen(Base(t)));
    }
  }

  /** Running what netlink_gen_expr emits for an expression leaves its value in
      the destination, in its byte order and with zero padding, changes no other
      slot below low, and stays within the sixteen slots. */
  lemma {:induction false} TermRuns(t: Term, dreg: nat, low: nat, regs: Regs, w: World)
    requires WellTyped(t, w)
    requires 1 <= dreg && dreg + Space(TermLen(t)) <= low && low + Need(t) <= SLOTS + 1
    ensures TermCorrect(t, dreg, low, regs, w)
    decreases t, 0
  {
    hide TermCorrect;
    hide ExprCorrect;
    hide TermCode;
    hide TermImage;
    SubtermsTyped(t, w);
    hide WellTyped;
    hide ExprWellTyped;
    hide Space;
    match t
    case Value(_, _, _) => ValueRuns(t, dreg, low, regs, w);
    case Field(_, _, _) => FieldRuns(t, dreg, low, regs, w);
    case Binop(_, left, _, _, _) =>
      TermRuns(Base(left), dreg, low, regs, w);
      FoldRuns(t, dreg, low, regs, w);
    case Shift(_, left, _, _) =>
      TermRuns(left, dreg, low, regs, w);
      ShiftRuns(t, dreg, low, regs, w);
    case Swap(_, arg) =>
      TermRuns(arg, dreg, low, regs, w);
      SwapRuns(t, dreg, low, regs, w);
    case Hash(input, _) =>
      ExprRuns(input, low, low + Reserved(input), regs, w);
      HashRuns(t, dreg, low, regs, w);
  }

  lemma {:induction false} ExprRuns(e: Expr, dreg: nat, low: nat, regs: Regs, w: World)
    requires ExprWellTyped(e, w)
    requires 1 <= dreg && dreg + Reserved(e) <= low && low + ExprNeed(e) <= SLOTS + 1
    ensures ExprCorrect(e, dreg, low, regs, w)
    decreases e, 1
  {
    match e
    case One(t) => TermRuns(t, dreg, low, regs, w);
    case Concat(parts) => PartsRuns(parts, dreg, low, regs, w);
  }

  ghost predicate PartsCorrect(parts: seq<Term>, dreg: nat, low: nat, regs: Regs, w: World)
  {
    Computed(Run(PartsCode(parts, dreg, low), regs, w), PartsPresent(parts, w), regs, dreg, PartsImage(parts, w), low)
  }

  lemma {:induction false} NoParts(dreg: nat, low: nat, regs: Regs, w: World)
    requires 1 <= dreg <= low <= SLOTS + 1
    ensures PartsCorrect([], dreg, low, regs, w)
  {
    assert PartsImage([], w) == [];
    assert Write(regs, dreg, []) == regs;
  }

  /** Two computations in a row, into neighbouring slots. */
  lemma {:induction false} ThenNext(code: seq<Instr>, next: seq<Instr>, present: bool, nextPresent: bool,
      regs: Regs, dreg: nat, first: seq<Byte>, rest: seq<Byte>, low: nat, w: World)
    requires 1 <= dreg <= low <= SLOTS + 1
    requires Offset(dreg) + PadLength(|first|) + PadLength(|rest|) <= Offset(low)
    requires Computed(Run(code, regs, w), present, regs, dreg, first, low)
    requires var o := Run(code, regs, w);
      o.Running? ==> Computed(Run(next, o.regs, w), nextPresent, o.regs, dreg + PadLength(|first|) / 4, rest, low)
    ensures Computed(Run(code + next, regs, w), present && nextPresent, regs, dreg, Padded(first) + rest, low)
  {
    hide Run;
    hide Padded;
    hide Write;
    hide SameBelow;
    var dreg' := dreg + PadLength(|first|) / 4;
    RunAppend(code, next, regs, w);
    PaddedTwice(first, rest);
    if present && nextPresent {
      var r := Run(code, regs, w).regs;
      WriteNext(regs, dreg, first, rest);
      WriteBelow(r, Write(regs, dreg, first), dreg', rest, low);
      SameBelowTwice(Run(next, r, w).regs, Write(r, dreg', rest), Write(Write(regs, dreg, first), dreg', rest), low);
    }
  }

  lemma {:induction false} AlignedPad(n: nat)
    ensures PadLength(4 * n) == 4 * n
  {
  }

  lemma {:induction false} MoreParts(parts: seq<Term>, dreg: nat, low: nat, regs: Regs, w: World)
    requires parts != []
    requires 1 <= dreg && dreg + PartsSpace(parts) <= low <= SLOTS + 1
    requires TermCorrect(parts[0], dreg, low, regs, w)
    requires var o := Run(TermCode(parts[0], dreg, low), regs, w);
      o.Running? ==> PartsCorrect(parts[1..], dreg + Space(TermLen(parts[0])), low, o.regs, w)
    ensures PartsCorrect(parts, dreg, low, regs, w)
  {
    hide Run;
    hide TermImage;
    hide TermCode;
    hide Present;
    hide Computed;
    hide Padded;
    hide PadLength;
    hide Space;
    SpaceOfBytes(TermLen(parts[0]));
    AlignedPad(PartsSpace(parts[1..]));
    ThenNext(TermCode(parts[0], dreg, low), PartsCode(parts[1..], dreg + Space(TermLen(parts[0])), low),
      Present(parts[0], w), PartsPresent(parts[1..], w), regs, dreg,
      TermImage(parts[0], w), PartsImage(parts[1..], w), low, w);
  }

  lemma {:induction false} SameBelowTwice(r: Regs, r': Regs, r'': Regs, low: nat)
    requires 1 <= low <= SLOTS + 1 && SameBelow(r, r', low) && SameBelow(r', r'', low)
    ensures SameBelow(r, r'', low)
  {
  }

  lemma {:induction false} PartsRuns(parts: seq<Term>, dreg: nat, low: nat, regs: Regs, w: World)
    requires PartsWellTyped(parts, w)
    requires 1 <= dreg && dreg + PartsSpace(parts) <= low && low + PartsNeed(parts) <= SLOTS + 1
    ensures PartsCorrect(parts, dreg, low, regs, w)
    decreases parts, 1
  {
    hide TermCorrect;
    hide PartsCorrect;
    if parts == [] {
      NoParts(dreg, low, regs, w);
    } else {
      TermRuns(parts[0], dreg, low, regs, w);
      var o := Run(TermCode(parts[0], dreg, low), regs, w);
      if o.Running? {
        PartsRuns(parts[1..], dreg + Space(TermLen(parts[0])), low, o.regs, w);
      }
      MoreParts(parts, dreg, low, regs, w);
    }
  }

  /* ---- Code that takes no further slots ---- */

  lemma {:induction false} SameTermCode(t: Term, dreg: nat, low: nat, low': nat, w: World)
    requires WellTyped(t, w) && Need(t) == 0
    ensures TermCode(t, dreg, low) == TermCode(t, dreg, low')
    decreases t
  {
    hide Export;
    match t
    case Value(_, _, _) =>
    case Field(_, _, _) =>
    case Binop(_, left, _, _, _) =>
      BaseAlike(t, w);
      SameTermCode(Base(left), dreg, low, low', w);
    case Shift(_, left, _, _) => SameTermCode(left, dreg, low, low', w);
    case Swap(_, arg) => SameTermCode(arg, dreg, low, low', w);
    case Hash(input, _) => ReservedFits(input, w);
  }

  lemma {:induction false} SamePartsCode(parts: seq<Term>, dreg: nat, low: nat, low': nat, w: World)
    requires PartsWellTyped(parts, w) && PartsNeed(parts) == 0
    ensures PartsCode(parts, dreg, low) == PartsCode(parts, dreg, low')
  {
    hide TermCode;
    if parts == [] {
    } else {
      SameTermCode(parts[0], dreg, low, low', w);
      SamePartsCode(parts[1..], dreg + Space(TermLen(parts[0])), low, low', w);
    }
  }

  /** Without a hash inside, the mark does not matter for the code. */
  lemma {:induction false} SameCode(e: Expr, dreg: nat, low: nat, low': nat, w: World)
    requires ExprWellTyped(e, w) && ExprNeed(e) == 0
    ensures ExprCode(e, dreg, low) == ExprCode(e, dreg, low')
  {
    match e
    case One(t) => SameTermCode(t, dreg, low, low', w);
    case Concat(parts) => SamePartsCode(parts, dreg, low, low', w);
  }
}
