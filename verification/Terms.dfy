/** Expressions of a rule after evaluation, and what they mean directly: the
    number an expression stands for, and the bytes that hold it. */
module Terms {
  import opened Lengths
  import opened Arith
  import opened Bits
  import opened PowerOfTwo
  import opened BinopFold
  import opened Bytes
  import opened Machine

  /** Expressions of at most one 128-bit register; order and len are those of
      the node, a shift is done in host order. */
  datatype Term =
    | Value(value: nat, order: ByteOrder, len: nat)
    | Field(key: nat, order: ByteOrder, len: nat)
    | Binop(op: BitOp, left: Term, right: nat, order: ByteOrder, len: nat)
    | Shift(toLeft: bool, left: Term, count: nat, len: nat)
    | Swap(toBig: bool, arg: Term)
    | Hash(input: Expr, params: HashParams)

  datatype Expr = One(term: Term) | Concat(parts: seq<Term>)

  function TermLen(t: Term): nat
  {
    match t
    case Value(_, _, len) => len
    case Field(_, _, len) => len
    case Binop(_, _, _, _, len) => len
    case Shift(_, _, _, len) => len
    case Swap(_, arg) => TermLen(arg)
    case Hash(_, _) => 32
  }

  function TermOrder(t: Term): ByteOrder
  {
    match t
    case Value(_, order, _) => order
    case Field(_, order, _) => order
    case Binop(_, _, _, order, _) => order
    case Shift(_, _, _, _) => Host
    case Swap(toBig, _) => if toBig then Big else Host
    case Hash(_, _) => Host
  }

  /* ---- Direct evaluation ---- */

  function Eval(t: Term, w: World): nat
    decreases t, 0
  {
    match t
    case Value(v, _, _) => v
    case Field(key, order, len) =>
      if HasField(key, len, w) then Import(w.fields[key][..ByteLen(len)], order) else 0
    case Binop(op, left, right, _, _) => NatBits(op, Eval(left, w), right)
    case Shift(toLeft, left, count, len) =>
      if toLeft then Shl(Eval(left, w), count) % Pow2(len) else Shr(Eval(left, w), count)
    case Swap(_, arg) => Eval(arg, w)
    case Hash(input, params) => w.hash(params, Image(input, w)) % Pow2(32)
  }

  predicate HasField(key: nat, len: nat, w: World)
  {
    key in w.fields && ByteLen(len) <= |w.fields[key]|
  }

  function TermImage(t: Term, w: World): (s: seq<Byte>)
    ensures |s| == ByteLen(TermLen(t))
    decreases t, 1
  {
    Export(Eval(t, w), TermOrder(t), ByteLen(TermLen(t)))
  }

  lemma {:induction false} SpaceOfBytes(len: nat)
    ensures PadLength(ByteLen(len)) == 4 * Space(len)
  {
  }

  /** The bytes of an expression: a concatenation pads every part to full slots. */
  function Image(e: Expr, w: World): (s: seq<Byte>)
    ensures |s| == ByteLen(ExprLen(e))
    decreases e, 2
  {
    match e
    case One(t) => TermImage(t, w)
    case Concat(parts) => PartsImage(parts, w)
  }

  function PartsImage(parts: seq<Term>, w: World): (s: seq<Byte>)
    ensures |s| == 4 * PartsSpace(parts)
    decreases parts, 2
  {
    if parts == [] then []
    else
      SpaceOfBytes(TermLen(parts[0]));
      Padded(TermImage(parts[0], w)) + PartsImage(parts[1..], w)
  }

  function PartsSpace(parts: seq<Term>): nat
  {
    if parts == [] then 0 else Space(TermLen(parts[0])) + PartsSpace(parts[1..])
  }

  /** The length of a concatenation is that of its padded parts. */
  function ExprLen(e: Expr): nat
  {
    match e
    case One(t) => TermLen(t)
    case Concat(parts) => 32 * PartsSpace(parts)
  }

  /** Whether everything that the expression loads is there. */
  predicate Present(t: Term, w: World)
    decreases t, 0
  {
    match t
    case Value(_, _, _) => true
    case Field(key, _, len) => HasField(key, len, w)
    case Binop(_, left, _, _, _) => Present(left, w)
    case Shift(_, left, _, _) => Present(left, w)
    case Swap(_, arg) => Present(arg, w)
    case Hash(input, _) => ExprPresent(input, w)
  }

  predicate ExprPresent(e: Expr, w: World)
    decreases e, 1
  {
    match e
    case One(t) => Present(t, w)
    case Concat(parts) => PartsPresent(parts, w)
  }

  predicate PartsPresent(parts: seq<Term>, w: World)
    decreases parts, 1
  {
    parts == [] || (Present(parts[0], w) && PartsPresent(parts[1..], w))
  }

  /* ---- Widths and byte orders that evaluation has established ---- */

  /** The operations of a chain of bit operations, innermost first, and the
      expression they start from. */
  function Steps(t: Term): seq<Step>
  {
    if t.Binop? then Steps(t.left) + [Step(t.op, t.right)] else []
  }

  function Base(t: Term): (b: Term)
    ensures !b.Binop?
    ensures b == t || b < t
  {
    if t.Binop? then Base(t.left) else t
  }

  /** The generator keeps the nodes of a chain in an array of 16. */
  const CHAIN_MAX: nat := 15

  /** Somewhere in the chain a mask cuts the value to the length that the nodes have
      from there on, whatever is loaded. */
  predicate Cuts(t: Term)
  {
    t.Binop? &&
    ((t.op == And && t.right < Pow2(t.len)) || (TermLen(t.left) <= t.len && Cuts(t.left)))
  }

  /** The value of a node has its length: of a chain because a mask cuts it or its
      operand has the length, of a field alone if the bytes hold no more. */
  predicate HasLength(t: Term, w: World)
  {
    match t
    case Field(key, order, len) =>
      HasField(key, len, w) ==> Import(w.fields[key][..ByteLen(len)], order) < Pow2(len)
    case Binop(op, left, right, _, len) =>
      (op == And && right < Pow2(len)) || (TermLen(left) <= len && HasLength(left, w))
    case _ => true
  }

  /** What the parts of a node are like.  A field may be shorter than the bytes that
      are loaded for it, a mask wider than its node. */
  predicate Shaped(t: Term, w: World)
    decreases t, 0
  {
    && 0 < TermLen(t) <= 128
    && match t
       case Value(v, _, len) => v < Pow2(len)
       case Field(_, _, _) => true
       case Binop(_, left, _, order, len) =>
         && Shaped(left, w) && TermOrder(left) == order && ByteLen(TermLen(left)) == ByteLen(len)
         && ConstantsFit(Steps(t), len) && |Steps(t)| <= CHAIN_MAX
       case Shift(toLeft, left, count, len) =>
         && WellTyped(left, w) && HasLength(left, w) && TermOrder(left) == Host && TermLen(left) == len
         && (toLeft ==> len % 8 == 0) && count < Pow2(32)
       case Swap(toBig, arg) =>
         && WellTyped(arg, w) && TermOrder(arg) == (if toBig then Host else Big)
         && (TermLen(arg) == 16 || TermLen(arg) == 32 || TermLen(arg) == 64)
       case Hash(input, _) => ExprWellTyped(input, w)
  }

  /** And the value of a chain has its length. */
  predicate WellTyped(t: Term, w: World)
    decreases t, 1
  {
    Shaped(t, w) && (t.Binop? ==> HasLength(t, w))
  }

  predicate ExprWellTyped(e: Expr, w: World)
    decreases e, 2
  {
    match e
    case One(t) => WellTyped(t, w)
    case Concat(parts) => parts != [] && PartsWellTyped(parts, w)
  }

  predicate PartsWellTyped(parts: seq<Term>, w: World)
    decreases parts, 2
  {
    parts == [] || (WellTyped(parts[0], w) && PartsWellTyped(parts[1..], w))
  }

  /* ---- Values fit their width ---- */

  lemma {:induction false} ByteLenPower(len: nat)
    ensures Pow2(len) <= Pow2(8 * ByteLen(len))
  {
    Pow2Monotone(len, 8 * ByteLen(len));
  }

  lemma {:induction false} LastStep(t: Term)
    requires t.Binop?
    ensures var steps := Steps(t);
      |steps| > 0 && steps[|steps| - 1] == Step(t.op, t.right) && steps[..|steps| - 1] == Steps(t.left)
  {
  }

  lemma {:induction false} LastFits(t: Term, len: nat)
    requires t.Binop? && ConstantsFit(Steps(t), len)
    ensures ConstantFits(Step(t.op, t.right), len)
  {
    LastStep(t);
  }

  /** The value of every node has its bytes. */
  lemma {:induction false} EvalBytes(t: Term, w: World)
    requires Shaped(t, w)
    ensures Eval(t, w) < Pow2(8 * ByteLen(TermLen(t)))
    decreases t
  {
    hide Bitwise;
    hide Image;
    hide Import;
    hide Pow2;
    hide Steps;
    hide ConstantsFit;
    hide HasLength;
    ByteLenPower(TermLen(t));
    match t
    case Value(_, _, _) =>
    case Field(key, order, len) =>
      if HasField(key, len, w) {
        ExportImport(w.fields[key][..ByteLen(len)], order);
      }
      PowPositive(8 * ByteLen(len));
    case Binop(op, left, right, _, len) =>
      EvalBytes(left, w);
      LastFits(t, len);
      StepBelow(Step(op, right), Eval(left, w), 8 * ByteLen(len));
    case Shift(toLeft, left, count, len) =>
      EvalBytes(left, w);
      ShrBelow(Eval(left, w), count);
    case Swap(_, arg) => EvalBytes(arg, w);
    case Hash(_, _) =>
  }

  /** One more operation of a chain whose value has its length. */
  lemma {:induction false} CutFits(op: BitOp, x: nat, right: nat, len: nat, len': nat)
    requires ConstantFits(Step(op, right), len)
    requires (op == And && right < Pow2(len)) || (len' <= len && x < Pow2(len'))
    ensures NatBits(op, x, right) < Pow2(len)
  {
    hide Bitwise;
    if op == And && right < Pow2(len) {
      BitwiseCommutes(And, x, right);
      AndFits(right, x, len);
    } else {
      Pow2Monotone(len', len);
      StepBelow(Step(op, right), x, len);
    }
  }

  lemma {:induction false} EvalFits(t: Term, w: World)
    requires WellTyped(t, w) && HasLength(t, w)
    ensures Eval(t, w) < Pow2(TermLen(t))
    decreases t
  {
    hide Bitwise;
    hide NatBits;
    hide Image;
    hide Steps;
    hide ConstantsFit;
    hide Pow2;
    match t
    case Value(v, _, _) =>
    case Field(key, order, len) => PowPositive(len);
    case Binop(op, left, right, _, len) =>
      LastFits(t, len);
      if !(op == And && right < Pow2(len)) {
        EvalFits(left, w);
      }
      CutFits(op, Eval(left, w), right, len, TermLen(left));
    case Shift(toLeft, left, count, len) =>
      EvalFits(left, w);
      ShrBelow(Eval(left, w), count);
    case Swap(_, arg) =>
      assert WellTyped(arg, w);
      EvalBytes(arg, w);
      assert 8 * ByteLen(TermLen(arg)) == TermLen(arg);
    case Hash(_, _) =>
  }

  /** The nested operations on the innermost operand are the value of the chain. */
  lemma {:induction false} EvalIsNested(t: Term, w: World)
    ensures Eval(t, w) == Nested(Eval(Base(t), w), Steps(t))
    decreases t
  {
    hide Bitwise;
    if t.Binop? {
      EvalIsNested(t.left, w);
      assert Steps(t)[..|Steps(t.left)|] == Steps(t.left);
    }
  }
}
