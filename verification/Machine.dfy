/** The machine a rule is compiled for: sixteen register slots of four bytes, and
    instructions that load, combine, compare and look up. */
module Machine {
  import opened Lengths
  import opened Bits
  import opened PowerOfTwo
  import opened Bytes

  const SLOTS: nat := 16
  const SLOT_SIZE: nat := 4
  const NFT_REG_VERDICT: nat := 0
  const NFT_REG_1: nat := 1
  const NFT_REG32_00: nat := 8

  /** All slots, one after the other. */
  type Regs = s: seq<Byte> | |s| == SLOTS * SLOT_SIZE witness Zeros(64)

  datatype Verdict = Continue | Final(code: nat)

  datatype HashParams = HashParams(modulus: nat, offsetId: nat, seed: nat)

  /** A named set as the kernel keeps it: keys of one length, each with the
      verdict that a verdict map gives it. */
  datatype SetDef = SetDef(keyLength: nat, elements: map<seq<Byte>, Verdict>)

  /** What a rule is evaluated against. */
  datatype World = World(fields: map<nat, seq<Byte>>, hash: (HashParams, seq<Byte>) -> nat, sets: map<nat, SetDef>)

  datatype CmpOp = CmpEq | CmpNeq | CmpLt | CmpGt | CmpLte | CmpGte

  datatype Instr =
    | Immediate(dreg: nat, data: seq<Byte>)
    | SetVerdict(verdict: Verdict)
    | Load(key: nat, dreg: nat, len: nat)
    | BitwiseBool(sreg: nat, dreg: nat, len: nat, mask: seq<Byte>, xor: seq<Byte>)
    | BitwiseShift(sreg: nat, dreg: nat, len: nat, toLeft: bool, data: seq<Byte>)
    | ByteOrderSwap(sreg: nat, dreg: nat, len: nat, size: nat)
    | HashKey(sreg: nat, dreg: nat, len: nat, params: HashParams)
    | Compare(sreg: nat, op: CmpOp, data: seq<Byte>)
    | RangeNeq(sreg: nat, low: seq<Byte>, high: seq<Byte>)
    | Lookup(sreg: nat, setId: nat, inverted: bool)
    | LookupVerdict(sreg: nat, dreg: nat, setId: nat)

  /** After an instruction the rule goes on, does not match, or is done with a
      verdict; a fault is an instruction the machine would refuse. */
  datatype Outcome = Running(regs: Regs) | NoMatch | Done(code: nat) | Fault

  /* ---- Register numbers ---- */

  /** netlink_put_register: multiples of a 128-bit register keep its old number. */
  function PutRegister(reg: nat): nat
  {
    if reg == NFT_REG_VERDICT then reg
    else
      var r := reg - NFT_REG_1;
      if r % 4 == 0 then NFT_REG_1 + r / 4 else r + NFT_REG32_00
  }

  /** netlink_parse_register. */
  function ParseRegister(reg: nat): nat
  {
    if NFT_REG_1 <= reg <= 4 then 1 + (reg - NFT_REG_1) * 4
    else if reg >= NFT_REG32_00 then 1 + reg - NFT_REG32_00
    else reg
  }

  /** Writing a register number and reading it back gives it again exactly for
      the sixteen slots and those numbers that are no multiple of four above. */
  lemma {:induction false} RegisterRoundTrip(reg: nat)
    ensures ParseRegister(PutRegister(reg)) == reg <==> reg <= SLOTS || (reg - 1) % 4 != 0
  {
  }

  /* ---- Reading and writing slots ---- */

  function Offset(slot: nat): nat
    requires 1 <= slot
  {
    SLOT_SIZE * (slot - 1)
  }

  /** The length of n bytes once padded to whole slots. */
  function PadLength(n: nat): (m: nat)
    ensures n <= m < n + 4 && m % 4 == 0
  {
    4 * ((n + 3) / 4)
  }

  function Padded(s: seq<Byte>): (p: seq<Byte>)
    ensures |p| == PadLength(|s|) && p[..|s|] == s
  {
    s + Zeros(PadLength(|s|) - |s|)
  }

  predicate Fits(slot: nat, n: nat)
  {
    1 <= slot && Offset(slot) + PadLength(n) <= SLOTS * SLOT_SIZE
  }

  function Write(regs: Regs, slot: nat, s: seq<Byte>): (r: Regs)
    requires Fits(slot, |s|)
  {
    var at := Offset(slot);
    regs[..at] + Padded(s) + regs[at + PadLength(|s|)..]
  }

  function Read(regs: Regs, slot: nat, n: nat): (s: seq<Byte>)
    requires Fits(slot, n)
    ensures |s| == n
  {
    regs[Offset(slot)..Offset(slot) + n]
  }

  function Put(regs: Regs, dreg: nat, s: seq<Byte>): Outcome
  {
    var slot := ParseRegister(dreg);
    if Fits(slot, |s|) then Running(Write(regs, slot, s)) else Fault
  }

  /* ---- Instructions ---- */

  function SwapChunks(s: seq<Byte>, size: nat): seq<Byte>
    requires size > 0
  {
    if |s| < size then s else Reversed(s[..size]) + SwapChunks(s[size..], size)
  }

  predicate CmpHolds(op: CmpOp, d: int)
  {
    match op
    case CmpEq => d == 0
    case CmpNeq => d != 0
    case CmpLt => d < 0
    case CmpGt => d > 0
    case CmpLte => d <= 0
    case CmpGte => d >= 0
  }

  /** A shift of the number that the bytes hold in host order. */
  function ShiftBytes(s: seq<Byte>, toLeft: bool, count: nat): seq<Byte>
  {
    var v := Import(s, Host);
    Export(if toLeft then Shl(v, count) else Shr(v, count), Host, |s|)
  }

  function Decide(v: Verdict, regs: Regs): Outcome
  {
    if v.Continue? then Running(regs) else Done(v.code)
  }

  function Exec(i: Instr, regs: Regs, w: World): Outcome
  {
    match i
    case Immediate(dreg, data) => Put(regs, dreg, data)
    case SetVerdict(v) => Decide(v, regs)
    case Load(key, dreg, len) =>
      if key in w.fields && len <= |w.fields[key]| then Put(regs, dreg, w.fields[key][..len]) else NoMatch
    case BitwiseBool(sreg, dreg, len, mask, xor) =>
      if Fits(ParseRegister(sreg), len) && |mask| == len && |xor| == len then
        var s := Read(regs, ParseRegister(sreg), len);
        Put(regs, dreg, ByteBits(Xor, ByteBits(And, s, mask), xor))
      else Fault
    case BitwiseShift(sreg, dreg, len, toLeft, data) =>
      if Fits(ParseRegister(sreg), len) then
        Put(regs, dreg, ShiftBytes(Read(regs, ParseRegister(sreg), len), toLeft, Import(data, Host)))
      else Fault
    case ByteOrderSwap(sreg, dreg, len, size) =>
      if Fits(ParseRegister(sreg), len) && size > 0 then
        Put(regs, dreg, SwapChunks(Read(regs, ParseRegister(sreg), len), size))
      else Fault
    case HashKey(sreg, dreg, len, params) =>
      if Fits(ParseRegister(sreg), len) then
        Put(regs, dreg, Export(w.hash(params, Read(regs, ParseRegister(sreg), len)) % Pow2(32), Host, 4))
      else Fault
    case Compare(sreg, op, data) =>
      if Fits(ParseRegister(sreg), |data|) then
        if CmpHolds(op, Memcmp(Read(regs, ParseRegister(sreg), |data|), data)) then Running(regs) else NoMatch
      else Fault
    case RangeNeq(sreg, low, high) =>
      if Fits(ParseRegister(sreg), |low|) && |high| == |low| then
        var s := Read(regs, ParseRegister(sreg), |low|);
        if Memcmp(s, low) >= 0 && Memcmp(s, high) <= 0 then NoMatch else Running(regs)
      else Fault
    case Lookup(sreg, setId, inverted) =>
      if setId in w.sets && Fits(ParseRegister(sreg), w.sets[setId].keyLength) then
        var key := Read(regs, ParseRegister(sreg), w.sets[setId].keyLength);
        if (key in w.sets[setId].elements) == inverted then NoMatch else Running(regs)
      else Fault
    case LookupVerdict(sreg, dreg, setId) =>
      if setId in w.sets && Fits(ParseRegister(sreg), w.sets[setId].keyLength) && ParseRegister(dreg) == NFT_REG_VERDICT then
        var key := Read(regs, ParseRegister(sreg), w.sets[setId].keyLength);
        if key in w.sets[setId].elements then Decide(w.sets[setId].elements[key], regs) else NoMatch
      else Fault
  }

  function Run(code: seq<Instr>, regs: Regs, w: World): Outcome
  {
    if code == [] then Running(regs)
    else
      var o := Exec(code[0], regs, w);
      if o.Running? then Run(code[1..], o.regs, w) else o
  }

  lemma {:induction false} RunAppend(a: seq<Instr>, b: seq<Instr>, regs: Regs, w: World)
    ensures Run(a + b, regs, w) ==
      var o := Run(a, regs, w); if o.Running? then Run(b, o.regs, w) else o
  {
    hide Exec;
    if a == [] {
      assert a + b == b;
    } else {
      assert (a + b)[1..] == a[1..] + b;
      var o := Exec(a[0], regs, w);
      if o.Running? {
        RunAppend(a[1..], b, o.regs, w);
      }
    }
  }

  lemma {:induction false} RunOne(i: Instr, regs: Regs, w: World)
    ensures Run([i], regs, w) == Exec(i, regs, w)
  {
    hide Exec;
    var o := Exec(i, regs, w);
    assert [i][1..] == [];
    if o.Running? {
      assert Run([], o.regs, w) == o;
    }
  }

  /* ---- Single instructions at a slot that exists ---- */

  lemma {:induction false} PutSlot(regs: Regs, slot: nat, s: seq<Byte>)
    requires Fits(slot, |s|) && slot <= SLOTS
    ensures Put(regs, PutRegister(slot), s) == Running(Write(regs, slot, s))
  {
    hide Write;
    RegisterRoundTrip(slot);
  }

  lemma {:induction false} ExecBool(regs: Regs, slot: nat, mask: seq<Byte>, xor: seq<Byte>, w: World)
    requires Fits(slot, |mask|) && slot <= SLOTS && |xor| == |mask|
    ensures var d := PutRegister(slot);
      Exec(BitwiseBool(d, d, |mask|, mask, xor), regs, w)
      == Running(Write(regs, slot, ByteBits(Xor, ByteBits(And, Read(regs, slot, |mask|), mask), xor)))
  {
    hide Write;
    hide Read;
    hide Put;
    RegisterRoundTrip(slot);
    PutSlot(regs, slot, ByteBits(Xor, ByteBits(And, Read(regs, slot, |mask|), mask), xor));
  }

  lemma {:induction false} ExecShift(regs: Regs, slot: nat, n: nat, toLeft: bool, data: seq<Byte>, w: World)
    requires Fits(slot, n) && slot <= SLOTS
    ensures var s := ShiftBytes(Read(regs, slot, n), toLeft, Import(data, Host));
      var d := PutRegister(slot);
      |s| == n && Exec(BitwiseShift(d, d, n, toLeft, data), regs, w) == Running(Write(regs, slot, s))
  {
    hide Write;
    hide Read;
    hide Put;
    RegisterRoundTrip(slot);
    PutSlot(regs, slot, ShiftBytes(Read(regs, slot, n), toLeft, Import(data, Host)));
  }

  lemma {:induction false} SwapKeepsLength(s: seq<Byte>, size: nat)
    requires size > 0
    ensures |SwapChunks(s, size)| == |s|
    decreases |s|
  {
    if |s| >= size {
      SwapKeepsLength(s[size..], size);
    }
  }

  lemma {:induction false} ExecSwap(regs: Regs, slot: nat, n: nat, size: nat, w: World)
    requires Fits(slot, n) && slot <= SLOTS && size > 0
    ensures var s := SwapChunks(Read(regs, slot, n), size);
      var d := PutRegister(slot);
      |s| == n && Exec(ByteOrderSwap(d, d, n, size), regs, w) == Running(Write(regs, slot, s))
  {
    hide Write;
    hide Read;
    hide Put;
    hide SwapChunks;
    RegisterRoundTrip(slot);
    SwapKeepsLength(Read(regs, slot, n), size);
    PutSlot(regs, slot, SwapChunks(Read(regs, slot, n), size));
  }

  lemma {:induction false} ExecHash(regs: Regs, sslot: nat, dslot: nat, n: nat, params: HashParams, w: World)
    requires Fits(sslot, n) && sslot <= SLOTS && Fits(dslot, 4) && dslot <= SLOTS
    ensures Exec(HashKey(PutRegister(sslot), PutRegister(dslot), n, params), regs, w)
      == Running(Write(regs, dslot, Export(w.hash(params, Read(regs, sslot, n)) % Pow2(32), Host, 4)))
  {
    hide Write;
    hide Read;
    hide Put;
    hide Pow2;
    hide Export;
    RegisterRoundTrip(sslot);
    PutSlot(regs, dslot, Export(w.hash(params, Read(regs, sslot, n)) % Pow2(32), Host, 4));
  }

  /* ---- Slots below a mark ---- */

  /** Two states agree on all slots below low. */
  predicate SameBelow(r: Regs, r': Regs, low: nat)
    requires 1 <= low <= SLOTS + 1
  {
    r[..Offset(low)] == r'[..Offset(low)]
  }

  lemma {:induction false} WriteRead(regs: Regs, slot: nat, s: seq<Byte>)
    requires Fits(slot, |s|)
    ensures Read(Write(regs, slot, s), slot, |s|) == s
  {
  }

  /** Reading below the mark sees the same bytes. */
  lemma {:induction false} ReadBelow(r: Regs, r': Regs, slot: nat, n: nat, low: nat)
    requires 1 <= low <= SLOTS + 1 && Fits(slot, n) && Offset(slot) + PadLength(n) <= Offset(low)
    requires SameBelow(r, r', low)
    ensures Read(r, slot, n) == Read(r', slot, n)
  {
    var m := Offset(low);
    assert forall i :: 0 <= i < m ==> r[..m][i] == r[i] && r'[..m][i] == r'[i];
  }

  lemma {:induction false} WriteBelow(r: Regs, r': Regs, slot: nat, s: seq<Byte>, low: nat)
    requires 1 <= low <= SLOTS + 1 && Fits(slot, |s|) && Offset(slot) + PadLength(|s|) <= Offset(low)
    requires SameBelow(r, r', low)
    ensures SameBelow(Write(r, slot, s), Write(r', slot, s), low)
  {
    var m := Offset(low);
    assert forall i :: 0 <= i < m ==> r[..m][i] == r[i] && r'[..m][i] == r'[i];
  }

  /** A second value of the same length replaces the first. */
  lemma {:induction false} WriteOver(r: Regs, slot: nat, s: seq<Byte>, t: seq<Byte>)
    requires Fits(slot, |s|) && |t| == |s|
    ensures Write(Write(r, slot, s), slot, t) == Write(r, slot, t)
  {
    var at, n := Offset(slot), PadLength(|s|);
    var r1 := Write(r, slot, s);
    assert r1[..at] == r[..at];
    assert r1[at + n..] == r[at + n..];
  }

  /** Writing at or above the mark leaves what is below. */
  lemma {:induction false} WriteAbove(r: Regs, slot: nat, s: seq<Byte>, low: nat)
    requires 1 <= low <= slot && Fits(slot, |s|) && low <= SLOTS + 1
    ensures SameBelow(Write(r, slot, s), r, low)
  {
    assert Write(r, slot, s)[..Offset(low)] == r[..Offset(low)];
  }

  lemma {:induction false} SameBelowLess(r: Regs, r': Regs, low: nat, high: nat)
    requires 1 <= low <= high <= SLOTS + 1 && SameBelow(r, r', high)
    ensures SameBelow(r, r', low)
  {
    assert r[..Offset(low)] == r[..Offset(high)][..Offset(low)];
    assert r'[..Offset(low)] == r'[..Offset(high)][..Offset(low)];
  }

  lemma {:induction false} PaddedTwice(s: seq<Byte>, t: seq<Byte>)
    ensures PadLength(PadLength(|s|) + |t|) == PadLength(|s|) + PadLength(|t|)
    ensures Padded(Padded(s) + t) == Padded(s) + Padded(t)
  {
  }

  lemma {:induction false} SpliceNext(r: seq<Byte>, at: nat, p: seq<Byte>, q: seq<Byte>)
    requires at + |p| + |q| <= |r|
    ensures var r1 := r[..at] + p + r[at + |p|..];
      r1[..at + |p|] + q + r1[at + |p| + |q|..] == r[..at] + (p + q) + r[at + |p| + |q|..]
  {
  }

  /** Two neighbouring writes are one write of the padded first and the second. */
  lemma {:induction false} WriteNext(r: Regs, slot: nat, s: seq<Byte>, t: seq<Byte>)
    requires Fits(slot, |s|) && Fits(slot + PadLength(|s|) / 4, |t|)
    ensures |Padded(s) + t| == PadLength(|s|) + |t| && Fits(slot, |Padded(s) + t|)
    ensures Write(Write(r, slot, s), slot + PadLength(|s|) / 4, t) == Write(r, slot, Padded(s) + t)
  {
    hide PadLength;
    hide Padded;
    PaddedTwice(s, t);
    assert Offset(slot + PadLength(|s|) / 4) == Offset(slot) + PadLength(|s|);
    SpliceNext(r, Offset(slot), Padded(s), Padded(t));
  }

  /** What is written is padded already. */
  lemma {:induction false} WritePadded(r: Regs, slot: nat, s: seq<Byte>)
    requires Fits(slot, |s|)
    ensures Fits(slot, |Padded(s)|) && Write(r, slot, Padded(s)) == Write(r, slot, s)
  {
    assert Padded(Padded(s)) == Padded(s);
  }
}
