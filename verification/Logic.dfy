/** mpz_and, mpz_ior and mpz_xor: two's-complement logic streamed over
    sign-magnitude limbs. */
module Logic {
  import opened Arith
  import opened Limbs
  import opened PowerOfTwo
  import opened Bits
  import opened Mpn
  import opened MpzObject

  /** x ^ mask for a mask of all zeros or all ones. */
  function FlipW(flip: bool, x: Limb): (z: Limb)
  {
    if flip then B - 1 - x else x
  }

  lemma {:induction false} LimbBlock(op: BitOp, a: Limb, b: Limb, x: int, y: int)
    ensures 0 <= Bitwise(op, a, b) < B
    ensures Bitwise(op, a + B * x, b + B * y) == Bitwise(op, a, b) + B * Bitwise(op, x, y)
  {
    hide Bitwise;
    WordPowers();
    BitwiseBlock(op, a, x, b, y, 64);
  }

  /** The machine operation on limbs. */
  function LimbOp(op: BitOp, a: Limb, b: Limb): (z: Limb)
  {
    LimbBlock(op, a, b, 0, 0);
    Bitwise(op, a, b)
  }

  /** The two's-complement number whose magnitude has v left, with carry c still to add. */
  ghost function Rest(neg: bool, v: int, c: int): int
  {
    if neg then c - 1 - v else v
  }

  ghost predicate CarryOk(neg: bool, c: int)
  {
    0 <= c <= 1 && (!neg ==> c == 0)
  }

  /** One limb converted: the rest splits into this limb and the rest above it. */
  lemma {:induction false} ConvertLimb(neg: bool, x: Limb, c: Limb, v: int, l: Limb, c': Limb)
    requires CarryOk(neg, c) && l == AddW(FlipW(neg, x), c) && c' == (if l < c then 1 else 0)
    ensures CarryOk(neg, c') && (c' == 1 ==> c == 1 && x == 0)
    ensures Rest(neg, x + B * v, c) == l + B * Rest(neg, v, c')
  {
  }

  /** The state of the stream: rs is written, u, v and r are what is left, m the magnitude to produce. */
  ghost predicate Stream(op: BitOp, rs: seq<Limb>, u: int, v: int, rneg: bool, rc: int, m: int)
  {
    CarryOk(rneg, rc) && Val(rs) + Pow(|rs|) * Rest(rneg, Bitwise(op, u, v), rc) == m
  }

  lemma {:induction false} StreamStep(op: BitOp, rs: seq<Limb>, u: int, v: int, rneg: bool, rc: Limb, m: int,
                                      ul: Limb, vl: Limb, u': int, v': int, rl: Limb, rc': Limb)
    requires Stream(op, rs, u, v, rneg, rc, m)
    requires u == ul + B * u' && v == vl + B * v'
    requires rl == AddW(FlipW(rneg, LimbOp(op, ul, vl)), rc) && rc' == (if rl < rc then 1 else 0)
    ensures Stream(op, rs + [rl], u', v', rneg, rc', m)
  {
    hide Bitwise;
    hide Val;
    LimbBlock(op, ul, vl, u', v');
    ConvertLimb(rneg, LimbOp(op, ul, vl), rc, Bitwise(op, u', v'), rl, rc');
    ValSnoc(rs, rl);
    StreamScale(Val(rs), Pow(|rs|), rl, Rest(rneg, Bitwise(op, u', v'), rc'));
  }

  lemma {:induction false} StreamScale(v: int, p: int, l: int, h: int)
    ensures v + p * (l + B * h) == (v + l * p) + (B * p) * h
  {
    Dist(p, l, B * h);
    Assoc(p, B, h);
  }

  /** One limb through the operation. */
  method LogicWord(op: BitOp, uneg: bool, x: Limb, uc: Limb, vneg: bool, y: Limb, vc: Limb, rneg: bool, rc: Limb,
                   ghost rs: seq<Limb>, ghost xv: int, ghost yv: int, ghost m: int)
    returns (rl: Limb, uc': Limb, vc': Limb, rc': Limb)
    requires CarryOk(uneg, uc) && CarryOk(vneg, vc)
    requires Stream(op, rs, Rest(uneg, x + B * xv, uc), Rest(vneg, y + B * yv, vc), rneg, rc, m)
    ensures CarryOk(uneg, uc') && CarryOk(vneg, vc') && (uc' == 1 ==> uc == 1 && x == 0) && (vc' == 1 ==> vc == 1 && y == 0)
    ensures Stream(op, rs + [rl], Rest(uneg, xv, uc'), Rest(vneg, yv, vc'), rneg, rc', m)
  {
    hide Bitwise;
    var ul := AddW(FlipW(uneg, x), uc);
    uc' := if ul < uc then 1 else 0;
    var vl := AddW(FlipW(vneg, y), vc);
    vc' := if vl < vc then 1 else 0;
    rl := AddW(FlipW(rneg, LimbOp(op, ul, vl)), rc);
    rc' := if rl < rc then 1 else 0;
    ConvertLimb(uneg, x, uc, xv, ul, uc');
    ConvertLimb(vneg, y, vc, yv, vl, vc');
    StreamStep(op, rs, Rest(uneg, x + B * xv, uc), Rest(vneg, y + B * yv, vc), rneg, rc, m,
               ul, vl, Rest(uneg, xv, uc'), Rest(vneg, yv, vc'), rl, rc');
  }

  /** A pending carry means that only zero limbs were seen. */
  ghost predicate PendingCarry(c: int, s: seq<Limb>, i: nat)
  {
    c == 1 ==> forall k :: 0 <= k < i && k < |s| ==> s[k] == 0
  }

  ghost predicate Prefix(rp: array<Limb>, rs: seq<Limb>)
    reads rp
  {
    |rs| <= rp.Length && forall k {:trigger rs[k]} :: 0 <= k < |rs| ==> rp[k] == rs[k]
  }

  function Carry(neg: bool): Limb
  {
    if neg then 1 else 0
  }

  /** The loop over the limbs that both operands have; rp may be up or vp. */
  method CommonLimbs(op: BitOp, rp: array<Limb>, up: array<Limb>, vp: array<Limb>, vn: nat, uneg: bool, vneg: bool, rneg: bool,
                     ghost us: seq<Limb>, ghost vs: seq<Limb>, ghost m: int)
    returns (uc: Limb, rc: Limb, ghost vc: Limb, ghost rs: seq<Limb>)
    requires vn == |vs| <= |us| && vn <= rp.Length && Prefix(up, us) && Prefix(vp, vs)
    requires Stream(op, [], Rest(uneg, Val(us), Carry(uneg)), Rest(vneg, Val(vs), Carry(vneg)), rneg, Carry(rneg), m)
    modifies rp
    ensures OnlyWindow(rp, 0, vn) && |rs| == vn && Prefix(rp, rs)
    ensures forall k :: vn <= k < |us| ==> up[k] == us[k]
    ensures CarryOk(uneg, uc) && CarryOk(vneg, vc) && PendingCarry(uc, us, vn) && PendingCarry(vc, vs, vn)
    ensures Stream(op, rs, Rest(uneg, Val(us[vn..]), uc), Rest(vneg, 0, vc), rneg, rc, m)
  {
    hide Stream;
    hide Rest;
    hide Val;
    var vcar;
    uc, vcar, rc, rs := Carry(uneg), Carry(vneg), Carry(rneg), [];
    assert us[0..] == us && vs[0..] == vs;
    for i := 0 to vn
      invariant OnlyWindow(rp, 0, i) && |rs| == i && Prefix(rp, rs)
      invariant forall k :: i <= k < |us| ==> up[k] == us[k]
      invariant forall k :: i <= k < vn ==> vp[k] == vs[k]
      invariant CarryOk(uneg, uc) && CarryOk(vneg, vcar) && PendingCarry(uc, us, i) && PendingCarry(vcar, vs, i)
      invariant Stream(op, rs, Rest(uneg, Val(us[i..]), uc), Rest(vneg, Val(vs[i..]), vcar), rneg, rc, m)
    {
      ValSuffix(us, i);
      ValSuffix(vs, i);
      var rl, uc', vc', rc' := LogicWord(op, uneg, up[i], uc, vneg, vp[i], vcar, rneg, rc, rs, Val(us[i + 1..]), Val(vs[i + 1..]), m);
      rp[i] := rl;
      uc, vcar, rc, rs := uc', vc', rc', rs + [rl];
    }
    vc := vcar;
    EmptyIsZero();
    assert vs[vn..] == [];
  }

  lemma {:induction false} XorWithConstant(uneg: bool, vneg: bool, ul: Limb)
    ensures FlipW(uneg, ul) == FlipW(uneg != vneg, LimbOp(Xor, ul, if vneg then B - 1 else 0))
  {
    hide Bitwise;
    BitwiseConstant(Xor, ul);
    BitwiseConstant(Xor, 0);
    LimbBlock(Xor, ul, B - 1, 0, -1);
  }

  /** One limb against the sign of the exhausted operand, as each of the three loops writes it. */
  method LogicWordSign(op: BitOp, uneg: bool, x: Limb, uc: Limb, vneg: bool, rneg: bool, rc: Limb,
                       ghost rs: seq<Limb>, ghost xv: int, ghost m: int)
    returns (rl: Limb, uc': Limb, rc': Limb)
    requires CarryOk(uneg, uc) && (op == Xor ==> rneg == (uneg != vneg))
    requires Stream(op, rs, Rest(uneg, x + B * xv, uc), Rest(vneg, 0, 0), rneg, rc, m)
    ensures CarryOk(uneg, uc') && (uc' == 1 ==> uc == 1 && x == 0)
    ensures Stream(op, rs + [rl], Rest(uneg, xv, uc'), Rest(vneg, 0, 0), rneg, rc', m)
  {
    hide Bitwise;
    hide Stream;
    var vx := if vneg then B - 1 else 0;
    var ul := AddW(FlipW(uneg, x), uc);
    uc' := if ul < uc then 1 else 0;
    if op == Xor {
      XorWithConstant(uneg, vneg, ul);
      rl := AddW(FlipW(uneg, ul), rc);
    } else {
      rl := AddW(FlipW(rneg, LimbOp(op, ul, vx)), rc);
    }
    rc' := if rl < rc then 1 else 0;
    ConvertLimb(uneg, x, uc, xv, ul, uc');
    StreamStep(op, rs, Rest(uneg, x + B * xv, uc), Rest(vneg, 0, 0), rneg, rc, m,
               ul, vx, Rest(uneg, xv, uc'), Rest(vneg, 0, 0), rl, rc');
  }

  /** The loop over the limbs that only the longer operand has. */
  method RemainingLimbs(op: BitOp, rp: array<Limb>, up: array<Limb>, from: nat, to: nat, uneg: bool, vneg: bool, rneg: bool,
                        uc0: Limb, rc0: Limb, ghost us: seq<Limb>, ghost rs0: seq<Limb>, ghost m: int)
    returns (rc: Limb, ghost uc: Limb, ghost rs: seq<Limb>)
    requires from <= to <= |us| && to <= rp.Length && |us| <= up.Length && |rs0| == from && Prefix(rp, rs0)
    requires forall k :: from <= k < |us| ==> up[k] == us[k]
    requires CarryOk(uneg, uc0) && PendingCarry(uc0, us, from) && (op == Xor ==> rneg == (uneg != vneg))
    requires Stream(op, rs0, Rest(uneg, Val(us[from..]), uc0), Rest(vneg, 0, 0), rneg, rc0, m)
    modifies rp
    ensures |rs| == to && Prefix(rp, rs) && CarryOk(uneg, uc) && PendingCarry(uc, us, to)
    ensures Stream(op, rs, Rest(uneg, Val(us[to..]), uc), Rest(vneg, 0, 0), rneg, rc, m)
  {
    hide Stream;
    hide Rest;
    hide Val;
    var ucar;
    ucar, rc, rs := uc0, rc0, rs0;
    for i := from to to
      invariant |rs| == i && Prefix(rp, rs)
      invariant forall k :: i <= k < |us| ==> up[k] == us[k]
      invariant CarryOk(uneg, ucar) && PendingCarry(ucar, us, i)
      invariant Stream(op, rs, Rest(uneg, Val(us[i..]), ucar), Rest(vneg, 0, 0), rneg, rc, m)
    {
      ValSuffix(us, i);
      var rl, uc', rc' := LogicWordSign(op, uneg, up[i], ucar, vneg, rneg, rc, rs, Val(us[i + 1..]), m);
      rp[i] := rl;
      ucar, rc, rs := uc', rc', rs + [rl];
    }
    uc := ucar;
  }

  /* ---- The whole operation ---- */

  /** Number of limbs the result is computed on. */
  function ResultLimbs(op: BitOp, un: nat, vn: nat, vneg: bool): nat
  {
    match op
    case And => if vneg then un else vn
    case Or => if vneg then vn else un
    case Xor => un
  }

  /** Beyond those limbs the result is its sign. */
  lemma {:induction false} StreamEnd(op: BitOp, rs: seq<Limb>, u: int, uneg: bool, vneg: bool, rneg: bool, rc: Limb, m: int, exhausted: bool)
    requires rneg == (OnBits(op, Carry(uneg), Carry(vneg)) == 1)
    requires Stream(op, rs, u, if vneg then -1 else 0, rneg, rc, m)
    requires exhausted ==> u == if uneg then -1 else 0
    requires !exhausted ==> (op == And && !vneg) || (op == Or && vneg)
    ensures m == Val(rs) + Pow(|rs|) * rc && rc <= 1
  {
    hide Val;
    BitwiseConstant(op, u);
  }

  lemma {:induction false} ExhaustedRest(neg: bool, s: seq<Limb>, c: Limb)
    requires CarryOk(neg, c) && PendingCarry(c, s, |s|) && (|s| > 0 ==> s[|s| - 1] != 0) && (neg ==> |s| > 0)
    ensures c == 0 && Rest(neg, 0, c) == if neg then -1 else 0
  {
  }

  /** Storing the last carry, or normalising, and setting the sign. */
  method StoreResult(r: Mpz, rn0: nat, rc: Limb, rneg: bool, ghost rs: seq<Limb>, ghost z: int)
    requires |rs| == rn0 && Prefix(r.d, rs) && rc <= 1 && rn0 + rc <= r.d.Length && rneg == (z < 0)
    requires Abs(z) == Val(rs) + Pow(|rs|) * rc
    modifies r`size, r.d
    ensures r.Valid() && r.Int() == z
  {
    hide Val;
    hide Pow;
    var rn: int := rn0;
    assert r.d[..rn] == rs;
    if rc != 0 {
      ValSnoc(rs, rc);
      r.d[rn] := rc;
      assert r.d[..rn + 1] == rs + [rc];
      rn := rn + 1;
    } else {
      rn := NormalizedSize(r.d, rn0);
    }
    EmptyIsZero();
    r.size := if rneg then -rn else rn;
  }

  /** The stream over all limbs of the result. */
  method StreamAll(op: BitOp, rp: array<Limb>, up: array<Limb>, vp: array<Limb>, vn: nat, rn: nat, uneg: bool, vneg: bool, rneg: bool,
                   ghost us: seq<Limb>, ghost vs: seq<Limb>, ghost m: int)
    returns (rc: Limb, ghost rs: seq<Limb>)
    requires 0 < vn == |vs| <= |us| && us[|us| - 1] != 0 && vs[vn - 1] != 0
    requires rn == ResultLimbs(op, |us|, vn, vneg) <= rp.Length && Prefix(up, us) && Prefix(vp, vs)
    requires rneg == (OnBits(op, Carry(uneg), Carry(vneg)) == 1)
    requires Stream(op, [], Rest(uneg, Val(us), Carry(uneg)), Rest(vneg, Val(vs), Carry(vneg)), rneg, Carry(rneg), m)
    modifies rp
    ensures |rs| == rn && Prefix(rp, rs) && rc <= 1 && m == Val(rs) + Pow(|rs|) * rc && (!rneg ==> rc == 0)
  {
    hide Stream;
    hide Val;
    hide Bitwise;
    var uc;
    ghost var vc;
    uc, rc, vc, rs := CommonLimbs(op, rp, up, vp, vn, uneg, vneg, rneg, us, vs, m);
    ExhaustedRest(vneg, vs, vc);
    ghost var uc';
    rc, uc', rs := RemainingLimbs(op, rp, up, vn, rn, uneg, vneg, rneg, uc, rc, us, rs, m);
    if rn == |us| {
      ExhaustedRest(uneg, us, uc');
      EmptyIsZero();
      assert us[rn..] == [];
    }
    StreamEnd(op, rs, Rest(uneg, Val(us[rn..]), uc'), uneg, vneg, rneg, rc, m, rn == |us|);
    StreamCarry(op, rs, Rest(uneg, Val(us[rn..]), uc'), Rest(vneg, 0, 0), rneg, rc, m);
  }

  lemma {:induction false} StreamCarry(op: BitOp, rs: seq<Limb>, u: int, v: int, rneg: bool, rc: int, m: int)
    requires Stream(op, rs, u, v, rneg, rc, m)
    ensures !rneg ==> rc == 0
  {
  }

  lemma {:induction false} StreamStart(op: BitOp, uneg: bool, x: int, vneg: bool, y: int, rneg: bool)
    requires rneg == (OnBits(op, Carry(uneg), Carry(vneg)) == 1)
    requires (x == 0 ==> !uneg) && (y == 0 ==> !vneg) && 0 <= x && 0 <= y
    ensures var u, v := if uneg then -x else x, if vneg then -y else y;
      && Stream(op, [], Rest(uneg, x, Carry(uneg)), Rest(vneg, y, Carry(vneg)), rneg, Carry(rneg), Abs(Bitwise(op, u, v)))
      && rneg == (Bitwise(op, u, v) < 0)
  {
    hide Bitwise;
    BitwiseSign(op, if uneg then -x else x, if vneg then -y else y);
  }

  /** The three functions after their operands are ordered by size. */
  method LogicOrdered(op: BitOp, r: Mpz, u: Mpz, v: Mpz)
    requires r.Valid() && u.Valid() && v.Valid() && Abs(v.size) <= Abs(u.size)
    requires Separate(r, u) && Separate(r, v) && Separate(u, v)
    modifies r, r.d
    ensures r.d == old(r.d) || fresh(r.d)
    ensures r.Valid() && r.Int() == Bitwise(op, old(u.Int()), old(v.Int()))
  {
    hide Val;
    hide Pow;
    hide Bitwise;
    hide Stream;
    var un, vn := Abs(u.size), Abs(v.size);
    ghost var us, vs := u.d[..un], v.d[..vn];
    if vn == 0 {
      EmptyIsZero();
      BitwiseConstant(op, u.Int());
      if op == And {
        SetUnit(r, 0);
      } else {
        Set(r, u);
      }
      return;
    }
    MagnitudePositive(us);
    MagnitudePositive(vs);
    var uneg, vneg := u.size < 0, v.size < 0;
    var rneg := OnBits(op, Carry(uneg), Carry(vneg)) == 1;
    var rn := ResultLimbs(op, un, vn, vneg);
    StreamStart(op, uneg, Val(us), vneg, Val(vs), rneg);
    ghost var z := Bitwise(op, u.Int(), v.Int());
    Realloc(r, rn + if rneg then 1 else 0);
    var rc;
    ghost var rs;
    rc, rs := StreamAll(op, r.d, u.d, v.d, vn, rn, uneg, vneg, rneg, us, vs, Abs(z));
    StoreResult(r, rn, rc, rneg, rs, z);
  }

  lemma {:induction false} MagnitudePositive(s: seq<Limb>)
    requires |s| > 0 && s[|s| - 1] != 0
    ensures 0 < Val(s)
  {
    NonZeroMagnitude(s);
  }

  /** mpz_and, mpz_ior and mpz_xor, which differ in op, in the limbs they visit and in the case of a zero. */
  method Logic(op: BitOp, r: Mpz, u: Mpz, v: Mpz)
    requires r.Valid() && u.Valid() && v.Valid()
    requires Separate(r, u) && Separate(r, v) && Separate(u, v)
    modifies r, r.d
    ensures r.d == old(r.d) || fresh(r.d)
    ensures r.Valid() && r.Int() == Bitwise(op, old(u.Int()), old(v.Int()))
  {
    hide Bitwise;
    BitwiseCommutes(op, u.Int(), v.Int());
    if Abs(u.size) < Abs(v.size) {
      LogicOrdered(op, r, v, u);
    } else {
      LogicOrdered(op, r, u, v);
    }
  }
}
