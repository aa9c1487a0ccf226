/** Products of limb arrays: mpn_mul_1, mpn_addmul_1, mpn_mul and mpz_mul. */
module Product {
  import opened Arith
  import opened Limbs
  import opened WordOps
  import opened Mpn
  import opened MpzObject

  /* ---- A product by one word ---- */

  ghost predicate ProductSoFar(rs: seq<Limb>, cl: int, us: seq<Limb>, v: int)
  {
    |rs| <= |us| && Val(rs) + cl * Pow(|rs|) == v * Val(us[..|rs|])
  }

  lemma {:induction false} ProductStep(rs: seq<Limb>, cl: int, us: seq<Limb>, v: int, r: Limb, cl': int)
    requires ProductSoFar(rs, cl, us, v) && |rs| < |us|
    requires cl' * B + r == v * us[|rs|] + cl
    ensures ProductSoFar(rs + [r], cl', us, v)
  {
    hide Val;
    hide Pow;
    var i := |rs|;
    ValPrefix(us, i);
    ValSnoc(rs, r);
    PowNext(i);
    assert us[..|rs + [r]|] == us[..i + 1];
    ProductArith(v, us[i], cl, r, cl', Val(rs), Val(us[..i]), Pow(i));
  }

  lemma {:induction false} ProductArith(v: int, u: int, cl: int, r: int, cl': int, rv: int, uv: int, p: int)
    requires rv + cl * p == v * uv && cl' * B + r == v * u + cl
    ensures (rv + r * p) + cl' * (B * p) == v * (uv + u * p)
  {
    Dist(v, uv, u * p);
    Assoc(v, u, p);
    Assoc(cl', B, p);
    assert (cl' * B + r) * p == (cl' * B) * p + r * p by { Dist(p, cl' * B, r); }
    assert (v * u + cl) * p == (v * u) * p + cl * p by { Dist(p, v * u, cl); }
  }

  /** One limb of a product by a word. */
  method MulWord(ul: Limb, vl: Limb, cl: Limb) returns (r: Limb, c: Limb)
    ensures c * B + r == vl * ul + cl
  {
    var hpl, lpl := Umul(ul, vl);
    ProductTop(ul, vl, hpl, lpl);
    lpl := AddW(lpl, cl);
    c := (if lpl < cl then 1 else 0) + hpl;
    r := lpl;
  }

  /** mpn_mul_1; rp and up may be one array. */
  method Mul1(rp: array<Limb>, up: array<Limb>, n: nat, vl: Limb) returns (cl: Limb)
    requires 1 <= n <= rp.Length && n <= up.Length
    modifies rp
    ensures OnlyWindow(rp, 0, n)
    ensures Val(rp[..n]) + cl * Pow(n) == vl * old(Val(up[..n]))
  {
    hide Val;
    hide Pow;
    hide ProductSoFar;
    ghost var us, rs: seq<Limb> := up[..n], [];
    cl := 0;
    ProductNone(us, vl);
    for i := 0 to n
      invariant OnlyWindow(rp, 0, i)
      invariant |rs| == i && forall k :: 0 <= k < i ==> rp[k] == rs[k]
      invariant ProductSoFar(rs, cl, us, vl)
    {
      assert up[i] == us[i];
      var r, c := MulWord(up[i], vl, cl);
      ProductStep(rs, cl, us, vl, r, c);
      cl := c;
      rp[i] := r;
      rs := rs + [r];
    }
    assert rp[..n] == rs;
    ProductDone(rs, cl, us, vl);
  }

  lemma {:induction false} ProductNone(us: seq<Limb>, v: int)
    ensures ProductSoFar([], 0, us, v)
  {
    assert us[..0] == [];
  }

  lemma {:induction false} ProductDone(rs: seq<Limb>, cl: int, us: seq<Limb>, v: int)
    requires ProductSoFar(rs, cl, us, v) && |rs| == |us|
    ensures Val(rs) + cl * Pow(|us|) == v * Val(us)
  {
    assert us[..|us|] == us;
  }

  /* ---- Multiply and add ---- */

  ghost predicate AddMulSoFar(rs: seq<Limb>, cl: int, zs: seq<Limb>, us: seq<Limb>, v: int)
  {
    |rs| <= |zs| == |us| &&
    Val(rs) + cl * Pow(|rs|) == Val(zs[..|rs|]) + v * Val(us[..|rs|])
  }

  lemma {:induction false} AddMulStep(rs: seq<Limb>, cl: int, zs: seq<Limb>, us: seq<Limb>, v: int, r: Limb, cl': int)
    requires AddMulSoFar(rs, cl, zs, us, v) && |rs| < |zs|
    requires cl' * B + r == zs[|rs|] + v * us[|rs|] + cl
    ensures AddMulSoFar(rs + [r], cl', zs, us, v)
  {
    hide Val;
    hide Pow;
    var i := |rs|;
    ValPrefix(zs, i);
    ValPrefix(us, i);
    ValSnoc(rs, r);
    PowNext(i);
    assert us[..|rs + [r]|] == us[..i + 1] && zs[..|rs + [r]|] == zs[..i + 1];
    AddMulArith(v, us[i], zs[i], cl, r, cl', Val(rs), Val(us[..i]), Val(zs[..i]), Pow(i));
  }

  lemma {:induction false} AddMulArith(v: int, u: int, z: int, cl: int, r: int, cl': int, rv: int, uv: int, zv: int, p: int)
    requires rv + cl * p == zv + v * uv && cl' * B + r == z + v * u + cl
    ensures (rv + r * p) + cl' * (B * p) == (zv + z * p) + v * (uv + u * p)
  {
    CarryStep(z, v * u, cl, r, cl', rv, zv, v * uv, p);
    Assoc(v, u, p);
    Dist(v, uv, u * p);
  }

  /** One limb of multiply-and-add. */
  method AddMulWord(rl: Limb, ul: Limb, vl: Limb, cl: Limb) returns (r: Limb, c: Limb)
    ensures c * B + r == rl + vl * ul + cl
  {
    var hpl, lpl := Umul(ul, vl);
    ProductTop(ul, vl, hpl, lpl);
    lpl := AddW(lpl, cl);
    c := (if lpl < cl then 1 else 0) + hpl;
    r := AddW(rl, lpl);
    c := c + if r < rl then 1 else 0;
  }

  /** mpn_addmul_1 */
  method AddMul1(rp: array<Limb>, o: nat, up: array<Limb>, n: nat, vl: Limb) returns (cl: Limb)
    requires o + n <= rp.Length && n <= up.Length && rp != up
    modifies rp
    ensures OnlyWindow(rp, o, n)
    ensures Val(rp[o..o + n]) + cl * Pow(n) == old(Val(rp[o..o + n])) + vl * Val(up[..n])
  {
    hide Val;
    hide Pow;
    hide AddMulSoFar;
    ghost var zs, us, rs: seq<Limb> := rp[o..o + n], up[..n], [];
    cl := 0;
    AddMulNone(zs, us, vl);
    for i := 0 to n
      invariant OnlyWindow(rp, o, i)
      invariant |rs| == i && forall k :: 0 <= k < i ==> rp[o + k] == rs[k]
      invariant AddMulSoFar(rs, cl, zs, us, vl)
    {
      assert rp[o + i] == zs[i] && up[i] == us[i];
      var r, c := AddMulWord(rp[o + i], up[i], vl, cl);
      AddMulStep(rs, cl, zs, us, vl, r, c);
      cl := c;
      rp[o + i] := r;
      rs := rs + [r];
    }
    assert rp[o..o + n] == rs;
    AddMulDone(rs, cl, zs, us, vl);
  }

  lemma {:induction false} AddMulNone(zs: seq<Limb>, us: seq<Limb>, v: int)
    requires |zs| == |us|
    ensures AddMulSoFar([], 0, zs, us, v)
  {
    assert us[..0] == [] && zs[..0] == [];
  }

  lemma {:induction false} AddMulDone(rs: seq<Limb>, cl: int, zs: seq<Limb>, us: seq<Limb>, v: int)
    requires AddMulSoFar(rs, cl, zs, us, v) && |rs| == |us|
    ensures Val(rs) + cl * Pow(|us|) == Val(zs) + v * Val(us)
  {
    assert us[..|us|] == us && zs[..|us|] == zs;
  }

  /* ---- A product of two arrays ---- */

  /** One more row: the high part of the product so far takes it up. */
  lemma {:induction false} RowAdded(low: seq<Limb>, w: seq<Limb>, w': seq<Limb>, c: Limb, us: seq<Limb>, vs: seq<Limb>, j: nat)
    requires |w| == |w'| == |us| && |low| == j < |vs|
    requires Val(low + w) == Val(us) * Val(vs[..j])
    requires Val(w') + c * Pow(|us|) == Val(w) + vs[j] * Val(us)
    ensures Val(low + w' + [c]) == Val(us) * Val(vs[..j + 1])
  {
    hide Val;
    hide Pow;
    ValAppend(low, w);
    ValAppend(low, w' + [c]);
    ValSnoc(w', c);
    assert low + w' + [c] == low + (w' + [c]);
    ValPrefix(vs, j);
    RowArith(Pow(j), Val(w), vs[j], Val(us), Val(vs[..j]));
  }

  lemma {:induction false} RowArith(p: int, w: int, v: int, u: int, vv: int)
    ensures p * (w + v * u) + u * vv == p * w + u * (vv + v * p)
  {
    Dist(p, w, v * u);
    Dist(u, vv, v * p);
    Assoc(u, v, p);
    Assoc(p, v, u);
    Assoc(v, p, u);
    Assoc(v, u, p);
  }

  lemma {:induction false} FirstRow(rs: seq<Limb>, c: Limb, us: seq<Limb>, vs: seq<Limb>)
    requires |rs| == |us| && |vs| > 0 && Val(rs) + c * Pow(|us|) == vs[0] * Val(us)
    ensures Val(rs + [c]) == Val(us) * Val(vs[..1])
  {
    hide Pow;
    SingleWord(vs[..1]);
    hide Val;
    ValSnoc(rs, c);
  }

  /** The row of one more word of vp. */
  method AddRow(rp: array<Limb>, up: array<Limb>, un: nat, v: Limb, j: nat, ghost us: seq<Limb>, ghost vs: seq<Limb>)
    returns (top: Limb)
    requires un + j < rp.Length && un <= up.Length && rp != up && us == up[..un] && j < |vs| && v == vs[j]
    requires Val(rp[..un + j]) == Val(us) * Val(vs[..j])
    modifies rp
    ensures OnlyWindow(rp, 0, un + j + 1)
    ensures Val(rp[..un + j + 1]) == Val(us) * Val(vs[..j + 1])
    ensures top == rp[un + j]
  {
    hide Val;
    hide Pow;
    ghost var low, w := rp[..j], rp[j..j + un];
    assert rp[..un + j] == low + w;
    top := AddMul1(rp, j, up, un, v);
    ghost var w' := rp[j..j + un];
    assert rp[..j] == low;
    RowAdded(low, w, w', top, us, vs, j);
    rp[j + un] := top;
    assert rp[..un + j + 1] == low + w' + [top];
  }

  /** mpn_mul: the rows of the product one above the other, the top limb returned. */
  method Mul(rp: array<Limb>, up: array<Limb>, un: nat, vp: array<Limb>, vn: nat) returns (top: Limb)
    requires 1 <= vn <= un && un <= up.Length && vn <= vp.Length && un + vn <= rp.Length
    requires rp != up && rp != vp
    modifies rp
    ensures OnlyWindow(rp, 0, un + vn)
    ensures Val(rp[..un + vn]) == Val(up[..un]) * Val(vp[..vn])
    ensures top == rp[un + vn - 1]
  {
    hide Val;
    hide Pow;
    ghost var us, vs := up[..un], vp[..vn];
    top := Mul1(rp, up, un, vp[0]);
    ghost var rs := rp[..un];
    FirstRow(rs, top, us, vs);
    rp[un] := top;
    assert rp[..un + 1] == rs + [top];
    for j := 1 to vn
      invariant OnlyWindow(rp, 0, un + j)
      invariant Val(rp[..un + j]) == Val(us) * Val(vs[..j])
      invariant top == rp[un + j - 1]
    {
      top := AddRow(rp, up, un, vp[j], j, us, vs);
    }
    assert vs[..vn] == vs;
  }

  /* ---- mpz_mul ---- */

  /** The product of two normalised numbers has at most one leading zero limb. */
  lemma {:induction false} ProductSize(us: seq<Limb>, vs: seq<Limb>, rs: seq<Limb>)
    requires us != [] && vs != [] && us[|us| - 1] != 0 && vs[|vs| - 1] != 0
    requires |rs| == |us| + |vs| && Val(rs) == Val(us) * Val(vs)
    ensures rs[|rs| - 1] == 0 ==> rs[|rs| - 2] != 0 && Val(rs[..|rs| - 1]) == Val(rs)
  {
    hide Val;
    hide Pow;
    if rs[|rs| - 1] == 0 {
      var ts := rs[..|rs| - 1];
      ValTop(rs);
      NonZeroMagnitude(us);
      NonZeroMagnitude(vs);
      var p, q := Pow(|us| - 1), Pow(|vs| - 1);
      MulLe(p, q, Val(vs));
      MulLe(Val(vs), p, Val(us));
      PowAdd(|us| - 1, |vs| - 1);
      if ts[|ts| - 1] == 0 {
        ValTop(ts);
      }
    }
  }

  lemma {:induction false} SignedProduct(negU: bool, u: nat, negV: bool, v: nat)
    ensures 0 <= u * v && Signed(negU, u) * Signed(negV, v) == Signed(negU != negV, u * v)
  {
    MulLe(u, 0, v);
  }

  /** The magnitudes multiplied into a new buffer, which may have a zero limb on top. */
  method MulMagnitudes(u: Mpz, v: Mpz) returns (tp: array<Limb>)
    requires u.Valid() && v.Valid() && u.size != 0 && v.size != 0
    ensures fresh(tp) && tp.Length == Abs(u.size) + Abs(v.size)
    ensures Val(tp[..]) == u.Magnitude() * v.Magnitude()
  {
    hide Val;
    hide Pow;
    var un, vn, top := Abs(u.size), Abs(v.size), 0;
    tp := new Limb[un + vn];
    if un >= vn {
      top := Mul(tp, u.d, un, v.d, vn);
    } else {
      top := Mul(tp, v.d, vn, u.d, un);
    }
    assert tp[..] == tp[..un + vn];
  }

  /** Without a zero limb on top: the size of the product. */
  method ProductLimbs(tp: array<Limb>, ghost us: seq<Limb>, ghost vs: seq<Limb>) returns (rn: nat)
    requires us != [] && vs != [] && us[|us| - 1] != 0 && vs[|vs| - 1] != 0
    requires tp.Length == |us| + |vs| && Val(tp[..]) == Val(us) * Val(vs)
    ensures Stores(tp, rn, Val(us) * Val(vs)) && rn > 0
  {
    hide Val;
    hide Pow;
    rn := tp.Length;
    ghost var rs := tp[..];
    ProductSize(us, vs, rs);
    assert tp[..rn] == rs && tp[..rn - 1] == rs[..rn - 1];
    if tp[rn - 1] == 0 {
      rn := rn - 1;
    }
  }

  /** mpz_mul; r may be u or v, and u may be v. */
  method MpzMul(r: Mpz, u: Mpz, v: Mpz)
    requires u.Valid() && v.Valid()
    modifies r
    ensures r.d == old(r.d) || fresh(r.d)
    ensures r.Valid() && r.Int() == old(u.Int()) * old(v.Int())
  {
    hide Val;
    hide Pow;
    if u.size == 0 || v.size == 0 {
      EmptyIsZero();
      r.size := 0;
      return;
    }
    var sign := (u.size < 0) != (v.size < 0);
    SignedProduct(u.size < 0, u.Magnitude(), v.size < 0, v.Magnitude());
    var tp := MulMagnitudes(u, v);
    var rn := ProductLimbs(tp, u.d[..Abs(u.size)], v.d[..Abs(v.size)]);
    r.d := tp;
    var size: int := rn;
    r.size := if sign then -size else size;
    assert r.d[..Abs(r.size)] == tp[..rn];
  }
}
