/** Limb arrays from and to digits in bases that are no powers of two: whole
    chunks of digits, the largest power of the base that fits a limb at a time. */
module Radix {
  import opened Arith
  import opened Limbs
  import opened WordOps
  import opened PowerOfTwo
  import opened Mpn
  import opened Reciprocal
  import opened MpnDivision
  import opened Product
  import opened Digits

  /** mpn_get_base_info */
  method GetBaseInfo(b: Limb) returns (exp: nat, bb: Limb)
    requires b >= 2
    ensures exp >= 1 && bb == IPow(b, exp) && b <= bb
    ensures IPow(b, exp + 1) >= B
  {
    hide IPow;
    var m := (B - 1) / b;
    exp, bb := 1, b;
    OnePower(b);
    while bb <= m
      invariant exp >= 1 && bb == IPow(b, exp) && b <= bb
      decreases B - bb
    {
      NextPower(b, bb, exp, m);
      bb := bb * b;
      exp := exp + 1;
    }
    NoNextPower(b, bb, exp, m);
  }

  lemma {:induction false} NoNextPower(b: nat, p: nat, exp: nat, m: nat)
    requires b >= 2 && p == IPow(b, exp) && p > m && m == (B - 1) / b
    ensures IPow(b, exp + 1) >= B
  {
    MulLe(b, m + 1, p);
    Dist(b, m, 1);
  }

  lemma {:induction false} OnePower(b: nat)
    requires b > 0
    ensures IPow(b, 1) == b
  {
    assert IPow(b, 0) == 1;
  }

  lemma {:induction false} NextPower(b: nat, p: nat, exp: nat, m: nat)
    requires b >= 2 && p == IPow(b, exp) && p <= m && m == (B - 1) / b
    ensures p < p * b < B && p * b == IPow(b, exp + 1)
  {
    MulLe(b, p, m);
    MulLe(p, 2, b);
  }

  /** The two words of w shifted up by c bits. */
  lemma {:induction false} ShiftedWord(w: Limb, c: nat)
    requires 0 < c < 64
    ensures Pow2(c) * Pow2(64 - c) == B && 0 <= w * Pow2(c)
    ensures (w / Pow2(64 - c)) * B + (w * Pow2(c)) % B == w * Pow2(c)
    ensures 0 <= w / Pow2(64 - c) < Pow2(c)
  {
    Pow2Add(c, 64 - c);
    WordPowers();
    hide Pow2;
    SplitWord(w, Pow2(c), Pow2(64 - c));
  }

  lemma {:induction false} SplitWord(w: nat, c: nat, t: nat)
    requires 0 < c && 0 < t && c * t == B && w < B
    ensures 0 <= w * c && (w / t) * B + (w * c) % B == w * c && 0 <= w / t < c
  {
    var q, r := w / t, w % t;
    assert w == t * q + r;
    Dist(c, t * q, r);
    Assoc(c, t, q);
    MulLe(c, r, t - 1);
    MulLe(c, 0, r);
    DistSub(c, t, 1);
    DivUnique(w * c, B, q, c * r);
    DivNonNegative(w, t);
    if q >= c {
      MulLe(t, c, q);
    }
  }

  /** A step of the digit loop: divide by the base through its inverse. */
  method NextDigit(w: Limb, inv: DivInverse, ghost b: Limb) returns (q: Limb, r: Limb)
    requires Normalises1(inv, b) && 2 <= b <= 36
    ensures w == b * q + r && r < b
  {
    ShiftPositive(inv, b);
    TopAboveShift(inv, b);
    hide IsInverse2by1;
    hide Pow2;
    var c := Pow2(inv.shift);
    var h, l := ShiftUp(w, inv.shift);
    var s;
    q, s := UdivQrnndPreinv(h, l, inv.d1, inv.di);
    Denormalised(c, w, q, b, s, inv.d1);
    r := s / c;
  }

  method ShiftUp(w: Limb, c: nat) returns (h: Limb, l: Limb)
    requires 0 < c < 64
    ensures h * B + l == w * Pow2(c) && h < Pow2(c)
  {
    ShiftedWord(w, c);
    hide Pow2;
    h := w / Pow2(64 - c);
    l := (w * Pow2(c)) % B;
  }

  lemma {:induction false} Denormalised(c: int, w: int, q: int, b: int, s: int, d: int)
    requires 1 <= c && d == b * c && w * c == q * d + s && 0 <= s < d
    ensures w == b * q + s / c && 0 <= s / c < b
  {
    Denormalise(c, w, q, b, s);
  }

  lemma {:induction false} ShiftPositive(inv: DivInverse, b: Limb)
    requires Normalises1(inv, b) && b <= 36
    ensures 0 < inv.shift < 64
  {
    assert Pow2(0) == 1;
  }

  lemma {:induction false} TopAboveShift(inv: DivInverse, b: Limb)
    requires Normalises1(inv, b) && b >= 2
    ensures Pow2(inv.shift) <= inv.d1
  {
    hide Pow2;
    MulLe(Pow2(inv.shift), 1, b);
  }

  /** The rest of a number after its low digits. */
  lemma {:induction false} RestStep(v: nat, ds: seq<nat>, w: nat, q: nat, r: nat, b: nat)
    requires b > 0 && v == NumLow(ds, b) + IPow(b, |ds|) * w && w == b * q + r
    ensures v == NumLow(ds + [r], b) + IPow(b, |ds + [r]|) * q
  {
    hide NumLow;
    hide IPow;
    NumLowSnoc(ds, r, b);
    PowerSnoc(b, |ds|);
    var p := IPow(b, |ds|);
    Dist(p, b * q, r);
    Assoc(p, b, q);
  }

  lemma {:induction false} PowerSnoc(b: nat, n: nat)
    requires b > 0
    ensures IPow(b, n + 1) == IPow(b, n) * b
  {
  }

  lemma {:induction false} NoDigits(b: nat)
    requires b > 0
    ensures NumLow([], b) == 0 && IPow(b, 0) == 1
  {
  }

  /** mpn_limb_get_str: the digits of a word, least significant first, without
      zeros at the end. */
  method LimbGetStr(w0: Limb, inv: DivInverse, ghost b: Limb) returns (ds: seq<nat>)
    requires Normalises1(inv, b) && 2 <= b <= 36
    ensures AreDigits(ds, b) && NumLow(ds, b) == w0
    ensures ds != [] ==> ds[|ds| - 1] != 0
    ensures w0 > 0 ==> ds != []
  {
    hide NumLow;
    hide IPow;
    hide Normalises1;
    ds := [];
    var w := w0;
    NoDigits(b);
    while w > 0
      invariant AreDigits(ds, b) && w0 == NumLow(ds, b) + IPow(b, |ds|) * w
      invariant w == 0 && ds != [] ==> ds[|ds| - 1] != 0
      invariant ds == [] ==> w == w0
    {
      var q, r := NextDigit(w, inv, b);
      RestStep(w0, ds, w, q, r, b);
      SmallerQuotient(w, b, q, r);
      ds := ds + [r];
      w := q;
    }
    TimesZero(IPow(b, |ds|));
  }

  lemma {:induction false} TimesZero(p: int)
    ensures p * 0 == 0
  {
  }

  lemma {:induction false} SmallerQuotient(w: nat, b: nat, q: nat, r: nat)
    requires w > 0 && b >= 2 && w == b * q + r
    ensures q < w && (q == 0 ==> r == w)
  {
    MulLe(q, 2, b);
  }

  /* ---- From limbs to digits ---- */

  /** Dividing by a word takes away at most one limb. */
  lemma {:induction false} OneLimbLess(us: seq<Limb>, qs: seq<Limb>, d: Limb, r: Limb)
    requires |us| >= 2 && |qs| == |us| && us[|us| - 1] != 0
    requires Val(us) == Val(qs) * d + r && r < d
    ensures qs[|us| - 1] == 0 ==> qs[|us| - 2] != 0
  {
    hide Val;
    hide Pow;
    var n := |us|;
    if qs[n - 1] == 0 && qs[n - 2] == 0 {
      ValTop(us);
      MulLe(Pow(n - 1), 1, us[n - 1]);
      ValTop(qs);
      ValTop(qs[..n - 1]);
      assert qs[..n - 1][..n - 2] == qs[..n - 2];
      PowNext(n - 2);
      SmallProduct(Val(qs), d, Pow(n - 2), r);
      assert false;
    }
  }

  lemma {:induction false} SmallProduct(q: int, d: Limb, p: int, r: Limb)
    requires 0 <= q < p && r < d
    ensures q * d + r < B * p
  {
    MulLe(d, q, p - 1);
    DistSub(d, p, 1);
    MulLe(p, d, B);
  }

  lemma {:induction false} ZeroDigits(ds: seq<nat>, n: nat, b: nat)
    requires b > 0
    ensures NumLow(ds + seq(n, i => 0), b) == NumLow(ds, b)
  {
    NumLowAppend(ds, seq(n, i => 0), b);
    AllZero(n, b);
  }

  lemma {:induction false} AllZero(n: nat, b: nat)
    ensures NumLow(seq(n, i => 0), b) == 0
  {
    if n > 0 {
      AllZero(n - 1, b);
      assert seq(n, i => 0)[1..] == seq(n - 1, i => 0);
    }
  }

  /** A number below b^n has at most n digits. */
  lemma {:induction false} FewDigits(ds: seq<nat>, b: nat, n: nat)
    requires b >= 2 && AreDigits(ds, b) && (ds != [] ==> ds[|ds| - 1] != 0) && NumLow(ds, b) < IPow(b, n)
    ensures |ds| <= n
  {
    hide NumLow;
    if |ds| > n {
      var k := |ds| - 1;
      assert ds == ds[..k] + [ds[k]];
      NumLowSnoc(ds[..k], ds[k], b);
      MulLe(IPow(b, k), 1, ds[k]);
      IPowMonotone(b, n, k);
    }
  }

  lemma {:induction false} IPowMonotone(b: nat, m: nat, n: nat)
    requires b > 0 && m <= n
    ensures IPow(b, m) <= IPow(b, n)
  {
    if m < n {
      IPowMonotone(b, m, n - 1);
      MulLe(IPow(b, n - 1), 1, b);
    }
  }

  /** One chunk of digits more. */
  lemma {:induction false} ChunkStep(v: nat, sp: seq<nat>, w: nat, rest: nat, ds: seq<nat>, exp: nat, b: nat, u: nat)
    requires b > 0 && v == NumLow(sp, b) + IPow(b, |sp|) * u && u == rest * IPow(b, exp) + w
    requires NumLow(ds, b) == w && |ds| == exp
    ensures v == NumLow(sp + ds, b) + IPow(b, |sp + ds|) * rest
  {
    hide NumLow;
    hide IPow;
    NumLowAppend(sp, ds, b);
    IPowAdd(b, |sp|, exp);
    var p, q := IPow(b, |sp|), IPow(b, exp);
    Dist(p, rest * q, w);
    Assoc(p, q, rest);
  }

  /** mpn_get_str_other: the digits of a number, most significant first and without
      a leading zero. The limbs are divided in place. */
  method GetStrOther(b: Limb, exp: nat, bb: Limb, up: array<Limb>, un0: nat) returns (sp: seq<nat>)
    requires 2 <= b <= 36 && exp >= 1 && bb == IPow(b, exp) && b <= bb
    requires 0 < un0 <= up.Length && up[un0 - 1] != 0
    modifies up
    ensures AreDigits(sp, b) && Num(sp, b) == old(Val(up[..un0]))
    ensures sp != [] && sp[0] != 0
  {
    hide NumLow;
    hide Num;
    hide IPow;
    hide Val;
    hide Normalises1;
    ghost var v := Val(up[..un0]);
    var un := un0;
    var inv := DivQr1Invert(b);
    sp := [];
    NoDigits(b);
    if un > 1 {
      var bbinv := DivQr1Invert(bb);
      while un > 1
        invariant 1 <= un <= un0 && up[un - 1] != 0
        invariant AreDigits(sp, b) && v == NumLow(sp, b) + IPow(b, |sp|) * Val(up[..un])
        decreases Val(up[..un])
      {
        sp, un := NextChunk(b, exp, bb, up, un, inv, bbinv, sp, v);
      }
    }
    SingleWord(up[..un]);
    var ds := LimbGetStr(up[0], inv, b);
    NumLowAppend(sp, ds, b);
    sp := sp + ds;
    sp := Reverse(sp, b);
  }

  method NextChunk(b: Limb, exp: nat, bb: Limb, up: array<Limb>, un0: nat, inv: DivInverse, bbinv: DivInverse,
      sp0: seq<nat>, ghost v: nat)
    returns (sp: seq<nat>, un: nat)
    requires 2 <= b <= 36 && exp >= 1 && bb == IPow(b, exp) && b <= bb && Normalises1(inv, b) && Normalises1(bbinv, bb)
    requires 1 < un0 <= up.Length && up[un0 - 1] != 0
    requires AreDigits(sp0, b) && v == NumLow(sp0, b) + IPow(b, |sp0|) * Val(up[..un0])
    modifies up
    ensures 1 <= un <= un0 && up[un - 1] != 0 && (un < un0 || |sp| > |sp0|)
    ensures AreDigits(sp, b) && v == NumLow(sp, b) + IPow(b, |sp|) * Val(up[..un])
    ensures Val(up[..un]) < old(Val(up[..un0]))
  {
    hide NumLow;
    hide IPow;
    hide Val;
    hide Normalises1;
    un := un0;
    ghost var us := up[..un];
    var w, qs := DivQr1Preinv(up, up, un, bbinv, bb);
    OneLimbLess(us, qs, bb, w);
    if up[un - 1] == 0 {
      DropZero(qs);
      assert up[..un - 1] == qs[..un - 1];
      un := un - 1;
    }
    var ds := LimbGetStr(w, inv, b);
    FewDigits(ds, b, exp);
    ZeroDigits(ds, exp - |ds|, b);
    ds := ds + seq(exp - |ds|, i => 0);
    ChunkStep(v, sp0, w, Val(qs), ds, exp, b, Val(us));
    sp := sp0 + ds;
    NonZeroTop(up[..un]);
    QuotientSmaller(Val(us), Val(qs), bb, w);
  }

  lemma {:induction false} NonZeroTop(s: seq<Limb>)
    requires |s| > 0 && s[|s| - 1] != 0
    ensures Val(s) > 0
  {
    hide Val;
    hide Pow;
    ValTop(s);
    MulLe(Pow(|s| - 1), 1, s[|s| - 1]);
  }

  lemma {:induction false} QuotientSmaller(u: nat, q: nat, d: nat, r: nat)
    requires u == q * d + r && q > 0 && d >= 2
    ensures q < u
  {
    MulLe(q, 2, d);
  }

  /** The loop that reverses the digits. */
  method Reverse(sp0: seq<nat>, ghost b: nat) returns (sp: seq<nat>)
    ensures sp == Reversed(sp0)
    ensures Num(sp, b) == NumLow(sp0, b)
  {
    sp := sp0;
    var i, sn := 0, |sp0|;
    while 2 * i + 1 < sn
      invariant 0 <= 2 * i <= sn + 1 && |sp| == sn
      invariant forall k :: 0 <= k < i ==> sp[k] == sp0[sn - 1 - k] && sp[sn - 1 - k] == sp0[k]
      invariant forall k :: i <= k < sn - i ==> sp[k] == sp0[k]
    {
      var t := sp[i];
      sp := sp[i := sp[sn - i - 1]];
      sp := sp[sn - i - 1 := t];
      i := i + 1;
    }
    NumReversed(sp0, b);
    forall k | 0 <= k < sn
      ensures sp[k] == sp0[sn - 1 - k]
    {
      if k >= sn - i {
        assert sp[sn - 1 - (sn - 1 - k)] == sp0[sn - 1 - k];
      }
    }
  }

  /* ---- From digits to limbs ---- */

  lemma {:induction false} NumPrefix(sp: seq<nat>, j: nat, b: nat)
    requires j < |sp|
    ensures Num(sp[..j + 1], b) == b * Num(sp[..j], b) + sp[j]
  {
    assert sp[..j + 1][..j] == sp[..j];
  }

  lemma {:induction false} NumNone(sp: seq<nat>, b: nat)
    ensures Num(sp[..0], b) == 0
  {
  }

  /** A word of digits, read into w. */
  method TakeWord(sp: seq<nat>, j0: nat, k: nat, b: Limb, ghost exp: nat, ghost bb: Limb) returns (w: Limb, j: nat)
    requires 2 <= b && 1 <= k <= exp && bb == IPow(b, exp) && j0 + k <= |sp| && AreDigits(sp, b)
    ensures j == j0 + k && w < bb
    ensures Num(sp[..j], b) == Num(sp[..j0], b) * IPow(b, k) + w
  {
    hide IPow;
    hide Num;
    IPowMonotone(b, 1, exp);
    OnePower(b);
    j := j0;
    w := sp[j];
    NumPrefix(sp, j, b);
    j := j + 1;
    var left := k - 1;
    ghost var n := 1;
    while left != 0
      invariant 0 <= left <= k - 1 && n + left == k && j == j0 + n
      invariant w < IPow(b, n)
      invariant Num(sp[..j], b) == Num(sp[..j0], b) * IPow(b, n) + w
    {
      IPowMonotone(b, n + 1, exp);
      WordGrows(w, b, n, sp[j]);
      NumPrefix(sp, j, b);
      WordStep(Num(sp[..j0], b), IPow(b, n), w, b, sp[j], Num(sp[..j], b));
      w := w * b + sp[j];
      j := j + 1;
      n := n + 1;
      left := left - 1;
    }
    IPowMonotone(b, k, exp);
  }

  lemma {:induction false} WordGrows(w: nat, b: nat, n: nat, x: nat)
    requires b > 0 && w < IPow(b, n) && x < b
    ensures 0 <= w * b && w * b + x < IPow(b, n + 1)
    ensures IPow(b, n + 1) == IPow(b, n) * b
  {
    PowerSnoc(b, n);
    MulLe(b, w, IPow(b, n) - 1);
    MulLe(b, 0, w);
    DistSub(b, IPow(b, n), 1);
  }

  lemma {:induction false} WordStep(h: nat, p: nat, w: nat, b: nat, x: nat, v: nat)
    requires v == h * p + w
    ensures b * v + x == h * (p * b) + (w * b + x)
  {
    Dist(b, h * p, w);
    Assoc(h, p, b);
  }

  /** The limbs, their top one not zero unless there is only one, times a word, plus
      a word. */
  method MulAdd(rp: array<Limb>, rn0: nat, bb: Limb, w: Limb) returns (rn: nat)
    requires 1 <= rn0 < rp.Length && 2 <= bb && (rn0 > 1 ==> rp[rn0 - 1] != 0)
    modifies rp
    ensures rn0 <= rn <= rn0 + 1 && (rn > 1 ==> rp[rn - 1] != 0)
    ensures Val(rp[..rn]) == old(Val(rp[..rn0])) * bb + w
  {
    hide Val;
    hide Pow;
    ghost var us := rp[..rn0];
    rn := rn0;
    var cy := Mul1(rp, rp, rn, bb);
    ghost var ms := rp[..rn];
    assert rp[0..0 + rn] == ms;
    var c := Add1(rp, rp, 0, rn, w);
    ghost var rs := rp[..rn];
    assert rp[0..0 + rn] == rs;
    CarryFits(Val(rs), c, cy, Pow(rn), Val(us), bb, w, Val(ms));
    ValBound(us);
    cy := cy + c;
    if cy > 0 {
      rp[rn] := cy;
      ValSnoc(rs, cy);
      assert rp[..rn + 1] == rs + [cy];
      rn := rn + 1;
    } else {
      if rn > 1 {
        StaysNonZero(us, rs, bb, w);
      }
    }
  }

  lemma {:induction false} CarryFits(r: nat, c: nat, cy: nat, p: nat, u: nat, bb: Limb, w: Limb, m: nat)
    requires m + cy * p == bb * u && r + c * p == m + w && 0 < p
    ensures r + (cy + c) * p == u * bb + w
    ensures u < p && 2 <= bb ==> cy + c < B
  {
    Dist(p, cy, c);
    if u < p && 2 <= bb {
      MulLe(bb, u, p - 1);
      DistSub(bb, p, 1);
      MulLe(B - bb, 1, p);
      DistSub(p, B, bb);
      if cy + c >= B {
        MulLe(p, B, cy + c);
      }
    }
  }

  lemma {:induction false} StaysNonZero(us: seq<Limb>, rs: seq<Limb>, bb: nat, w: nat)
    requires |us| == |rs| > 0 && us[|us| - 1] != 0 && 1 <= bb && Val(rs) == Val(us) * bb + w
    ensures rs[|rs| - 1] != 0
  {
    hide Val;
    hide Pow;
    var n := |us|;
    ValTop(us);
    ValTop(rs);
    MulLe(Pow(n - 1), 1, us[n - 1]);
    MulLe(Val(us), 1, bb);
  }

  /** How many limbs the digits need at most. */
  function LimbsFor(dn: nat, exp: nat): nat
    requires exp > 0
  {
    (dn + exp - 1) / exp
  }

  lemma {:induction false} FirstChunk(sn: nat, exp: nat) returns (m: nat)
    requires sn > 0 && exp > 0
    ensures var k := 1 + (sn - 1) % exp; 1 <= k <= exp && sn == k + m * exp && LimbsFor(sn, exp) == m + 1
  {
    m := (sn - 1) / exp;
    DivNonNegative(sn - 1, exp);
    var r := (sn - 1) % exp;
    assert sn - 1 == m * exp + r;
    DivUnique(sn + exp - 1, exp, m + 1, r);
  }

  /** mpn_set_str_other: the limbs of the number that the digits stand for. */
  method SetStrOther(rp: array<Limb>, sp: seq<nat>, b: Limb, exp: nat, bb: Limb) returns (rn: nat)
    requires sp != [] && 2 <= b && exp >= 1 && bb == IPow(b, exp) && b <= bb && AreDigits(sp, b)
    requires LimbsFor(|sp|, exp) <= rp.Length
    modifies rp
    ensures 1 <= rn <= rp.Length && (rn > 1 ==> rp[rn - 1] != 0)
    ensures Val(rp[..rn]) == Num(sp, b)
  {
    hide Val;
    hide Num;
    hide IPow;
    hide LimbsFor;
    ghost var m := FirstChunk(|sp|, exp);
    var k := 1 + (|sp| - 1) % exp;
    NumNone(sp, b);
    var w, j := TakeWord(sp, 0, k, b, exp, bb);
    TimesZero(IPow(b, k));
    rp[0] := w;
    rn := 1;
    SingleWord(rp[..1]);
    while j < |sp|
      invariant 1 <= rn <= rp.Length && (rn > 1 ==> rp[rn - 1] != 0) && rn + m <= rp.Length
      invariant j <= |sp| && j + m * exp == |sp|
      invariant Val(rp[..rn]) == Num(sp[..j], b)
      decreases m
    {
      MoreChunks(m, exp, |sp| - j);
      w, j := TakeWord(sp, j, exp, b, exp, bb);
      rn := MulAdd(rp, rn, bb, w);
      m := m - 1;
    }
    assert sp[..j] == sp by { NoChunks(m, exp); }
  }

  lemma {:induction false} MoreChunks(m: nat, exp: nat, rest: nat)
    requires m * exp == rest && rest > 0
    ensures m > 0 && (m - 1) * exp == rest - exp && exp <= rest
  {
    if m > 0 {
      DistSub(exp, m, 1);
      MulLe(exp, 0, m - 1);
    }
  }

  lemma {:induction false} NoChunks(m: nat, exp: nat)
    ensures 0 <= m * exp
  {
    MulLe(exp, 0, m);
  }
}
