/** Division of limb arrays by a precomputed inverse of the top of the divisor. */
module MpnDivision {
  import opened Arith
  import opened Limbs
  import opened PowerOfTwo
  import opened Mpn
  import opened Reciprocal

  /** Shift that normalises the divisor, its top words after the shift, and their inverse. */
  datatype DivInverse = DivInverse(shift: nat, d1: Limb, d0: Limb, di: Limb)

  /** xs is what np holds from position i on. */
  ghost predicate Holds(np: array<Limb>, i: nat, xs: seq<Limb>)
    reads np
  {
    i + |xs| <= np.Length && forall k {:trigger xs[k]} :: 0 <= k < |xs| ==> np[i + k] == xs[k]
  }

  /** The top words ns[i..], with cy above them, divided by d: quotient words qs, remainder rem. */
  ghost predicate QuotientSoFar(ns: seq<Limb>, i: nat, qs: seq<Limb>, d: int, rem: int, cy: int)
  {
    i <= |ns| && Val(ns[i..]) + cy * Pow(|ns| - i) == Val(qs) * d + rem
  }

  /** One quotient word more. */
  lemma {:induction false} QuotientStep(ns: seq<Limb>, i: nat, qs: seq<Limb>, d: int, rem: int, q: Limb, rem': int, cy: int)
    requires 0 < i && QuotientSoFar(ns, i, qs, d, rem, cy)
    requires rem * B + ns[i - 1] == q * d + rem'
    ensures QuotientSoFar(ns, i - 1, [q] + qs, d, rem', cy)
  {
    ValSuffix(ns, i - 1);
    assert ([q] + qs)[1..] == qs;
    QuotientScale(Val(qs), d, rem, q, rem', ns[i - 1], Val(ns[i..]), cy, Pow(|ns| - i));
  }

  lemma {:induction false} QuotientNone(ns: seq<Limb>, d: int, cy: int)
    ensures QuotientSoFar(ns, |ns|, [], d, cy, cy)
  {
    assert ns[|ns|..] == [];
  }

  lemma {:induction false} QuotientEnd(ns: seq<Limb>, qs: seq<Limb>, d: int, rem: int, cy: int)
    requires QuotientSoFar(ns, 0, qs, d, rem, cy)
    ensures Val(ns) + cy * Pow(|ns|) == Val(qs) * d + rem
  {
    assert ns[0..] == ns;
  }

  lemma {:induction false} QuotientScale(qv: int, d: int, rem: int, q: int, rem': int, n: int, nv: int, cy: int, p: int)
    requires nv + cy * p == qv * d + rem && rem * B + n == q * d + rem'
    ensures n + B * nv + cy * (B * p) == (q + B * qv) * d + rem'
  {
    Dist(d, q, B * qv);
    Assoc(B, qv, d);
    Assoc(B, cy, p);
    Assoc(cy, B, p);
  }

  /* ---- One-word divisors ---- */

  ghost predicate Normalises1(inv: DivInverse, d: Limb)
  {
    inv.shift < 64 && inv.d1 == d * Pow2(inv.shift) && IsInverse2by1(inv.d1, inv.di)
  }

  method DivQr1Invert(d: Limb) returns (inv: DivInverse)
    requires 0 < d
    ensures Normalises1(inv, d)
  {
    var shift := Clz(d);
    var d1 := MulW(d, Pow2(shift));
    MulWExact(d, Pow2(shift));
    var di := InvertLimb(d1);
    inv := DivInverse(shift, d1, 0, di);
  }

  lemma {:induction false} CarryBelowDivisor(cnt: nat, d1: Limb, ret: int)
    requires cnt < 64 && B <= 2 * d1 && ret < Pow2(cnt)
    ensures ret < d1
  {
    WordPowers();
    Pow2Monotone(cnt, 63);
    assert Pow2(64) == 2 * Pow2(63);
  }

  /** Dividing out the normalisation shift c. */
  lemma {:induction false} Denormalise(c: int, n: int, q: int, d: int, r: int)
    requires 1 <= c && c * n == q * (d * c) + r && 0 <= r < d * c
    ensures r % c == 0 && n == q * d + r / c && 0 <= r / c < d
    ensures r == c * (n - q * d)
  {
    Assoc(q, d, c);
    DistSub(c, n, q * d);
    DivUnique(r, c, n - q * d, 0);
    MulCancel(c, 0, r / c);
    MulCancel(c, r / c + 1, d);
  }

  /** The quotient words go to qp, when there is one, and in any case to qs; qp may be np. */
  method DivQr1Preinv(qp: array?<Limb>, np: array<Limb>, nn: nat, inv: DivInverse, ghost d0: Limb)
    returns (r: Limb, ghost qs: seq<Limb>)
    requires Normalises1(inv, d0) && 1 <= nn <= np.Length && (qp != null ==> nn <= qp.Length)
    modifies qp
    ensures qp != null ==> OnlyWindow(qp, 0, nn) && qp[..nn] == qs
    ensures |qs| == nn && old(Val(np[..nn])) == Val(qs) * d0 + r && r < d0
  {
    ghost var v := Val(np[..nn]);
    var a := np;
    r := 0;
    if inv.shift > 0 {
      a := new Limb[nn];
      r := LShift(a, np, nn, inv.shift);
      CarryBelowDivisor(inv.shift, inv.d1, r);
    }
    r, qs := DivQr1Loop(qp, a, nn, inv.d1, inv.di, r);
    Denormalise(Pow2(inv.shift), v, Val(qs), d0, r);
    r := r / Pow2(inv.shift);
  }

  method DivQr1Loop(qp: array?<Limb>, a: array<Limb>, nn: nat, d: Limb, di: Limb, cy: Limb) returns (r: Limb, ghost qs: seq<Limb>)
    requires nn <= a.Length && (qp != null ==> nn <= qp.Length)
    requires IsInverse2by1(d, di) && cy < d
    modifies qp
    ensures qp != null ==> OnlyWindow(qp, 0, nn) && qp[..nn] == qs
    ensures |qs| == nn && old(Val(a[..nn])) + cy * Pow(nn) == Val(qs) * d + r && r < d
  {
    hide IsInverse2by1;
    hide QuotientSoFar;
    ghost var ns := a[..nn];
    r, qs := cy, [];
    var i := nn;
    assert QuotientSoFar(ns, nn, qs, d, r, cy) by { QuotientNone(ns, d, cy); }
    while i > 0
      invariant 0 <= i <= nn && r < d && |qs| == nn - i
      invariant forall k :: 0 <= k < i ==> a[k] == ns[k]
      invariant qp != null ==> OnlyWindow(qp, 0, nn) && Holds(qp, i, qs)
      invariant QuotientSoFar(ns, i, qs, d, r, cy)
    {
      i := i - 1;
      ghost var rem := r;
      var q;
      q, r := UdivQrnndPreinv(r, a[i], d, di);
      QuotientStep(ns, i + 1, qs, d, rem, q, r, cy);
      if qp != null {
        qp[i] := q;
      }
      qs := [q] + qs;
    }
    QuotientEnd(ns, qs, d, r, cy);
  }

  /* ---- Two-word divisors ---- */

  lemma {:induction false} InverseNormalised(d1: Limb, d0: Limb, dinv: Limb)
    requires IsInverse3by2(d1, d0, dinv)
    ensures B <= 2 * d1
  {
  }

  ghost predicate Normalises2(inv: DivInverse, d: int)
  {
    inv.shift < 64 && inv.d1 * B + inv.d0 == d * Pow2(inv.shift) && IsInverse3by2(inv.d1, inv.d0, inv.di)
  }

  /** Shifting a word pair left when the top bits are free. */
  lemma {:induction false} ShiftedPair(d1: Limb, d0: Limb, c: int, t: int)
    requires ShiftPair(c, t) && d1 * c < B
    ensures (d1 % t) * c == d1 * c
    ensures (d1 * c + d0 / t) * B + (d0 % t) * c == (d1 * B + d0) * c
    ensures 0 <= d0 / t < c && 0 <= (d0 % t) * c < B && d1 * c <= B - c
  {
    ShiftWord(d0, c, t);
    ShiftWord(d1, c, t);
    Dist(c, d1 * B, d0);
    Assoc(c, d1, B);
  }

  method DivQr2Invert(d1: Limb, d0: Limb) returns (inv: DivInverse)
    requires 0 < d1
    ensures Normalises2(inv, d1 * B + d0)
  {
    var shift := Clz(d1);
    var h, l := d1, d0;
    var c, t := Pow2(shift), Pow2(64 - shift);
    ShiftPairOf(shift);
    if shift > 0 {
      ShiftedPair(d1, d0, c, t);
      h := (d1 % t) * c + d0 / t;
      l := (d0 % t) * c;
    }
    var di := Invert3by2(h, l);
    inv := DivInverse(shift, h, l, di);
  }

  lemma {:induction false} LowWordDivides(r1: int, r0: int, k: int, c: int, t: int)
    requires ShiftPair(c, t) && r1 * B + r0 == c * k && 0 <= r0
    ensures r0 == c * (r0 / c) && k == r1 * t + r0 / c
  {
    assert r1 * B == c * (r1 * t) by { Assoc(r1, c, t); Assoc(c, r1, t); }
    DistSub(c, k, r1 * t);
    DivUnique(r0, c, k - r1 * t, 0);
  }

  lemma {:induction false} HighWordSplits(r1: int, c: int, t: int)
    requires ShiftPair(c, t)
    ensures r1 * t == (r1 / c) * B + (r1 % c) * t
  {
    assert r1 == (r1 / c) * c + r1 % c;
    Dist(t, (r1 / c) * c, r1 % c);
    Assoc(r1 / c, c, t);
  }

  /** A remainder divisible by c is shifted back word by word. */
  method ShiftBackPair(h1: Limb, h0: Limb, cnt: nat, ghost k: int) returns (r1: Limb, r0: Limb)
    requires cnt < 64 && h1 * B + h0 == Pow2(cnt) * k
    ensures r1 * B + r0 == k
  {
    r1, r0 := h1, h0;
    if cnt > 0 {
      var c, t := Pow2(cnt), Pow2(64 - cnt);
      ShiftPairOf(cnt);
      RightWord(h1, c, t);
      RightWord(h0, c, t);
      LowWordDivides(h1, h0, k, c, t);
      HighWordSplits(h1, c, t);
      r0 := h0 / c + (h1 % c) * t;
      r1 := h1 / c;
    }
  }

  method DivQr2Preinv(qp: array?<Limb>, rp: array<Limb>, np: array<Limb>, nn: nat, inv: DivInverse, ghost d: int)
    returns (ghost qs: seq<Limb>)
    requires 0 < d && Normalises2(inv, d) && 2 <= nn <= np.Length && 2 <= rp.Length
    requires qp != null ==> nn - 1 <= qp.Length && qp != np && qp != rp
    modifies qp, rp
    ensures qp != null ==> OnlyWindow(qp, 0, nn - 1) && qp[..nn - 1] == qs
    ensures OnlyWindow(rp, 0, 2)
    ensures |qs| == nn - 1 && old(Val(np[..nn])) == Val(qs) * d + (rp[1] * B + rp[0])
    ensures rp[1] * B + rp[0] < d
  {
    hide IsInverse3by2;
    ghost var v := Val(np[..nn]);
    var a := np;
    var cy := 0;
    InverseNormalised(inv.d1, inv.d0, inv.di);
    if inv.shift > 0 {
      a := new Limb[nn];
      cy := LShift(a, np, nn, inv.shift);
      CarryBelowDivisor(inv.shift, inv.d1, cy);
    }
    var r1, r0;
    r1, r0, qs := DivQr2Loop(qp, a, nn, inv, cy, d * Pow2(inv.shift));
    Denormalise(Pow2(inv.shift), v, Val(qs), d, r1 * B + r0);
    r1, r0 := ShiftBackPair(r1, r0, inv.shift, v - Val(qs) * d);
    rp[1] := r1;
    rp[0] := r0;
  }

  method DivQr2Loop(qp: array?<Limb>, a: array<Limb>, nn: nat, inv: DivInverse, cy: Limb, ghost d: int)
    returns (r1: Limb, r0: Limb, ghost qs: seq<Limb>)
    requires 2 <= nn <= a.Length && (qp != null ==> nn - 1 <= qp.Length && qp != a)
    requires IsInverse3by2(inv.d1, inv.d0, inv.di) && cy < inv.d1 && d == inv.d1 * B + inv.d0
    modifies qp
    ensures qp != null ==> OnlyWindow(qp, 0, nn - 1) && qp[..nn - 1] == qs
    ensures |qs| == nn - 1 && r1 * B + r0 < d
    ensures old(Val(a[..nn])) + cy * Pow(nn) == Val(qs) * d + (r1 * B + r0)
  {
    hide IsInverse3by2;
    hide QuotientSoFar;
    ghost var ns := a[..nn];
    r1, r0, qs := cy, a[nn - 1], [];
    var i := nn - 1;
    QuotientStart(ns, d, cy);
    ghost var rem := r1 * B + r0;
    while i > 0
      invariant 0 <= i < nn && rem == r1 * B + r0 < d && |qs| == nn - 1 - i
      invariant forall k :: 0 <= k < i ==> a[k] == ns[k]
      invariant qp != null ==> OnlyWindow(qp, 0, nn - 1) && Holds(qp, i, qs)
      invariant QuotientSoFar(ns, i, qs, d, rem, cy)
    {
      i := i - 1;
      var q;
      ghost var rem';
      q, r1, r0, rem' := PairStep(r1, r0, a[i], inv, d, rem);
      QuotientStep(ns, i + 1, qs, d, rem, q, rem', cy);
      if qp != null {
        qp[i] := q;
      }
      qs, rem := [q] + qs, rem';
    }
    QuotientEnd(ns, qs, d, rem, cy);
  }

  /** The 3/2 step, in terms of the running remainder. */
  method PairStep(n2: Limb, n1: Limb, n0: Limb, inv: DivInverse, ghost d: int, ghost rem: int)
    returns (q: Limb, r1: Limb, r0: Limb, ghost rem': int)
    requires IsInverse3by2(inv.d1, inv.d0, inv.di) && d == inv.d1 * B + inv.d0 && rem == n2 * B + n1 < d
    ensures rem * B + n0 == q * d + rem' && rem' == r1 * B + r0 < d
  {
    q, r1, r0 := UdivQr3by2(n2, n1, n0, inv.d1, inv.d0, inv.di);
    rem' := r1 * B + r0;
  }

  lemma {:induction false} QuotientStart(ns: seq<Limb>, d: int, cy: int)
    requires 0 < |ns|
    ensures QuotientSoFar(ns, |ns| - 1, [], d, cy * B + ns[|ns| - 1], cy)
  {
    assert ns[|ns| - 1..] == [ns[|ns| - 1]];
    assert Pow(1) == B * Pow(0);
  }

  /* ---- Longer divisors: schoolbook division with an add-back step ---- */

  /** dp is normalised and dinv is the 3/2 inverse of its two top words. */
  ghost predicate TopInverse(ds: seq<Limb>, dinv: Limb)
  {
    |ds| > 2 && IsInverse3by2(ds[|ds| - 1], ds[|ds| - 2], dinv)
  }

  /** The value of a sequence from its two top words and the rest. */
  lemma {:induction false} TopTwo(s: seq<Limb>)
    requires |s| >= 2
    ensures Val(s) == Val(s[..|s| - 2]) + (s[|s| - 1] * B + s[|s| - 2]) * Pow(|s| - 2)
    ensures Val(s[..|s| - 2]) < Pow(|s| - 2)
  {
    var n := |s| - 2;
    ValPrefix(s, n + 1);
    ValPrefix(s, n);
    ValBound(s[..n]);
    assert Pow(n + 1) == B * Pow(n);
    hide Val;
    hide Pow;
    assert s[..n + 2] == s;
    RunningTop(s[n + 1], s[n], Pow(n));
  }

  /** The partial remainder after taking off q times the top two divisor words and the low ones. */
  lemma {:induction false} PartialRemainder(low: int, top: int, p: int, q: int, d: int, r: int, dl: int, low': int, cy: int)
    requires top == q * d + r && low' == low - q * dl + cy * p
    ensures low + top * p - q * (d * p + dl) == (r - cy) * p + low'
  {
    Dist(p, q * d, r);
    Assoc(q, d, p);
    Dist(q, d * p, dl);
    Dist(p, r, -cy);
  }

  /** The estimate is at most one too large, and never too small. */
  lemma {:induction false} PartialBounds(low: int, p: int, q: int, d: int, r: int, dl: int, t: int)
    requires t == r * p + low - q * dl
    requires 0 <= low < p && 0 <= dl < p && 0 <= q < B && 0 <= r < d && B * B <= 2 * d
    ensures -(d * p + dl) < t < d * p + dl
  {
    MulLe(p, r, d - 1);
    MulLe(p, 0, r);
    MulLe(q, 0, dl);
    MulLe(q, dl, p);
    MulLe(p, q + 1, d);
    Dist(p, q, 1);
    Dist(p, d, -1);
  }

  lemma {:induction false} PartialRemainderBounds(low: int, top: int, p: int, q: int, d: int, r: int, dl: int, low': int, cy: int)
    requires top == q * d + r && low' == low - q * dl + cy * p
    requires 0 <= low < p && 0 <= dl < p && 0 <= q < B && 0 <= r < d && B * B <= 2 * d && 0 <= top && 0 <= low' < p
    ensures -(d * p + dl) < (r - cy) * p + low' < d * p + dl
    ensures r < cy ==> 1 <= q && (r - cy) * p + low' < 0
    ensures cy <= r ==> 0 <= (r - cy) * p + low'
  {
    Dist(p, r, -cy);
    PartialBounds(low, p, q, d, r, dl, (r - cy) * p + low');
    if r < cy {
      MulLe(p, r - cy, -1);
      if q <= 0 { MulLe(p, 0, r); }
    } else {
      MulLe(p, 0, r - cy);
    }
  }

  /** Two words minus a borrow-in of cy. */
  method BorrowPair(n1: Limb, n0: Limb, c: Limb) returns (b1: Limb, b0: Limb, borrow: bool)
    ensures borrow == (n1 * B + n0 < c)
    ensures b1 * B + b0 == n1 * B + n0 - c + (if borrow then B * B else 0)
  {
    var cy1 := if n0 < c then 1 else 0;
    b0 := SubW(n0, c);
    borrow := n1 < cy1;
    b1 := SubW(n1, cy1);
  }

  lemma {:induction false} WindowTop(ws: seq<Limb>, n1: Limb)
    requires |ws| >= 2
    ensures Val(ws) + n1 * Pow(|ws|)
         == Val(ws[..|ws| - 2]) + (n1 * (B * B) + (ws[|ws| - 1] * B + ws[|ws| - 2])) * Pow(|ws| - 2)
  {
    TopTwo(ws);
    AboveTop(n1, ws[|ws| - 1] * B + ws[|ws| - 2], Pow(|ws| - 2));
  }

  lemma {:induction false} AboveTop(n1: int, y: int, p: int)
    ensures y * p + n1 * (B * (B * p)) == (n1 * (B * B) + y) * p
  {
    Dist(p, n1 * (B * B), y);
    Assoc(n1, B * B, p);
  }

  /** The window minus q times the divisor, from the outcome of the 3/2 step and of the low multiply-subtract. */
  lemma {:induction false} StepValue(ws: seq<Limb>, n1: Limb, ds: seq<Limb>, q: Limb, r: int, low': int, cy: Limb)
    requires |ws| == |ds| > 2 && B / 2 <= ds[|ds| - 1]
    requires n1 * (B * B) + ws[|ws| - 1] * B + ws[|ws| - 2] == q * (ds[|ds| - 1] * B + ds[|ds| - 2]) + r
    requires 0 <= r < ds[|ds| - 1] * B + ds[|ds| - 2]
    requires low' - cy * Pow(|ds| - 2) == Val(ws[..|ds| - 2]) - q * Val(ds[..|ds| - 2]) && 0 <= low' < Pow(|ds| - 2)
    ensures var t := Val(ws) + n1 * Pow(|ws|) - q * Val(ds);
      && t == (r - cy) * Pow(|ds| - 2) + low'
      && 0 < t + Val(ds) && t < Val(ds)
      && (r < cy ==> 1 <= q && t < 0) && (cy <= r ==> 0 <= t)
  {
    var n := |ds|;
    var d := ds[n - 1] * B + ds[n - 2];
    var top := n1 * (B * B) + ws[n - 1] * B + ws[n - 2];
    WindowTop(ws, n1);
    TopTwo(ds);
    TopTwo(ws);
    PartialRemainder(Val(ws[..n - 2]), top, Pow(n - 2), q, d, r, Val(ds[..n - 2]), low', cy);
    PartialRemainderBounds(Val(ws[..n - 2]), top, Pow(n - 2), q, d, r, Val(ds[..n - 2]), low', cy);
  }

  lemma {:induction false} PairAbove(low: int, b1: int, b0: int, x: int, borrow: int, p: int)
    requires b1 * B + b0 == x + borrow * (B * B)
    ensures x * p + low == (low + b0 * p) + (b1 - borrow * B) * (B * p)
  {
    Dist(p, b1 * B, b0);
    Assoc(b1, B, p);
    Dist(p, x, borrow * (B * B));
    Assoc(borrow, B * B, p);
    Dist(B * p, b1, -(borrow * B));
    Assoc(borrow, B, B * p);
  }

  /** What the window ws, extended by n1, leaves after q times the divisor ds is taken off. */
  ghost function Remaining(ws: seq<Limb>, n1: Limb, ds: seq<Limb>, q: int): int
  {
    Val(ws) + n1 * Pow(|ws|) - q * Val(ds)
  }

  ghost predicate Subtracted(ws: seq<Limb>, n1: Limb, ds: seq<Limb>, q: Limb, rest: seq<Limb>, h: int, borrow: bool)
  {
    var t := Remaining(ws, n1, ds, q);
    && t == Val(rest) + (h - if borrow then B else 0) * Pow(|rest|)
    && 0 < t + Val(ds) && t < Val(ds)
    && borrow == (t < 0) && (borrow ==> 1 <= q)
  }

  lemma {:induction false} SubtractedPair(ws: seq<Limb>, n1: Limb, ds: seq<Limb>, q: Limb, low: seq<Limb>, r: int, cy: Limb, h: Limb, b0: Limb, borrow: bool)
    requires |ws| == |ds| > 2 && |low| == |ds| - 2 && B / 2 <= ds[|ds| - 1]
    requires n1 * (B * B) + ws[|ws| - 1] * B + ws[|ws| - 2] == q * (ds[|ds| - 1] * B + ds[|ds| - 2]) + r
    requires 0 <= r < ds[|ds| - 1] * B + ds[|ds| - 2]
    requires Val(low) - cy * Pow(|ds| - 2) == Val(ws[..|ds| - 2]) - q * Val(ds[..|ds| - 2])
    requires borrow == (r < cy) && h * B + b0 == r - cy + (if borrow then B * B else 0)
    ensures Subtracted(ws, n1, ds, q, low + [b0], h, borrow)
  {
    ValBound(low);
    StepValue(ws, n1, ds, q, r, Val(low), cy);
    ValSnoc(low, b0);
    PairAbove(Val(low), h, b0, r - cy, if borrow then 1 else 0, Pow(|low|));
  }

  /** One quotient word in the general case, before the add-back. */
  method StepSubtract(np: array<Limb>, i: nat, dp: array<Limb>, dn: nat, n1: Limb, dinv: Limb)
    returns (q: Limb, h: Limb, borrow: bool)
    requires dn > 2 && dn <= dp.Length && i + dn <= np.Length && np != dp && TopInverse(dp[..dn], dinv)
    requires n1 * B + np[i + dn - 1] < dp[dn - 1] * B + dp[dn - 2]
    modifies np
    ensures OnlyWindow(np, i, dn)
    ensures Subtracted(old(np[i..i + dn]), n1, dp[..dn], q, np[i..i + (dn - 1)], h, borrow)
  {
    ghost var ws, ds := np[i..i + dn], dp[..dn];
    var r1, r0;
    q, r1, r0 := UdivQr3by2(n1, np[i + dn - 1], np[i + dn - 2], dp[dn - 1], dp[dn - 2], dinv);
    assert np[i..i + (dn - 2)] == ws[..dn - 2] && dp[..dn - 2] == ds[..dn - 2];
    var cy := SubMul1(np, i, dp, dn - 2, q);
    ghost var low := np[i..i + (dn - 2)];
    var b0;
    h, b0, borrow := BorrowPair(r1, r0, cy);
    SubtractedPair(ws, n1, ds, q, low, r1 * B + r0, cy, h, b0, borrow);
    np[i + dn - 2] := b0;
    assert np[i..i + (dn - 1)] == low + [b0];
  }

  ghost predicate StepDone(ws: seq<Limb>, n1: Limb, ds: seq<Limb>, q: Limb, rest: seq<Limb>, h: Limb)
  {
    var t := Remaining(ws, n1, ds, q);
    t == Val(rest) + h * Pow(|rest|) && 0 <= t < Val(ds)
  }

  /** The numbers of the add-back: the words of the divisor below the top one are
      added to the rest, and the top word to the word above it. */
  lemma {:induction false} AddBackNumbers(t: int, p: int, rest: int, low: int, top: int, b: int, c: int, rest': int)
    requires 0 < p && 0 <= low < p && 0 <= top < B && 0 <= rest' < p
    requires t == rest + (b - B) * p && rest' + c * p == rest + low
    requires t < 0 < t + (low + top * p)
    ensures t + (low + top * p) == rest' + (b + top + c - B) * p
    ensures 0 <= b + top + c - B < B
  {
    Sum4(p, b, top, c);
    var x := b + top + c - B;
    if x < 0 { MulLe(p, x, -1); }
    if B <= x {
      MulLe(p, B, x);
      MulLe(p, top + 1, B);
      Dist(p, top, 1);
    }
  }

  lemma {:induction false} LessOnce(q: int, d: int)
    ensures (q - 1) * d == q * d - d
  {
    DistSub(d, q, 1);
  }

  lemma {:induction false} AddBackWord(b: Limb, d: Limb, c: Limb, h: Limb)
    requires h == AddW(b, AddW(d, c)) && 0 <= b + d + c - B < B
    ensures h == b + d + c - B
  {
  }

  lemma {:induction false} AddBackValue(ws: seq<Limb>, n1: Limb, ds: seq<Limb>, q: Limb, rest: seq<Limb>, b: Limb, rest': seq<Limb>, c: Limb, h: Limb)
    requires |ds| > 2 && |rest| == |rest'| == |ds| - 1 && Subtracted(ws, n1, ds, q, rest, b, true)
    requires Val(rest') + c * Pow(|ds| - 1) == Val(rest) + Val(ds[..|ds| - 1])
    requires h == AddW(b, AddW(ds[|ds| - 1], c)) && c <= 1
    ensures StepDone(ws, n1, ds, q - 1, rest', h)
  {
    hide Val;
    hide Pow;
    hide AddW;
    var n := |ds|;
    var top, low := ds[n - 1], ds[..n - 1];
    ValTop(ds);
    ValBound(rest');
    LessOnce(q, Val(ds));
    AddBackNumbers(Remaining(ws, n1, ds, q), Pow(n - 1), Val(rest), Val(low), top, b, c, Val(rest'));
    AddBackWord(b, top, c, h);
  }

  lemma {:induction false} NoAddBack(ws: seq<Limb>, n1: Limb, ds: seq<Limb>, q: Limb, rest: seq<Limb>, h: Limb)
    requires Subtracted(ws, n1, ds, q, rest, h, false)
    ensures StepDone(ws, n1, ds, q, rest, h)
  {
  }

  lemma {:induction false} Sum4(p: int, b: int, d: int, c: int)
    ensures (b - B) * p + d * p + c * p == (b + d + c - B) * p
  {
    Dist(p, b - B, d);
    Dist(p, b - B + d, c);
  }

  /** One quotient word: the special case of equal top words, the 3/2 estimate, and the add-back. */
  method DivStep(np: array<Limb>, i: nat, dp: array<Limb>, dn: nat, n1: Limb, dinv: Limb)
    returns (q: Limb, h: Limb)
    requires dn > 2 && dn <= dp.Length && i + dn <= np.Length && np != dp && TopInverse(dp[..dn], dinv)
    requires n1 * B + np[i + dn - 1] <= dp[dn - 1] * B + dp[dn - 2]
    requires Val(np[i..i + dn]) + n1 * Pow(dn) < B * Val(dp[..dn])
    modifies np
    ensures OnlyWindow(np, i, dn)
    ensures StepDone(old(np[i..i + dn]), n1, dp[..dn], q, np[i..i + (dn - 1)], h)
  {
    hide Val;
    hide Pow;
    hide StepDone;
    hide Subtracted;
    var n0 := np[i + dn - 1];
    if n1 == dp[dn - 1] && n0 == dp[dn - 2] {
      q := B - 1;
      h := StepMax(np, i, dp, dn, n1);
    } else {
      var borrow;
      q, h, borrow := StepSubtract(np, i, dp, dn, n1, dinv);
      if borrow {
        ghost var rest, b := np[i..i + (dn - 1)], h;
        var c := AddN(np, np, dp, i, dn - 1);
        h := AddW(h, AddW(dp[dn - 1], c));
        assert dp[..dn][..dn - 1] == dp[..dn - 1];
        AddBackValue(old(np[i..i + dn]), n1, dp[..dn], q, rest, b, np[i..i + (dn - 1)], c, h);
        q := q - 1;
      } else {
        NoAddBack(old(np[i..i + dn]), n1, dp[..dn], q, np[i..i + (dn - 1)], h);
      }
    }
  }

  lemma {:induction false} CarryMatches(n1: int, cl: int, p: int, v: int, t: int)
    requires t == v + (n1 - cl) * p && 0 <= v < p && 0 <= t < p
    ensures n1 == cl
  {
    if n1 < cl { MulLe(p, n1 - cl, -1); }
    if cl < n1 { MulLe(p, 1, n1 - cl); }
  }

  lemma {:induction false} MaxValue(ws: seq<Limb>, ds: seq<Limb>, n1: Limb, ws': seq<Limb>, cl: Limb)
    requires |ws| == |ds| == |ws'| > 2
    requires n1 == ds[|ds| - 1] && ws[|ws| - 1] == ds[|ds| - 2] && B <= 2 * n1
    requires Val(ws) + n1 * Pow(|ws|) < B * Val(ds)
    requires Val(ws') - cl * Pow(|ds|) == Val(ws) - (B - 1) * Val(ds)
    ensures StepDone(ws, n1, ds, B - 1, ws'[..|ws'| - 1], ws'[|ws'| - 1])
  {
    ValPrefix(ws', |ds| - 1);
    assert ws'[..|ds|] == ws';
    MaxNotNegative(ws, ds, n1);
    MaxCarry(Val(ws), ds, n1, ws', cl, Remaining(ws, n1, ds, B - 1));
  }

  lemma {:induction false} MaxCarry(w: int, ds: seq<Limb>, n1: int, ws': seq<Limb>, cl: int, t: int)
    requires |ds| == |ws'|
    requires t == w + n1 * Pow(|ds|) - (B - 1) * Val(ds) && 0 <= t < Val(ds)
    requires Val(ws') - cl * Pow(|ds|) == w - (B - 1) * Val(ds)
    ensures t == Val(ws')
  {
    ValBound(ws');
    ValBound(ds);
    Dist(Pow(|ds|), n1, -cl);
    CarryMatches(n1, cl, Pow(|ds|), Val(ws'), t);
  }

  lemma {:induction false} LargestWordFits(low: int, m: int, d: int, dl: int, p: int)
    requires 0 <= low && 0 <= m && B <= d && 0 <= dl < p
    ensures 0 <= low + (d * B + m) * p - (B - 1) * (d * p + dl)
  {
    assert (d * B + m) * p == B * (d * p) + m * p by { Dist(p, d * B, m); Assoc(B, d, p); }
    MulLe(p, 0, m);
    MulLe(p, B, d);
  }

  lemma {:induction false} MaxNotNegative(ws: seq<Limb>, ds: seq<Limb>, n1: Limb)
    requires |ws| == |ds| > 2
    requires n1 == ds[|ds| - 1] && ws[|ws| - 1] == ds[|ds| - 2] && B <= 2 * n1
    ensures 0 <= Remaining(ws, n1, ds, B - 1)
  {
    var n := |ds|;
    WindowTop(ws, n1);
    TopTwo(ds);
    LargestWordFits(Val(ws[..n - 2]), ws[n - 2], n1 * B + ds[n - 2], Val(ds[..n - 2]), Pow(n - 2));
  }

  /** The case in which the quotient word is the largest one. */
  method StepMax(np: array<Limb>, i: nat, dp: array<Limb>, dn: nat, n1: Limb) returns (h: Limb)
    requires dn > 2 && dn <= dp.Length && i + dn <= np.Length && np != dp
    requires n1 == dp[dn - 1] && np[i + dn - 1] == dp[dn - 2] && B <= 2 * n1
    requires Val(np[i..i + dn]) + n1 * Pow(dn) < B * Val(dp[..dn])
    modifies np
    ensures OnlyWindow(np, i, dn)
    ensures StepDone(old(np[i..i + dn]), n1, dp[..dn], B - 1, np[i..i + (dn - 1)], h)
  {
    ghost var ws, ds := np[i..i + dn], dp[..dn];
    var cl := SubMul1(np, i, dp, dn, B - 1);
    MaxValue(ws, ds, n1, np[i..i + dn], cl);
    h := np[i + dn - 1];
    assert np[i..i + dn][..dn - 1] == np[i..i + (dn - 1)];
  }

  /** The running remainder of the schoolbook loop: dn - 1 words of np and n1 on top. */
  ghost function Running(xs: seq<Limb>, n1: Limb): int
  {
    Val(xs) + n1 * Pow(|xs|)
  }

  lemma {:induction false} RunningStart(xs: seq<Limb>, n1: Limb, ds: seq<Limb>)
    requires |ds| == |xs| + 1 && n1 < ds[|ds| - 1]
    ensures Running(xs, n1) < Val(ds)
  {
    ValPrefix(ds, |ds| - 1);
    assert ds[..|ds|] == ds;
    ValBound(xs);
    MulLe(Pow(|xs|), n1 + 1, ds[|ds| - 1]);
    Dist(Pow(|xs|), n1, 1);
  }

  /** No quotient yet: the running remainder is the top of the numerator. */
  lemma {:induction false} RunningFirst(ns: seq<Limb>, i: nat, d: int, cy: Limb)
    requires i <= |ns|
    ensures QuotientSoFar(ns, i, [], d, Running(ns[i..], cy), cy)
  {
    assert |ns[i..]| == |ns| - i;
  }

  lemma {:induction false} TopNotAbove(x: int, y: int, a: int, b: int, p: int)
    requires 0 <= a && 0 <= b < p && x * p + a < y * p + b
    ensures x <= y
  {
    if y + 1 <= x {
      MulLe(p, y + 1, x);
      Dist(p, y, 1);
    }
  }

  /** What a step may assume from the running remainder being below the divisor. */
  lemma {:induction false} RunningWindow(x: Limb, xs: seq<Limb>, n1: Limb, ds: seq<Limb>)
    requires |ds| == |xs| + 1 > 2 && Running(xs, n1) < Val(ds)
    ensures n1 * B + xs[|xs| - 1] <= ds[|ds| - 1] * B + ds[|ds| - 2]
    ensures Val([x] + xs) + n1 * Pow(|ds|) == x + B * Running(xs, n1) < B * Val(ds)
  {
    var n := |xs| - 1;
    assert ([x] + xs)[1..] == xs;
    Assoc(n1, B, Pow(|xs|));
    Dist(B, Val(xs), n1 * Pow(|xs|));
    Assoc(B, n1, Pow(|xs|));
    ValPrefix(xs, n);
    assert xs[..n + 1] == xs;
    TopTwo(ds);
    RunningTop(n1, xs[n], Pow(n));
    TopNotAbove(n1 * B + xs[n], ds[|ds| - 1] * B + ds[|ds| - 2], Val(xs[..n]), Val(ds[..n]), Pow(n));
  }

  lemma {:induction false} RunningTop(n1: int, n0: int, p: int)
    ensures n0 * p + n1 * (B * p) == (n1 * B + n0) * p
  {
    Dist(p, n1 * B, n0);
    Assoc(n1, B, p);
  }

  /** The step, in terms of the running remainder. */
  method RunningStep(np: array<Limb>, i: nat, dp: array<Limb>, dn: nat, n1: Limb, dinv: Limb,
                     ghost ds: seq<Limb>, ghost xs: seq<Limb>)
    returns (q: Limb, h: Limb, ghost xs': seq<Limb>)
    requires dn > 2 && dn <= dp.Length && np != dp && dp[..dn] == ds && TopInverse(ds, dinv)
    requires |xs| == dn - 1 && Holds(np, i + 1, xs) && Running(xs, n1) < Val(ds)
    modifies np
    ensures OnlyWindow(np, i, dn) && dp[..dn] == ds
    ensures |xs'| == dn - 1 && Holds(np, i, xs') && Running(xs', h) < Val(ds)
    ensures Running(xs, n1) * B + old(np[i]) == q * Val(ds) + Running(xs', h)
  {
    ghost var x := np[i];
    assert np[i..i + dn] == [x] + xs;
    RunningWindow(x, xs, n1, ds);
    q, h := DivStep(np, i, dp, dn, n1, dinv);
    xs' := np[i..i + (dn - 1)];
  }

  method DivQrPi1Loop(qp: array?<Limb>, np: array<Limb>, nn: nat, cy: Limb, dp: array<Limb>, dn: nat, dinv: Limb, ghost ds: seq<Limb>)
    returns (n1: Limb, ghost qs: seq<Limb>, ghost xs: seq<Limb>)
    requires 2 < dn <= nn <= np.Length && dn <= dp.Length && np != dp && dp[..dn] == ds
    requires qp != null ==> nn - dn + 1 <= qp.Length && qp != np && qp != dp
    requires TopInverse(ds, dinv) && cy < ds[dn - 1]
    modifies qp, np
    ensures qp != null ==> OnlyWindow(qp, 0, nn - dn + 1) && Holds(qp, 0, qs)
    ensures OnlyWindow(np, 0, nn) && |qs| == nn - dn + 1
    ensures |xs| == dn - 1 && Holds(np, 0, xs) && Running(xs, n1) < Val(ds)
    ensures QuotientSoFar(old(np[..nn]), 0, qs, Val(ds), Running(xs, n1), cy)
  {
    hide TopInverse;
    hide Val;
    hide Pow;
    hide Running;
    hide QuotientSoFar;
    ghost var ns := np[..nn];
    n1 := cy;
    qs := [];
    var i := nn - dn + 1;
    xs := ns[i..];
    RunningStart(xs, n1, ds);
    RunningFirst(ns, i, Val(ds), cy);
    while i > 0
      invariant 0 <= i <= nn - dn + 1 && |qs| == nn - dn + 1 - i
      invariant OnlyWindow(np, 0, nn) && dp[..dn] == ds
      invariant forall k :: 0 <= k < i ==> np[k] == ns[k]
      invariant qp != null ==> OnlyWindow(qp, 0, nn - dn + 1) && Holds(qp, i, qs)
      invariant |xs| == dn - 1 && Holds(np, i, xs) && Running(xs, n1) < Val(ds)
      invariant QuotientSoFar(ns, i, qs, Val(ds), Running(xs, n1), cy)
    {
      i := i - 1;
      var q, h;
      ghost var xs';
      q, h, xs' := RunningStep(np, i, dp, dn, n1, dinv, ds, xs);
      QuotientStep(ns, i + 1, qs, Val(ds), Running(xs, n1), q, Running(xs', h), cy);
      if qp != null {
        qp[i] := q;
      }
      qs, xs, n1 := [q] + qs, xs', h;
    }
  }

  /** mpn_div_qr_pi1: the quotient goes to qp, the remainder to the low dn words of np. */
  method DivQrPi1(qp: array?<Limb>, np: array<Limb>, nn: nat, cy: Limb, dp: array<Limb>, dn: nat, dinv: Limb)
    returns (ghost qs: seq<Limb>)
    requires 2 < dn <= nn <= np.Length && dn <= dp.Length && np != dp
    requires qp != null ==> nn - dn + 1 <= qp.Length && qp != np && qp != dp
    requires TopInverse(dp[..dn], dinv) && cy < dp[dn - 1]
    modifies qp, np
    ensures qp != null ==> OnlyWindow(qp, 0, nn - dn + 1) && qp[..nn - dn + 1] == qs
    ensures OnlyWindow(np, 0, nn) && |qs| == nn - dn + 1
    ensures old(Val(np[..nn])) + cy * Pow(nn) == Val(qs) * old(Val(dp[..dn])) + Val(np[..dn])
    ensures Val(np[..dn]) < old(Val(dp[..dn]))
  {
    var n1;
    ghost var ns, low := np[..nn], [];
    n1, qs, low := DivQrPi1Loop(qp, np, nn, cy, dp, dn, dinv, dp[..dn]);
    assert ns[0..] == ns && (qp != null ==> qp[..|qs|] == qs);
    np[dn - 1] := n1;
    assert np[..dn] == low + [n1];
    ValSnoc(low, n1);
  }

  /* ---- The entry points ---- */

  /** The two top words of the divisor ds after the normalising shift, and their inverse. */
  ghost predicate NormalisesTop(inv: DivInverse, ds: seq<Limb>)
  {
    && |ds| > 2 && inv.shift < 64 && 0 < ds[|ds| - 1] && ds[|ds| - 1] * Pow2(inv.shift) < B
    && IsInverse3by2(inv.d1, inv.d0, inv.di)
    && var c, t := Pow2(inv.shift), Pow2(64 - inv.shift);
      if inv.shift == 0 then inv.d1 == ds[|ds| - 1] && inv.d0 == ds[|ds| - 2]
      else inv.d1 == LeftWord(ds, |ds| - 1, c, t) && inv.d0 == LeftWord(ds, |ds| - 2, c, t)
  }

  ghost predicate Normalises(inv: DivInverse, ds: seq<Limb>)
  {
    if |ds| == 1 then Normalises1(inv, ds[0])
    else if |ds| == 2 then Normalises2(inv, ds[1] * B + ds[0])
    else NormalisesTop(inv, ds)
  }

  lemma {:induction false} TopWordsShifted(d1: Limb, d0: Limb, dm: Limb, c: int, t: int)
    requires ShiftPair(c, t) && B <= 2 * (d1 * c) && d1 * c < B
    ensures B <= 2 * ((d1 % t) * c + d0 / t) && (d1 % t) * c + d0 / t < B
    ensures 0 <= (d0 % t) * c + dm / t < B
  {
    ShiftedPair(d1, d0, c, t);
    ShiftWord(d0, c, t);
    ShiftWord(dm, c, t);
  }

  method DivQrTopInvert(d1: Limb, d0: Limb, dm: Limb, ghost ds: seq<Limb>) returns (inv: DivInverse)
    requires 0 < d1 && |ds| > 2 && ds[|ds| - 1] == d1 && ds[|ds| - 2] == d0 && ds[|ds| - 3] == dm
    ensures NormalisesTop(inv, ds)
  {
    var shift := Clz(d1);
    var h, l := d1, d0;
    if shift > 0 {
      var c, t := Pow2(shift), Pow2(64 - shift);
      ShiftPairOf(shift);
      TopWordsShifted(d1, d0, dm, c, t);
      h := (d1 % t) * c + d0 / t;
      l := (d0 % t) * c + dm / t;
    }
    var di := Invert3by2(h, l);
    inv := DivInverse(shift, h, l, di);
  }

  method DivQrInvert(dp: array<Limb>, dn: nat) returns (inv: DivInverse)
    requires 0 < dn <= dp.Length && 0 < dp[dn - 1]
    ensures Normalises(inv, dp[..dn])
  {
    if dn == 1 {
      inv := DivQr1Invert(dp[0]);
    } else if dn == 2 {
      inv := DivQr2Invert(dp[1], dp[0]);
    } else {
      inv := DivQrTopInvert(dp[dn - 1], dp[dn - 2], dp[dn - 3], dp[..dn]);
    }
  }

  /** The value of an array of known small length. */
  lemma {:induction false} SmallValues(s: seq<Limb>)
    ensures |s| == 1 ==> Val(s) == s[0]
    ensures |s| == 2 ==> Val(s) == s[1] * B + s[0]
  {
    if |s| == 1 {
      assert s[1..] == [];
    } else if |s| == 2 {
      SmallValues(s[1..]);
    }
  }

  lemma {:induction false} LowWordModulo(s: seq<Limb>, c: int, t: int, k: int)
    requires |s| > 0 && ShiftPair(c, t) && Val(s) == c * k
    ensures s[0] % c == 0
  {
    var v := Val(s[1..]);
    Assoc(c, t, v);
    DistSub(c, k, t * v);
    DivUnique(s[0], c, k - t * v, 0);
  }

  /** The remainder shifted back in place; no bit is lost. */
  method ShiftBack(np: array<Limb>, dn: nat, cnt: nat, ghost k: int)
    requires 1 <= dn <= np.Length && cnt < 64 && Val(np[..dn]) == Pow2(cnt) * k
    modifies np
    ensures OnlyWindow(np, 0, dn) && Val(np[..dn]) == k
  {
    if cnt > 0 {
      ShiftPairOf(cnt);
      LowWordModulo(np[..dn], Pow2(cnt), Pow2(64 - cnt), k);
      var out := RShift(np, np, dn, cnt);
      MulCancel(Pow2(cnt), Val(np[..dn]), k);
      MulCancel(Pow2(cnt), k, Val(np[..dn]));
    }
  }

  /** The many-word case once dp is normalised; d is the divisor before its shift. */
  method DivQrManyPreinv(qp: array?<Limb>, np: array<Limb>, nn: nat, dp: array<Limb>, dn: nat, inv: DivInverse, ghost d: int)
    returns (ghost qs: seq<Limb>)
    requires 2 < dn <= nn <= np.Length && dn <= dp.Length && np != dp
    requires qp != null ==> nn - dn + 1 <= qp.Length && qp != np && qp != dp
    requires inv.shift < 64 && IsInverse3by2(inv.d1, inv.d0, inv.di)
    requires inv.d1 == dp[dn - 1] && inv.d0 == dp[dn - 2] && Val(dp[..dn]) == d * Pow2(inv.shift)
    modifies qp, np
    ensures qp != null ==> OnlyWindow(qp, 0, nn - dn + 1) && qp[..nn - dn + 1] == qs
    ensures OnlyWindow(np, 0, nn) && |qs| == nn - dn + 1
    ensures old(Val(np[..nn])) == Val(qs) * d + Val(np[..dn]) && Val(np[..dn]) < d
  {
    hide IsInverse3by2;
    ghost var v := Val(np[..nn]);
    var nh := 0;
    InverseNormalised(inv.d1, inv.d0, inv.di);
    if inv.shift > 0 {
      nh := LShift(np, np, nn, inv.shift);
      CarryBelowDivisor(inv.shift, inv.d1, nh);
    }
    qs := DivQrPi1(qp, np, nn, nh, dp, dn, inv.di);
    Denormalise(Pow2(inv.shift), v, Val(qs), d, Val(np[..dn]));
    ShiftBack(np, dn, inv.shift, v - Val(qs) * d);
  }

  lemma {:induction false} TopFree(x: int, c: int, t: int)
    requires ShiftPair(c, t) && x * c < B
    ensures x * c <= B - c
  {
    if t <= x { MulLe(c, t, x); }
    MulLe(c, x + 1, t);
  }

  /** Shifting out the leading zeros loses nothing. */
  lemma {:induction false} CopyKeepsValue(ds: seq<Limb>, c: int, t: int, tv: int, ret: Limb)
    requires |ds| > 0 && ShiftPair(c, t) && ds[|ds| - 1] * c < B && 0 <= tv
    requires tv + ret * Pow(|ds|) == c * Val(ds)
    ensures ret == 0 && tv == Val(ds) * c
  {
    var n := |ds|;
    TopFree(ds[n - 1], c, t);
    ValPrefix(ds, n - 1);
    assert ds[..n] == ds;
    ValBound(ds[..n - 1]);
    NoCarryOut(ds[n - 1], c, Val(ds[..n - 1]), Pow(n - 1), Pow(n), Val(ds), tv, ret);
  }

  method ShiftedCopy(dp: array<Limb>, dn: nat, cnt: nat, ghost d1: Limb, ghost d0: Limb) returns (tp: array<Limb>, ret: Limb)
    requires 2 < dn <= dp.Length && 1 <= cnt < 64
    requires d1 == LeftWord(dp[..dn], dn - 1, Pow2(cnt), Pow2(64 - cnt))
    requires d0 == LeftWord(dp[..dn], dn - 2, Pow2(cnt), Pow2(64 - cnt))
    ensures fresh(tp) && dn <= tp.Length && d1 == tp[dn - 1] && d0 == tp[dn - 2]
    ensures Val(tp[..dn]) + ret * Pow(dn) == Pow2(cnt) * Val(dp[..dn])
  {
    tp := new Limb[dn];
    ret := LShift(tp, dp, dn, cnt);
  }

  /** The divisor shifted to match its inverse. */
  method NormaliseDivisor(dp: array<Limb>, dn: nat, inv: DivInverse) returns (tp: array<Limb>)
    requires 2 < dn <= dp.Length && NormalisesTop(inv, dp[..dn])
    ensures dn <= tp.Length && (tp == dp || fresh(tp))
    ensures inv.d1 == tp[dn - 1] && inv.d0 == tp[dn - 2]
    ensures Val(tp[..dn]) == Val(dp[..dn]) * Pow2(inv.shift)
  {
    tp := dp;
    if inv.shift > 0 {
      var ret;
      tp, ret := ShiftedCopy(dp, dn, inv.shift, inv.d1, inv.d0);
      ShiftPairOf(inv.shift);
      CopyKeepsValue(dp[..dn], Pow2(inv.shift), Pow2(64 - inv.shift), Val(tp[..dn]), ret);
    }
  }

  lemma {:induction false} NoCarryOut(top: int, c: int, low: int, p: int, pn: int, dv: int, tv: int, ret: int)
    requires 1 <= c && top * c <= B - c && 0 <= low < p && 0 <= tv && 0 <= ret
    requires pn == B * p && dv == low + top * p && tv + ret * pn == c * dv
    ensures ret == 0 && tv == dv * c
  {
    assert c * dv < pn by {
      Dist(c, low, top * p);
      Assoc(c, top, p);
      MulLe(c, low, p - 1);
      MulLe(p, top * c, B - c);
    }
    if 1 <= ret { MulLe(pn, 1, ret); }
  }

  /** mpn_div_qr: quotient to qp when there is one, remainder to the low dn words of np. */
  method DivQr(qp: array?<Limb>, np: array<Limb>, nn: nat, dp: array<Limb>, dn: nat) returns (ghost qs: seq<Limb>)
    requires 0 < dn <= nn <= np.Length && dn <= dp.Length && np != dp && 0 < dp[dn - 1]
    requires qp != null ==> nn - dn + 1 <= qp.Length && qp != np && qp != dp
    modifies qp, np
    ensures qp != null ==> OnlyWindow(qp, 0, nn - dn + 1) && qp[..nn - dn + 1] == qs
    ensures OnlyWindow(np, 0, nn) && |qs| == nn - dn + 1
    ensures old(Val(np[..nn])) == Val(qs) * old(Val(dp[..dn])) + Val(np[..dn])
    ensures Val(np[..dn]) < old(Val(dp[..dn]))
  {
    var inv := DivQrInvert(dp, dn);
    ghost var ds := dp[..dn];
    SmallValues(ds);
    if dn > 2 {
      var tp := NormaliseDivisor(dp, dn, inv);
      qs := DivQrManyPreinv(qp, np, nn, tp, dn, inv, Val(ds));
    } else {
      qs := DivQrFewPreinv(qp, np, nn, dn, inv, ds);
    }
  }

  /** The one- and two-word cases of mpn_div_qr_preinv. */
  method DivQrFewPreinv(qp: array?<Limb>, np: array<Limb>, nn: nat, dn: nat, inv: DivInverse, ghost ds: seq<Limb>)
    returns (ghost qs: seq<Limb>)
    requires 1 <= dn <= 2 && dn <= nn <= np.Length && |ds| == dn && Normalises(inv, ds) && 0 < Val(ds)
    requires qp != null ==> nn - dn + 1 <= qp.Length && qp != np
    modifies qp, np
    ensures qp != null ==> OnlyWindow(qp, 0, nn - dn + 1) && qp[..nn - dn + 1] == qs
    ensures OnlyWindow(np, 0, nn) && |qs| == nn - dn + 1
    ensures old(Val(np[..nn])) == Val(qs) * Val(ds) + Val(np[..dn]) && Val(np[..dn]) < Val(ds)
  {
    SmallValues(ds);
    if dn == 1 {
      var r;
      r, qs := DivQr1Preinv(qp, np, nn, inv, ds[0]);
      np[0] := r;
      SmallValues(np[..1]);
    } else {
      qs := DivQr2Preinv(qp, np, np, nn, inv, Val(ds));
      SmallValues(np[..2]);
    }
  }
}
