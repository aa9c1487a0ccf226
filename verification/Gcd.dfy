/** mpz_gcdext: binary extended gcd.  The mpz operations are the integer ones
    they implement; the object level is in Mpz.dfy. */
module Gcd {
  import opened Arith
  import opened Limbs
  import opened PowerOfTwo
  import opened MpzObject

  ghost predicate Divides(a: int, b: int)
  {
    exists k :: Multiple(k, a, b)
  }

  ghost predicate Multiple(k: int, a: int, b: int)
  {
    k * a == b
  }

  /** g is the non-negative greatest common divisor of u and v. */
  ghost predicate IsGcd(g: int, u: int, v: int)
  {
    && 0 <= g && Divides(g, u) && Divides(g, v)
    && forall c :: Divides(c, u) && Divides(c, v) ==> Divides(c, g)
  }

  /** A common divisor that is an integer combination is the greatest one. */
  lemma {:induction false} BezoutIsGcd(g: int, u: int, v: int, s: int, t: int)
    requires 0 <= g && Divides(g, u) && Divides(g, v) && s * u + t * v == g
    ensures IsGcd(g, u, v)
  {
    forall c | Divides(c, u) && Divides(c, v)
      ensures Divides(c, g)
    {
      var k :| Multiple(k, c, u);
      var m :| Multiple(m, c, v);
      Assoc(s, k, c);
      Assoc(t, m, c);
      Dist(c, s * k, t * m);
      assert Multiple(s * k + t * m, c, g);
    }
  }

  /** Any two greatest common divisors agree. */
  lemma {:induction false} GcdUnique(g: int, h: int, u: int, v: int)
    requires IsGcd(g, u, v) && IsGcd(h, u, v)
    ensures g == h
  {
    var k :| Multiple(k, g, h);
    var m :| Multiple(m, h, g);
    if 0 < h { DivisorBelow(m, h, g); DivisorBelow(k, g, h); }
  }

  lemma {:induction false} DivisorBelow(k: int, a: int, b: int)
    requires 0 <= a && 0 <= b && k * a == b
    ensures 0 < b ==> a <= b
    ensures a == 0 ==> b == 0
  {
    if 0 < b {
      if k <= 0 { MulLe(a, k, 0); }
      MulLe(a, 1, k);
    }
  }

  /** Number of limbs of a magnitude. */
  function LimbCount(x: nat): nat
  {
    if x == 0 then 0 else 1 + LimbCount(x / B)
  }

  /** mpz_make_odd. */
  method MakeOdd(x: int) returns (r: int, shift: nat)
    requires 0 < x
    ensures x == r * Pow2(shift) && r % 2 == 1 && 0 < r <= x
  {
    r, shift := x, 0;
    while r % 2 == 0
      invariant 0 < r <= x && x == r * Pow2(shift)
      decreases r
    {
      Assoc(r / 2, 2, Pow2(shift));
      r, shift := r / 2, shift + 1;
    }
  }

  /* ---- The cofactor identity ---- */

  /** u and v in terms of the current pair, with determinant 2^power. */
  ghost predicate Cofactors(u: int, v: int, tu: int, tv: int, t0: int, t1: int, s0: int, s1: int, power: nat)
  {
    && u == t0 * tu + t1 * tv
    && v == s0 * tu + s1 * tv
    && t0 * s1 - t1 * s0 == Pow2(power)
  }

  /** tv' * 2^k = tv - tu, with the cofactors of the c < 0 branch. */
  lemma {:induction false} ReduceV(u: int, v: int, tu: int, tv: int, t0: int, t1: int, s0: int, s1: int, power: nat, tv': int, k: nat)
    requires Cofactors(u, v, tu, tv, t0, t1, s0, s1, power) && tv - tu == tv' * Pow2(k)
    ensures Cofactors(u, v, tu, tv', t0 + t1, t1 * Pow2(k), s0 + s1, s1 * Pow2(k), power + k)
  {
    var p := Pow2(k);
    ReduceRow(t0, t1, tu, tv, tv', p);
    ReduceRow(s0, s1, tu, tv, tv', p);
    Determinant(t0, t1, s0, s1, p);
    Pow2Add(power, k);
  }

  lemma {:induction false} ReduceRow(a: int, b: int, tu: int, tv: int, tv': int, p: int)
    requires tv - tu == tv' * p
    ensures (a + b) * tu + (b * p) * tv' == a * tu + b * tv
  {
    Dist(tu, a, b);
    Assoc(b, p, tv');
    DistSub(b, tv, tu);
  }

  lemma {:induction false} Determinant(t0: int, t1: int, s0: int, s1: int, p: int)
    ensures (t0 + t1) * (s1 * p) - (t1 * p) * (s0 + s1) == (t0 * s1 - t1 * s0) * p
    ensures (t0 * p) * (s0 + s1) - (t0 + t1) * (s0 * p) == (t0 * s1 - t1 * s0) * p
  {
    CrossTerms(t0, t1, s1, p);
    CrossTerms(s0, s1, t1, p);
    CrossTerms(s0, s1, t0, p);
    CrossTerms(t0, t1, s0, p);
    DistSub(p, t0 * s1, t1 * s0);
  }

  lemma {:induction false} CrossTerms(x: int, y: int, z: int, p: int)
    ensures (x + y) * (z * p) == (x * z) * p + (y * z) * p
    ensures (z * p) * (x + y) == (x * z) * p + (y * z) * p
  {
    Assoc(x + y, z, p);
    Dist(z, x, y);
    Dist(p, x * z, y * z);
  }

  lemma {:induction false} ReduceU(u: int, v: int, tu: int, tv: int, t0: int, t1: int, s0: int, s1: int, power: nat, tu': int, k: nat)
    requires Cofactors(u, v, tu, tv, t0, t1, s0, s1, power) && tu - tv == tu' * Pow2(k)
    ensures Cofactors(u, v, tu', tv, t0 * Pow2(k), t0 + t1, s0 * Pow2(k), s0 + s1, power + k)
  {
    var p := Pow2(k);
    ReduceRow(t1, t0, tv, tu, tu', p);
    ReduceRow(s1, s0, tv, tu, tu', p);
    Determinant(t0, t1, s0, s1, p);
    Pow2Add(power, k);
  }

  /** Pulling a power of two out of tu. */
  lemma {:induction false} ShiftU(u: int, v: int, tu: int, tv: int, t0: int, t1: int, s0: int, s1: int, power: nat, tu': int, k: nat)
    requires Cofactors(u, v, tu, tv, t0, t1, s0, s1, power) && tu == tu' * Pow2(k)
    ensures Cofactors(u, v, tu', tv, t0 * Pow2(k), t1, s0 * Pow2(k), s1, power + k)
  {
    var p := Pow2(k);
    Assoc(t0, p, tu');
    Assoc(s0, p, tu');
    assert (t0 * p) * s1 == (t0 * s1) * p by { Assoc(t0, p, s1); Assoc(t0, s1, p); }
    assert t1 * (s0 * p) == (t1 * s0) * p by { Assoc(t1, s0, p); }
    DistSub(p, t0 * s1, t1 * s0);
    Pow2Add(power, k);
  }

  /** The subtract-and-shift loop: at the end the pair is equal, or tu is zero. */
  method Reduce(ghost u: int, ghost v: int, a: int, b: int, c0: int, c1: int, d0: int, d1: int, p0: nat)
    returns (tu: int, tv: int, t0: int, t1: int, s0: int, s1: int, power: nat)
    requires Cofactors(u, v, a, b, c0, c1, d0, d1, p0) && 0 < a && 0 < b && a % 2 == 1 && b % 2 == 1
    requires 0 <= c0 && 0 <= c1 && 0 <= d0 && 0 <= d1
    ensures Cofactors(u, v, tu, tv, t0, t1, s0, s1, power) && tu == tv && 0 < tv && tv % 2 == 1
    ensures 0 <= t0 && 0 <= t1 && 0 <= s0 && 0 <= s1
  {
    hide Cofactors;
    tu, tv, t0, t1, s0, s1, power := a, b, c0, c1, d0, d1, p0;
    while tu != tv
      invariant Cofactors(u, v, tu, tv, t0, t1, s0, s1, power)
      invariant 0 < tu && 0 < tv && tu % 2 == 1 && tv % 2 == 1
      invariant 0 <= t0 && 0 <= t1 && 0 <= s0 && 0 <= s1
      decreases tu + tv
    {
      if tu < tv {
        var r, shift := MakeOdd(tv - tu);
        ReduceV(u, v, tu, tv, t0, t1, s0, s1, power, r, shift);
        MulLe(Pow2(shift), 0, t1);
        MulLe(Pow2(shift), 0, s1);
        tv, t0, s0 := r, t0 + t1, s0 + s1;
        t1, s1 := t1 * Pow2(shift), s1 * Pow2(shift);
        power := power + shift;
      } else {
        var r, shift := MakeOdd(tu - tv);
        ReduceU(u, v, tu, tv, t0, t1, s0, s1, power, r, shift);
        MulLe(Pow2(shift), 0, t0);
        MulLe(Pow2(shift), 0, s0);
        tu, t1, s1 := r, t0 + t1, s0 + s1;
        t0, s0 := t0 * Pow2(shift), s0 * Pow2(shift);
        power := power + shift;
      }
    }
  }

  /* ---- The start and the end ---- */

  lemma {:induction false} InitialCofactors(a: int, b: int, q: int, r: int, uz: nat, vz: nat)
    requires a == q * b + r
    ensures Cofactors(a * Pow2(uz), b * Pow2(vz), r, b, Pow2(uz), q * Pow2(uz), 0, Pow2(vz), uz + vz)
  {
    var p := Pow2(uz);
    Dist(p, q * b, r);
    Assoc(p, q, b);
    Pow2Add(uz, vz);
  }

  /** The odd gcd divides both numbers, and the last cofactors combine them to 2^power times it. */
  lemma {:induction false} OddGcd(u: int, v: int, tu: int, tv: int, t0: int, t1: int, s0: int, s1: int, power: nat)
    returns (ug: int, vg: int)
    requires Cofactors(u, v, tu, tv, t0, t1, s0, s1, power) && (tu == tv || (tu == 0 && s0 == 0))
    requires 0 <= s0 && 0 <= s1
    ensures u == ug * tv && v == vg * tv && s0 <= vg
    ensures (-s0) * u + t0 * v == Pow2(power) * tv
  {
    if tu != tv {
      ug, vg := t1, s1;
    } else {
      ug, vg := t0 + t1, s0 + s1;
      Dist(tv, t0, t1);
      Dist(tv, s0, s1);
    }
    CombineRows(t0, t1, s0, s1, tu, tv);
  }

  lemma {:induction false} CombineRows(t0: int, t1: int, s0: int, s1: int, tu: int, tv: int)
    ensures (-s0) * (t0 * tu + t1 * tv) + t0 * (s0 * tu + s1 * tv) == (t0 * s1 - t1 * s0) * tv
  {
    Dist(s0, t0 * tu, t1 * tv);
    Dist(t0, s0 * tu, s1 * tv);
    Assoc(s0, t0, tu);
    Assoc(t0, s0, tu);
    Assoc(s0, t1, tv);
    Assoc(t0, s1, tv);
    DistSub(tv, t0 * s1, t1 * s0);
  }

  lemma {:induction false} OddFactor(x: int, y: int, z: int)
    requires x == y * z && x % 2 == 1
    ensures y % 2 == 1
  {
    if y % 2 == 0 {
      Assoc(2, y / 2, z);
    }
  }

  ghost predicate ParityOfProduct(x: int, y: int, z: int)
  {
    z % 2 == if x % 2 == 0 then 0 else y % 2
  }

  lemma {:induction false} ProductSplit(h: int, a: int, y: int)
    ensures (2 * h + a) * y == 2 * (h * y) + a * y
  {
    Dist(y, 2 * h, a);
    Assoc(2, h, y);
  }

  lemma {:induction false} TwiceParity(z: int, w: int)
    ensures (2 * z + w) % 2 == w % 2
  {
    assert 2 * z + w == 2 * (z + w / 2) + w % 2;
  }

  lemma {:induction false} ProductParity(x: int, y: int)
    ensures ParityOfProduct(x, y, x * y)
  {
    var h, a := x / 2, x % 2;
    assert x == 2 * h + a;
    ProductSplit(h, a, y);
    TwiceParity(h * y, a * y);
    assert a * y == if a == 0 then 0 else y;
  }

  lemma {:induction false} EvenParts(s: int, t: int, ug: int, vg: int, x: int, y: int)
    requires ParityOfProduct(s, ug, x) && ParityOfProduct(t, vg, y) && (x + y) % 2 == 0
    requires ug % 2 == 1 || vg % 2 == 1
    requires s % 2 != 0 || t % 2 != 0
    ensures (s - vg) % 2 == 0 && (t + ug) % 2 == 0
  {
  }

  lemma {:induction false} EvenSum(x: int, y: int, p: int)
    requires x + y == 2 * p
    ensures (x + y) % 2 == 0
  {
  }

  lemma {:induction false} OddSum(s: int, t: int, ug: int, vg: int, p: int)
    requires s * ug + t * vg == 2 * p && (ug % 2 == 1 || vg % 2 == 1)
    requires s % 2 != 0 || t % 2 != 0
    ensures (s - vg) % 2 == 0 && (t + ug) % 2 == 0
  {
    ProductParity(s, ug);
    ProductParity(t, vg);
    EvenSum(s * ug, t * vg, p);
    hide ParityOfProduct;
    EvenParts(s, t, ug, vg, s * ug, t * vg);
  }

  lemma {:induction false} CorrectedSum(s: int, t: int, ug: int, vg: int)
    ensures (s - vg) * ug + (t + ug) * vg == s * ug + t * vg
  {
    DistSub(ug, s, vg);
    Dist(vg, t, ug);
  }

  lemma {:induction false} HalvedSum(s: int, t: int, ug: int, vg: int, p: int)
    requires s % 2 == 0 && t % 2 == 0 && s * ug + t * vg == 2 * p
    ensures (s / 2) * ug + (t / 2) * vg == p
  {
    Assoc(2, s / 2, ug);
    Assoc(2, t / 2, vg);
  }

  /** One factor of two leaves the combination; the correction makes both cofactors even. */
  lemma {:induction false} HalveStep(s: int, t: int, ug: int, vg: int, p: int)
    requires s * ug + t * vg == 2 * p && (ug % 2 == 1 || vg % 2 == 1)
    ensures var odd := s % 2 != 0 || t % 2 != 0;
      var s', t' := if odd then s - vg else s, if odd then t + ug else t;
      s' % 2 == 0 && t' % 2 == 0 && (s' / 2) * ug + (t' / 2) * vg == p
  {
    if s % 2 != 0 || t % 2 != 0 {
      OddSum(s, t, ug, vg, p);
      CorrectedSum(s, t, ug, vg);
      HalvedSum(s - vg, t + ug, ug, vg, p);
    } else {
      HalvedSum(s, t, ug, vg, p);
    }
  }

  /** The loop that removes the accumulated power of two. */
  method RemovePower(s: int, t: int, ug: int, vg: int, power: nat) returns (s0: int, t0: int)
    requires s * ug + t * vg == Pow2(power) && (ug % 2 == 1 || vg % 2 == 1) && 0 <= s + vg && s <= 0
    ensures s0 * ug + t0 * vg == 1 && 0 <= s0 + vg && s0 <= 0
  {
    s0, t0 := s, t;
    var p := power;
    while p > 0
      invariant 0 <= p && s0 * ug + t0 * vg == Pow2(p) && 0 <= s0 + vg && s0 <= 0
    {
      p := p - 1;
      HalveStep(s0, t0, ug, vg, Pow2(p));
      if s0 % 2 != 0 || t0 % 2 != 0 {
        s0, t0 := s0 - vg, t0 + ug;
      }
      s0, t0 := s0 / 2, t0 / 2;
    }
  }

  /* ---- mpz_gcdext ---- */

  /** g, and the combination of the magnitudes that gives it. */
  ghost predicate Combines(g: int, s: int, t: int, u: int, v: int)
  {
    0 < g && Divides(g, u) && Divides(g, v) && s * u + t * v == g
  }

  /** s is the smaller of the two cofactors it can be: at most half of |v| / g. */
  ghost predicate SmallCofactor(g: int, s: int, v: int)
  {
    2 * (Abs(s) * g) <= Abs(v)
  }

  /** Both magnitudes, freed of their common power of two, and the odd part of the gcd. */
  method OddStage(a: int, b: int, uz: nat, vz: nat) returns (g: int, s0: int, t0: int, power: nat, ghost ug: int, ghost vg: int)
    requires 0 < a && 0 < b && a % 2 == 1 && b % 2 == 1
    ensures 0 < g && g % 2 == 1 && a * Pow2(uz) == ug * g && b * Pow2(vz) == vg * g
    ensures s0 * ug + t0 * vg == Pow2(power) && 0 <= s0 + vg && s0 <= 0
  {
    var tv, q := b, a / b;
    var tu := a % b;
    var t1, s1: int;
    t0, t1, s0, s1 := Pow2(uz), q * Pow2(uz), 0, Pow2(vz);
    power := uz + vz;
    ghost var u, v := a * Pow2(uz), b * Pow2(vz);
    InitialCofactors(a, b, q, tu, uz, vz);
    MulLe(Pow2(uz), 0, q);
    if tu > 0 {
      var r, shift := MakeOdd(tu);
      MulLe(Pow2(shift), 0, t0);
      ShiftU(u, v, tu, tv, t0, t1, s0, s1, power, r, shift);
      tu, tv, t0, t1, s0, s1, power := Reduce(u, v, r, tv, t0 * Pow2(shift), t1, s0 * Pow2(shift), s1, power + shift);
    }
    ug, vg := OddGcd(u, v, tu, tv, t0, t1, s0, s1, power);
    s0 := -s0;
    CancelGcd(s0, ug, t0, vg, tv, Pow2(power));
    g := tv;
  }

  lemma {:induction false} CancelGcd(s: int, ug: int, t: int, vg: int, g: int, p: int)
    requires 0 < g && s * (ug * g) + t * (vg * g) == p * g
    ensures s * ug + t * vg == p
  {
    Assoc(s, ug, g);
    Assoc(t, vg, g);
    Dist(g, s * ug, t * vg);
    MulCancel(g, s * ug + t * vg, p);
    MulCancel(g, p, s * ug + t * vg);
  }

  /** The case of two non-zero numbers, on magnitudes. */
  method GcdExtMagnitudes(u: int, v: int) returns (g: int, s: int, t: int)
    requires 0 < u && 0 < v
    ensures Combines(g, s, t, u, v)
    ensures SmallCofactor(g, s, v) || SmallCofactor(g, t, u)
  {
    var a, uz := MakeOdd(u);
    var b, vz := MakeOdd(v);
    var gz := if uz < vz then uz else vz;
    var swapped := LimbCount(a) < LimbCount(b);
    if swapped {
      g, t, s := GcdExtOrdered(b, a, vz - gz, uz - gz, gz);
    } else {
      g, s, t := GcdExtOrdered(a, b, uz - gz, vz - gz, gz);
    }
    Restore(u, a, uz, gz);
    Restore(v, b, vz, gz);
  }

  lemma {:induction false} Restore(u: int, a: int, z: nat, gz: nat)
    requires u == a * Pow2(z) && gz <= z
    ensures u == a * Pow2(z - gz) * Pow2(gz)
  {
    Pow2Add(z - gz, gz);
    Assoc(a, Pow2(z - gz), Pow2(gz));
  }

  /** After the possible swap: odd parts a and b, and the powers of two beyond the common one. */
  method GcdExtOrdered(a: int, b: int, uz: nat, vz: nat, gz: nat) returns (g: int, s: int, t: int)
    requires 0 < a && 0 < b && a % 2 == 1 && b % 2 == 1 && (uz == 0 || vz == 0)
    ensures Combines(g, s, t, a * Pow2(uz) * Pow2(gz), b * Pow2(vz) * Pow2(gz))
    ensures SmallCofactor(g, s, b * Pow2(vz) * Pow2(gz))
  {
    var tv, power;
    ghost var ug, vg;
    tv, s, t, power, ug, vg := OddStage(a, b, uz, vz);
    if uz == 0 { OddFactor(a, ug, tv); } else { OddFactor(b, vg, tv); }
    g := tv * Pow2(gz);
    Quotients(a * Pow2(uz), ug, tv, Pow2(gz));
    Quotients(b * Pow2(vz), vg, tv, Pow2(gz));
    var s1, t1 := b * Pow2(vz) * Pow2(gz) / g, a * Pow2(uz) * Pow2(gz) / g;
    s, t := RemovePower(s, t, t1, s1, power);
    var sAlt := s + s1;
    CorrectedSum(sAlt, t - t1, t1, s1);
    if Abs(s) > Abs(sAlt) {
      s, t := sAlt, t - t1;
    }
    ScaleCombination(g, s, t, t1, s1);
    HalfBound(g, s, s1);
  }

  lemma {:induction false} HalfBound(g: int, s: int, vg: int)
    requires 0 < g && 2 * Abs(s) <= vg
    ensures SmallCofactor(g, s, vg * g)
  {
    MulLe(g, 2 * Abs(s), vg);
    Assoc(2, Abs(s), g);
  }

  lemma {:induction false} Quotients(u: int, ug: int, g: int, p: int)
    requires u == ug * g && 0 < g && 0 < p
    ensures 0 < g * p && u * p == ug * (g * p) && u * p / (g * p) == ug
  {
    MulLe(p, 1, g);
    Assoc(ug, g, p);
    DivUnique(u * p, g * p, ug, 0);
  }

  lemma {:induction false} ScaleCombination(g: int, s: int, t: int, ug: int, vg: int)
    requires 0 < g && s * ug + t * vg == 1
    ensures Combines(g, s, t, ug * g, vg * g)
  {
    Assoc(s, ug, g);
    Assoc(t, vg, g);
    Dist(g, s * ug, t * vg);
    assert Multiple(ug, g, ug * g) && Multiple(vg, g, vg * g);
  }

  lemma {:induction false} DividesNegated(g: int, u: int)
    ensures Divides(g, u) ==> Divides(g, -u)
  {
    if Divides(g, u) {
      var k :| Multiple(k, g, u);
      assert Multiple(-k, g, -u);
    }
  }

  function Sign(x: int): int
  {
    if x < 0 then -1 else if x == 0 then 0 else 1
  }

  lemma {:induction false} SelfDivides(x: int)
    ensures Divides(Abs(x), x) && Divides(Abs(x), 0)
  {
    assert Multiple(Sign(x), Abs(x), x);
    assert Multiple(0, Abs(x), 0);
  }

  /** mpz_gcdext. */
  method GcdExt(u: int, v: int) returns (g: int, s: int, t: int)
    ensures IsGcd(g, u, v)
    ensures s * u + t * v == g
    ensures u != 0 && v != 0 ==> SmallCofactor(g, s, v) || SmallCofactor(g, t, u)
    ensures v != 0 && Abs(v) < Abs(u) && 2 * g < Abs(u) ==> 2 * (Abs(s) * g) < Abs(u)
  {
    if u == 0 {
      g, s, t := Abs(v), 0, Sign(v);
      SelfDivides(v);
      BezoutIsGcd(g, u, v, s, t);
    } else if v == 0 {
      g, s, t := Abs(u), Sign(u), 0;
      SelfDivides(u);
      BezoutIsGcd(g, u, v, s, t);
    } else {
      g, s, t := GcdExtMagnitudes(Abs(u), Abs(v));
      DividesNegated(g, Abs(u));
      DividesNegated(g, Abs(v));
      SignedCombination(s, t, u, v);
      if u < 0 { s := -s; }
      if v < 0 { t := -t; }
      BezoutIsGcd(g, u, v, s, t);
      if Abs(v) < Abs(u) && 2 * g < Abs(u) {
        CommentedBoundHolds(g, s, t, u, v);
      }
    }
  }

  lemma {:induction false} SignedCombination(s: int, t: int, u: int, v: int)
    ensures (if u < 0 then -s else s) * u == s * Abs(u)
    ensures (if v < 0 then -t else t) * v == t * Abs(v)
  {
    assert (-s) * u == s * (-u);
    assert (-t) * v == t * (-v);
  }

  /** For 3 and 7 the result is s = -2, which is not below |u| / 2g: the bound that
      the source's comment gives to s is the one on t. */
  lemma {:induction false} CommentedBoundFails(g: int, s: int, t: int)
    requires IsGcd(g, 3, 7) && s * 3 + t * 7 == g && (SmallCofactor(g, s, 7) || SmallCofactor(g, t, 3))
    ensures g == 1 && s == -2 && t == 1
    ensures 2 * (Abs(s) * g) > 3 && 2 * (Abs(t) * g) < 3
  {
    hide Divides;
    DividesOne();
    BezoutIsGcd(1, 3, 7, -2, 1);
    GcdUnique(g, 1, 3, 7);
  }

  lemma {:induction false} DividesOne()
    ensures Divides(1, 3) && Divides(1, 7)
  {
    assert Multiple(3, 1, 3) && Multiple(7, 1, 7);
  }

  /** A multiple of g below another one is below it by g at least. */
  lemma {:induction false} MultiplesApart(g: int, u: int, v: int)
    requires 0 < g && Divides(g, u) && Divides(g, v) && Abs(v) < Abs(u)
    ensures Abs(v) + g <= Abs(u)
  {
    var k :| Multiple(k, g, u);
    var m :| Multiple(m, g, v);
    AbsMul(k, g);
    AbsMul(m, g);
    NextMultiple(g, Abs(k), Abs(m));
  }

  lemma {:induction false} NextMultiple(g: int, k: int, m: int)
    requires 0 < g && m * g < k * g
    ensures m * g + g <= k * g
  {
    if k < m + 1 {
      MulLe(g, k, m);
    }
    MulLe(g, m + 1, k);
    Dist(g, m, 1);
  }

  lemma {:induction false} AbsMul(x: int, y: int)
    ensures Abs(x * y) == Abs(x) * Abs(y)
  {
    MulLe(Abs(x), 0, Abs(y));
    assert (-x) * y == -(x * y) == x * (-y);
  }

  /** The bound on the other cofactor carries over; a and b are the magnitudes. */
  lemma {:induction false} BoundCarries(a: int, b: int, s: int, t: int, g: int)
    requires 0 < g && 0 <= s && 0 <= t && 0 <= b && b + g <= a && 2 * g < a
    requires s * a <= g + t * b && 2 * (t * g) <= a
    ensures 2 * (s * g) < a
  {
    if a <= 2 * (s * g) {
      MulLe(a, a, 2 * (s * g));
      Rearranged(a, s, g);
      MulLe(2 * g, s * a, g + t * b);
      Dist(2 * g, g, t * b);
      Rearranged(b, t, g);
      MulLe(b, 2 * (t * g), a);
      MulLe(a, b, a - g);
      Dist(a, a, -g);
      MulLess(g, 2 * g, a);
    }
  }

  lemma {:induction false} Rearranged(a: int, s: int, g: int)
    ensures a * (2 * (s * g)) == 2 * g * (s * a)
  {
    Assoc(2 * g, s, a);
  }

  /** If |v| is below |u|, and |u| is not just twice the gcd, then s has the bound of
      the source's comment, whichever of the two cofactors the routine has kept small. */
  lemma {:induction false} CommentedBoundHolds(g: int, s: int, t: int, u: int, v: int)
    requires 0 < g && Divides(g, u) && Divides(g, v) && s * u + t * v == g
    requires SmallCofactor(g, s, v) || SmallCofactor(g, t, u)
    requires Abs(v) < Abs(u) && 2 * g < Abs(u)
    ensures 2 * (Abs(s) * g) < Abs(u)
  {
    MultiplesApart(g, u, v);
    AbsMul(s, u);
    AbsMul(t, v);
    if SmallCofactor(g, t, u) {
      BoundCarries(Abs(u), Abs(v), Abs(s), Abs(t), g);
    }
  }

  /** For |u| twice the gcd the strict bound is reached by cofactors that the weaker
      promise allows. */
  lemma {:induction false} TwiceGcdReached()
    ensures IsGcd(1, 2, 1) && 1 * 2 + (-1) * 1 == 1 && SmallCofactor(1, -1, 2) && 2 * (Abs(1) * 1) == Abs(2)
  {
    assert Multiple(2, 1, 2) && Multiple(1, 1, 1);
    BezoutIsGcd(1, 2, 1, 1, -1);
  }
}
