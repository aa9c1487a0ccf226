/** mpz_gcd: the greatest common divisor by shifts and subtractions, with the last
    steps on single words. */
module BinaryGcd {
  import opened Arith
  import opened Limbs
  import opened PowerOfTwo
  import opened Gcd
  import opened MpzObject

  /** Every greatest common divisor of x and y is one of u and v. */
  ghost predicate Reduces(u: int, v: int, x: int, y: int)
  {
    forall g :: IsGcd(g, x, y) ==> IsGcd(g, u, v)
  }

  /** To divide both u and v is to divide both x and y. */
  ghost predicate SameDivisors(u: int, v: int, x: int, y: int)
  {
    forall c :: Divides(c, u) && Divides(c, v) <==> Divides(c, x) && Divides(c, y)
  }

  lemma {:induction false} SameDivisorsReduce(u: int, v: int, x: int, y: int)
    requires SameDivisors(u, v, x, y)
    ensures Reduces(u, v, x, y)
  {
    forall g | IsGcd(g, x, y)
      ensures IsGcd(g, u, v)
    {
      assert Divides(g, u) && Divides(g, v);
    }
  }

  /* ---- What one step keeps ---- */

  lemma {:induction false} DividesSum(c: int, x: int, y: int, q: int)
    requires Divides(c, x) && Divides(c, y)
    ensures Divides(c, x + q * y)
  {
    var k :| Multiple(k, c, x);
    var m :| Multiple(m, c, y);
    Assoc(q, m, c);
    Dist(c, k, q * m);
    assert Multiple(k + q * m, c, x + q * y);
  }

  lemma {:induction false} DividesMultiple(c: int, x: int, p: int)
    requires Divides(c, x)
    ensures Divides(c, x * p)
  {
    var k :| Multiple(k, c, x);
    Assoc(p, k, c);
    assert Multiple(p * k, c, x * p);
  }

  lemma {:induction false} SubtractionKeeps(x: int, y: int, q: int)
    ensures Reduces(x + q * y, y, x, y)
  {
    forall c
      ensures Divides(c, x + q * y) && Divides(c, y) <==> Divides(c, x) && Divides(c, y)
    {
      if Divides(c, x) && Divides(c, y) { DividesSum(c, x, y, q); }
      if Divides(c, x + q * y) && Divides(c, y) { DividesSum(c, x + q * y, y, -q); }
    }
    SameDivisorsReduce(x + q * y, y, x, y);
  }

  /** An odd divisor of twice a number divides the number. */
  lemma {:induction false} OddDivides(c: int, x: int)
    requires c % 2 == 1 && Divides(c, 2 * x)
    ensures Divides(c, x)
  {
    var k :| Multiple(k, c, 2 * x);
    OddTimes(c, k, x);
    assert (k / 2) * c == x by { Assoc(2, k / 2, c); }
    assert Multiple(k / 2, c, x);
  }

  lemma {:induction false} OddDividesPower(c: int, x: int, k: nat)
    requires c % 2 == 1 && Divides(c, x * Pow2(k))
    ensures Divides(c, x)
  {
    if k > 0 {
      Assoc(x, 2, Pow2(k - 1));
      Assoc(2, x, Pow2(k - 1));
      OddDivides(c, x * Pow2(k - 1));
      OddDividesPower(c, x, k - 1);
    } else {
      assert x * Pow2(0) == x;
    }
  }

  /** A divisor of an odd number is odd. */
  lemma {:induction false} DivisorOfOdd(c: int, y: int)
    requires y % 2 == 1 && Divides(c, y)
    ensures c % 2 == 1
  {
    var k :| Multiple(k, c, y);
    OddFactor(y, k, c);
    OddFactor(y, c, k);
  }

  /** Next to an odd number a power of two does not count. */
  lemma {:induction false} ShiftKeeps(x: int, y: int, k: nat)
    requires y % 2 == 1
    ensures Reduces(x * Pow2(k), y, x, y)
  {
    forall c
      ensures Divides(c, x * Pow2(k)) && Divides(c, y) <==> Divides(c, x) && Divides(c, y)
    {
      if Divides(c, x) { DividesMultiple(c, x, Pow2(k)); }
      if Divides(c, x * Pow2(k)) && Divides(c, y) {
        DivisorOfOdd(c, y);
        OddDividesPower(c, x, k);
      }
    }
    SameDivisorsReduce(x * Pow2(k), y, x, y);
  }

  lemma {:induction false} SwapKeeps(x: int, y: int)
    ensures Reduces(x, y, y, x)
  {
  }

  lemma {:induction false} ReducesTwice(u: int, v: int, x: int, y: int, x': int, y': int)
    requires Reduces(u, v, x, y) && Reduces(x, y, x', y')
    ensures Reduces(u, v, x', y')
  {
  }

  /** Doubling both numbers doubles their greatest common divisor. */
  lemma {:induction false} Doubled(g: int, x: int, y: int)
    requires IsGcd(g, x, y)
    ensures IsGcd(2 * g, 2 * x, 2 * y)
  {
    DividesTwice(g, x);
    DividesTwice(g, y);
    forall c | Divides(c, 2 * x) && Divides(c, 2 * y)
      ensures Divides(c, 2 * g)
    {
      if c % 2 == 1 {
        OddDivides(c, x);
        OddDivides(c, y);
        DividesMultiple(c, g, 2);
      } else {
        HalfDivides(c, x);
        HalfDivides(c, y);
        DividesTwice(c / 2, g);
      }
    }
  }

  lemma {:induction false} DividesTwice(c: int, x: int)
    requires Divides(c, x)
    ensures Divides(2 * c, 2 * x)
  {
    var k :| Multiple(k, c, x);
    Assoc(k, 2, c);
    Assoc(2, k, c);
    assert Multiple(k, 2 * c, 2 * x);
  }

  lemma {:induction false} HalfDivides(c: int, x: int)
    requires c % 2 == 0 && Divides(c, 2 * x)
    ensures Divides(c / 2, x)
  {
    var k :| Multiple(k, c, 2 * x);
    Assoc(k, 2, c / 2);
    Assoc(2, k, c / 2);
    assert Multiple(k, c / 2, x);
  }

  lemma {:induction false} Scaled(g: int, x: int, y: int, k: nat)
    requires IsGcd(g, x, y)
    ensures IsGcd(g * Pow2(k), x * Pow2(k), y * Pow2(k))
  {
    if k == 0 {
      assert g * Pow2(0) == g && x * Pow2(0) == x && y * Pow2(0) == y;
    } else {
      Scaled(g, x, y, k - 1);
      Doubled(g * Pow2(k - 1), x * Pow2(k - 1), y * Pow2(k - 1));
      TwicePower(g, k);
      TwicePower(x, k);
      TwicePower(y, k);
    }
  }

  lemma {:induction false} TwicePower(x: int, k: nat)
    requires k > 0
    ensures 2 * (x * Pow2(k - 1)) == x * Pow2(k)
  {
    Assoc(2, x, Pow2(k - 1));
    Assoc(x, 2, Pow2(k - 1));
  }

  lemma {:induction false} GcdOfEqual(x: int)
    requires 0 <= x
    ensures IsGcd(x, x, x) && IsGcd(x, 0, x) && IsGcd(x, x, 0)
  {
    assert Multiple(1, x, x) && Multiple(0, x, 0);
  }

  /* ---- mpn_gcd_11 ---- */

  /** The subtract-and-shift loop on two odd words. */
  method OddWords(u0: Limb, v0: Limb) returns (g: Limb)
    requires u0 % 2 == 1 && v0 % 2 == 1
    ensures IsGcd(g, u0, v0) && 0 < g
  {
    hide Reduces, IsGcd;
    var u, v := u0, v0;
    Reflexive(u, v);
    while u != v
      invariant u % 2 == 1 && v % 2 == 1 && Reduces(u0, v0, u, v)
      decreases u, v
    {
      if u > v {
        ghost var was := u;
        u := NextOdd(u, v);
        ReducesTwice(u0, v0, was, v, u, v);
      } else {
        ghost var was := v;
        v := NextOdd(v, u);
        SwapKeeps(u, was);
        ReducesTwice(u, was, was, u, v, u);
        SwapKeeps(v, u);
        ReducesTwice(u, was, v, u, u, v);
        ReducesTwice(u0, v0, u, was, u, v);
      }
    }
    g := u;
    GcdOfEqual(u);
    ReducesTo(u0, v0, u, u, u);
  }

  lemma {:induction false} Reflexive(u: int, v: int)
    ensures Reduces(u, v, u, v)
  {
  }

  lemma {:induction false} ReducesTo(u: int, v: int, x: int, y: int, g: int)
    requires Reduces(u, v, x, y) && IsGcd(g, x, y)
    ensures IsGcd(g, u, v)
  {
  }

  /** The odd part of u - v. */
  method NextOdd(u: Limb, v: Limb) returns (r: Limb)
    requires u > v && u % 2 == 1 && v % 2 == 1
    ensures r % 2 == 1 && r < u && Reduces(u, v, r, v)
  {
    var x, shift := MakeOdd(u - v);
    r := x;
    SubtractionKeeps(u - v, v, 1);
    ShiftKeeps(x, v, shift);
    ReducesTwice(u, v, u - v, v, x, v);
  }

  /** The power of two common to u and v: the place of the lowest one of u | v. */
  method CommonZeros(u0: Limb, v0: Limb) returns (u: Limb, v: Limb, shift: nat)
    requires u0 > 0 && v0 > 0
    ensures u0 == u * Pow2(shift) && v0 == v * Pow2(shift) && u > 0 && v > 0
    ensures u % 2 == 1 || v % 2 == 1
  {
    u, v, shift := u0, v0, 0;
    while u % 2 == 0 && v % 2 == 0
      invariant u0 == u * Pow2(shift) && v0 == v * Pow2(shift) && u > 0 && v > 0
      decreases u
    {
      Assoc(u / 2, 2, Pow2(shift));
      Assoc(v / 2, 2, Pow2(shift));
      u, v, shift := u / 2, v / 2, shift + 1;
    }
  }

  /** mpn_gcd_11 */
  method GcdWords(u0: Limb, v0: Limb) returns (g: Limb)
    requires u0 > 0 || v0 > 0
    ensures IsGcd(g, u0, v0)
  {
    hide Reduces, IsGcd;
    if u0 == 0 {
      GcdOfEqual(v0);
      return v0;
    }
    if v0 == 0 {
      GcdOfEqual(u0);
      return u0;
    }
    var u, v, shift := CommonZeros(u0, v0);
    ghost var x, y := u, v;
    Reflexive(x, y);
    if u % 2 == 0 {
      SwapKeeps(x, y);
      u, v := v, u;
    }
    var r, k := MakeOdd(v);
    SwapKeeps(u, v);
    ShiftKeeps(r, u, k);
    ReducesTwice(u, v, v, u, r, u);
    SwapKeeps(r, u);
    ReducesTwice(u, v, r, u, u, r);
    ReducesTwice(x, y, u, v, u, r);
    var h := OddWords(u, r);
    ReducesTo(x, y, u, r, h);
    Scaled(h, x, y, shift);
    GcdBelow(h * Pow2(shift), u0, v0);
    g := h * Pow2(shift);
  }

  lemma {:induction false} GcdBelow(g: int, u: int, v: int)
    requires IsGcd(g, u, v) && 0 < u
    ensures 0 <= g <= u
  {
    var k :| Multiple(k, g, u);
    DivisorBelow(k, g, u);
  }

  /* ---- mpz_gcd ---- */

  /** mpz_tdiv_r on magnitudes. */
  method Remainder(u: int, v: int) returns (r: int)
    requires 0 < v
    ensures 0 <= r < v && Reduces(u, v, r, v)
  {
    r := u % v;
    assert u == r + (u / v) * v;
    SubtractionKeeps(r, v, u / v);
  }

  /** A divisor of one word: the remainder is one too. */
  method LastWords(tu: int, tv: int) returns (g: int)
    requires 0 < tv && LimbCount(tv) == 1
    ensures IsGcd(g, tu, tv)
  {
    hide Reduces, IsGcd;
    OneWord(tv);
    var r := Remainder(tu, tv);
    g := GcdWords(r, tv);
    ReducesTo(tu, tv, r, tv, g);
  }

  /** The loop: tv is odd, tu positive and about to be made odd. */
  method GcdLoop(u0: int, v0: int) returns (g: int)
    requires 0 < u0 && 0 < v0 && v0 % 2 == 1
    ensures IsGcd(g, u0, v0)
  {
    hide Reduces, IsGcd;
    var tu, tv := u0, v0;
    Reflexive(tu, tv);
    while true
      invariant 0 < tu && 0 < tv && tv % 2 == 1 && Reduces(u0, v0, tu, tv)
      decreases tu + tv
    {
      ghost var was := tu;
      var r, shift := MakeOdd(tu);
      ShiftKeeps(r, tv, shift);
      ReducesTwice(u0, v0, was, tv, r, tv);
      tu := r;
      if tu == tv {
        GcdOfEqual(tu);
        ReducesTo(u0, v0, tu, tu, tu);
        return tu;
      }
      if tu < tv {
        SwapKeeps(tu, tv);
        ReducesTwice(u0, v0, tu, tv, tv, tu);
        tu, tv := tv, tu;
      }
      if LimbCount(tv) == 1 {
        g := LastWords(tu, tv);
        ReducesTo(u0, v0, tu, tv, g);
        return;
      }
      SubtractionKeeps(tu - tv, tv, 1);
      ReducesTwice(u0, v0, tu, tv, tu - tv, tv);
      tu := tu - tv;
    }
  }

  lemma {:induction false} OneWord(x: nat)
    requires LimbCount(x) == 1
    ensures 0 < x < B
  {
  }

  /** The odd parts: the larger one is first reduced by the other. */
  method GcdOdd(a: int, b: int) returns (g: int)
    requires 0 < a && 0 < b && a % 2 == 1 && b % 2 == 1
    ensures IsGcd(g, a, b)
  {
    hide Reduces, IsGcd;
    var tu, tv := a, b;
    Reflexive(a, b);
    if LimbCount(tu) < LimbCount(tv) {
      SwapKeeps(a, b);
      tu, tv := tv, tu;
    }
    var r := Remainder(tu, tv);
    if r == 0 {
      GcdOfEqual(tv);
      g := tv;
    } else {
      g := GcdLoop(r, tv);
    }
    ReducesTo(tu, tv, r, tv, g);
    ReducesTo(a, b, tu, tv, g);
  }

  /** The common power of two comes back at the end. */
  lemma {:induction false} PowersBack(g: int, a: int, b: int, uz: nat, vz: nat)
    requires IsGcd(g, a, b) && a % 2 == 1 && b % 2 == 1
    ensures var gz := if uz < vz then uz else vz; IsGcd(g * Pow2(gz), a * Pow2(uz), b * Pow2(vz))
  {
    var gz := if uz < vz then uz else vz;
    hide Reduces, IsGcd;
    if uz < vz {
      SwapKeeps(a, b * Pow2(vz - gz));
      ShiftKeeps(b, a, vz - gz);
      SwapKeeps(b, a);
      ReducesTo(b, a, a, b, g);
      ReducesTo(b * Pow2(vz - gz), a, b, a, g);
      ReducesTo(a, b * Pow2(vz - gz), b * Pow2(vz - gz), a, g);
      Scaled(g, a, b * Pow2(vz - gz), gz);
      Restore(b * Pow2(vz), b, vz, gz);
    } else {
      ShiftKeeps(a, b, uz - gz);
      ReducesTo(a * Pow2(uz - gz), b, a, b, g);
      Scaled(g, a * Pow2(uz - gz), b, gz);
      Restore(a * Pow2(uz), a, uz, gz);
    }
  }

  lemma {:induction false} GcdOfMagnitudes(g: int, u: int, v: int)
    requires IsGcd(g, Abs(u), Abs(v))
    ensures IsGcd(g, u, v)
  {
    forall c
      ensures Divides(c, u) <==> Divides(c, Abs(u))
      ensures Divides(c, v) <==> Divides(c, Abs(v))
    {
      DividesNegated(c, u);
      DividesNegated(c, Abs(u));
      DividesNegated(c, v);
      DividesNegated(c, Abs(v));
    }
  }

  /** mpz_gcd */
  method MpzGcd(u: int, v: int) returns (g: int)
    ensures IsGcd(g, u, v)
  {
    hide IsGcd;
    if u == 0 || v == 0 {
      g := if u == 0 then Abs(v) else Abs(u);
      GcdOfEqual(g);
    } else {
      var a, uz := MakeOdd(Abs(u));
      var b, vz := MakeOdd(Abs(v));
      var h := GcdOdd(a, b);
      var gz := if uz < vz then uz else vz;
      PowersBack(h, a, b, uz, vz);
      g := h * Pow2(gz);
    }
    GcdOfMagnitudes(g, u, v);
  }
}
