/** mpz_rootrem: integer roots by Newton iteration from above. */
module RootRem {
  import opened Arith
  import opened PowerOfTwo
  import opened MpzObject

  function Power(b: int, e: nat): int
  {
    if e == 0 then 1 else b * Power(b, e - 1)
  }

  /** Division rounding toward zero, for a positive divisor. */
  function TruncDiv(a: int, b: int): int
    requires 0 < b
  {
    if a < 0 then -((-a) / b) else a / b
  }

  /** x is the z-th root of y truncated toward zero, and r what is left. */
  ghost predicate IsRoot(x: int, r: int, y: int, z: nat)
  {
    && Power(Abs(x), z) <= Abs(y) < Power(Abs(x) + 1, z)
    && (x < 0 ==> y < 0) && (0 < x ==> 0 < y)
    && y == Power(x, z) + r
  }

  /* ---- Powers ---- */

  lemma {:induction false} PowerPositive(b: int, e: nat)
    requires 0 < b
    ensures 0 < Power(b, e)
  {
    if e > 0 {
      PowerPositive(b, e - 1);
      MulLe(b, 1, Power(b, e - 1));
    }
  }

  lemma {:induction false} PowerNotNegative(b: int, e: nat)
    requires 0 <= b
    ensures 0 <= Power(b, e)
  {
    if e > 0 {
      PowerNotNegative(b, e - 1);
      MulLe(b, 0, Power(b, e - 1));
    }
  }

  lemma {:induction false} PowerMonotone(a: int, b: int, e: nat)
    requires 0 <= a <= b
    ensures Power(a, e) <= Power(b, e)
  {
    if e > 0 {
      PowerMonotone(a, b, e - 1);
      PowerNotNegative(a, e - 1);
      MulLe(Power(a, e - 1), a, b);
      MulLe(b, Power(a, e - 1), Power(b, e - 1));
    }
  }

  lemma {:induction false} PowerNegated(b: int, e: nat)
    ensures Power(-b, e) == if e % 2 == 0 then Power(b, e) else -Power(b, e)
  {
    if e > 0 {
      PowerNegated(b, e - 1);
      assert (-b) * (-Power(b, e - 1)) == b * Power(b, e - 1);
      assert (-b) * Power(b, e - 1) == -(b * Power(b, e - 1));
    }
  }

  lemma {:induction false} PowerOfPow2(k: nat, e: nat)
    ensures 0 <= k * e && Power(Pow2(k), e) == Pow2(k * e)
  {
    MulLe(k, 0, e);
    if e > 0 {
      PowerOfPow2(k, e - 1);
      Dist(k, e - 1, 1);
      Pow2Add(k, k * (e - 1));
    }
  }

  /* ---- The Newton step never drops below the root ---- */

  /** x^z + (z - 1) u^z - z x u^(z - 1). */
  ghost function MeanGap(x: int, u: int, z: nat): int
    requires 1 <= z
  {
    Power(x, z) + (z - 1) * Power(u, z) - z * (x * Power(u, z - 1))
  }

  lemma {:induction false} MeanGapStep(x: int, u: int, z: nat)
    requires 1 <= z
    ensures MeanGap(x, u, z + 1) == x * MeanGap(x, u, z) + z * (Power(u, z - 1) * ((u - x) * (u - x)))
  {
    var p, w := Power(u, z - 1), Power(x, z);
    assert Power(u, z) == u * p && Power(u, z + 1) == u * (u * p) && Power(x, z + 1) == x * w;
    GapAlgebra(x, u, z, p, w);
  }

  lemma {:induction false} GapAlgebra(x: int, u: int, z: int, p: int, w: int)
    ensures x * w + z * (u * (u * p)) - (z + 1) * (x * (u * p))
         == x * (w + (z - 1) * (u * p) - z * (x * p)) + z * (p * ((u - x) * (u - x)))
  {
    var a, b, c := u * (u * p), x * (u * p), x * (x * p);
    assert p * ((u - x) * (u - x)) == a - 2 * b + c by { SquareTimes(u, x, p); }
    assert x * ((z - 1) * (u * p)) == (z - 1) * b by { Assoc(x, z - 1, u * p); Assoc(z - 1, x, u * p); }
    assert x * (z * (x * p)) == z * c by { Assoc(x, z, x * p); Assoc(z, x, x * p); }
    assert x * (w + (z - 1) * (u * p) - z * (x * p)) == x * w + (z - 1) * b - z * c by {
      Dist(x, w + (z - 1) * (u * p), -(z * (x * p))); Dist(x, w, (z - 1) * (u * p));
    }
    Dist(z, a - 2 * b, c);
    Dist(z, a, -2 * b);
  }

  lemma {:induction false} SquareTimes(u: int, x: int, p: int)
    ensures p * ((u - x) * (u - x)) == u * (u * p) - 2 * (x * (u * p)) + x * (x * p)
  {
    assert (u - x) * (u - x) == u * u - 2 * (x * u) + x * x;
    Dist(p, u * u - 2 * (x * u), x * x);
    Dist(p, u * u, -2 * (x * u));
    Assoc(u, u, p);
    Assoc(x, u, p);
    Assoc(x, x, p);
  }

  /** The weighted arithmetic-geometric mean inequality for integers. */
  lemma {:induction false} MeanInequality(x: int, u: int, z: nat)
    requires 0 <= x && 0 <= u && 1 <= z
    ensures 0 <= MeanGap(x, u, z)
  {
    if z == 1 {
      assert Power(x, 1) == x * Power(x, 0);
    } else {
      MeanInequality(x, u, z - 1);
      MeanGapStep(x, u, z - 1);
      PowerNotNegative(u, z - 2);
      var sq := (u - x) * (u - x);
      assert 0 <= sq;
      MulLe(x, 0, MeanGap(x, u, z - 1));
      MulLe(Power(u, z - 2), 0, sq);
      MulLe(z - 1, 0, Power(u, z - 2) * sq);
    }
  }

  /** One iterate on magnitudes. */
  ghost function Newton(y: int, u: int, z: nat): int
    requires 0 < u && 1 <= z
  {
    PowerPositive(u, z - 1);
    (y / Power(u, z - 1) + u * (z - 1)) / z
  }

  lemma {:induction false} DivideLower(p: int, k: int, y: int)
    requires 0 < p && p * k <= y
    ensures k <= y / p
  {
    MulCancel(p, k, y / p);
  }

  /** No iterate is below a number whose z-th power is at most y. */
  lemma {:induction false} NewtonAbove(y: int, u: int, z: nat, x: int)
    requires 0 < u && 1 <= z && 0 <= x && Power(x, z) <= y
    ensures x <= Newton(y, u, z)
  {
    var p := Power(u, z - 1);
    PowerPositive(u, z - 1);
    MeanInequality(x, u, z);
    var k := z * x - (z - 1) * u;
    assert p * k == z * (x * p) - (z - 1) * (u * p) by {
      DistSub(p, z * x, (z - 1) * u); Assoc(z, x, p); Assoc(z - 1, u, p);
    }
    DivideLower(p, k, y);
    DivideLower(z, x, y / p + u * (z - 1));
  }

  /** When the iterate does not decrease, u is a root from below as well. */
  lemma {:induction false} NewtonStops(y: int, u: int, z: nat)
    requires 0 < u && 1 <= z && u <= Newton(y, u, z)
    ensures Power(u, z) <= y
  {
    var p := Power(u, z - 1);
    PowerPositive(u, z - 1);
    var q := y / p;
    MulLe(z, u, (q + u * (z - 1)) / z);
    assert u <= q by { DistSub(u, z, 1); }
    MulLe(p, u, q);
  }

  /** The iterate as the code computes it. */
  function Step(y: int, u: int, z: nat): (t: int)
    requires u != 0 && 1 <= z && (u < 0 ==> z % 2 == 1)
  {
    PowerNegated(-u, z - 1);
    PowerPositive(Abs(u), z - 1);
    TruncDiv(TruncDiv(y, Power(u, z - 1)) + u * (z - 1), z)
  }

  /** Negative numbers with an odd exponent mirror the positive ones. */
  lemma {:induction false} StepMirrors(y: int, u: int, z: nat)
    requires 0 < u && 1 <= z && 0 <= y
    ensures Step(y, u, z) == Newton(y, u, z) && 0 <= Newton(y, u, z)
    ensures z % 2 == 1 ==> Step(-y, -u, z) == -Newton(y, u, z)
  {
    PowerNegated(u, z - 1);
    PowerPositive(u, z - 1);
    var p := Power(u, z - 1);
    MulLe(u, 0, z - 1);
    DivideLower(p, 0, y);
    DivideLower(z, 0, y / p + u * (z - 1));
    assert (-u) * (z - 1) == -(u * (z - 1));
    if z % 2 == 1 {
      MirroredDivision(y, p, u * (z - 1), z);
    }
  }

  lemma {:induction false} MirroredDivision(y: int, p: int, v: int, z: int)
    requires 0 <= y && 0 < p && 0 <= v && 0 < z && 0 <= y / p
    ensures TruncDiv(TruncDiv(-y, p) + -v, z) == -((y / p + v) / z)
  {
    if y == 0 {
      DivUnique(0, p, 0, 0);
    }
    if y / p + v == 0 {
      DivUnique(0, z, 0, 0);
    }
  }

  /* ---- mpz_rootrem ---- */

  /** u is at least every number whose z-th power is at most y. */
  ghost predicate AboveRoot(u: int, y: int, z: nat)
  {
    0 < u && forall x :: 0 <= x && Power(x, z) <= y ==> x <= u
  }

  lemma {:induction false} RoundedUp(n: nat, z: nat)
    requires 1 <= z
    ensures 0 <= n / z && n <= (n / z + 1) * z
  {
    DivideLower(z, 0, n);
    Dist(z, n / z, 1);
  }

  lemma {:induction false} StartAbove(y: int, z: nat, k: nat)
    requires 1 < y && 1 <= z && k == BitLength(y) / z + 1
    ensures AboveRoot(Pow2(k), y, z)
  {
    var u := Pow2(k);
    BitLengthBounds(y);
    hide BitLength;
    RoundedUp(BitLength(y), z);
    PowerOfPow2(k, z);
    Pow2Monotone(BitLength(y), k * z);
    hide Pow2;
    hide Power;
    forall x | 0 <= x && Power(x, z) <= y
      ensures x <= u
    {
      if u < x { PowerMonotone(u, x, z); }
    }
  }

  lemma {:induction false} NextAbove(u: int, y: int, z: nat)
    requires AboveRoot(u, y, z) && 1 < y && 1 <= z
    ensures AboveRoot(Newton(y, u, z), y, z)
  {
    forall x | 0 <= x && Power(x, z) <= y
      ensures x <= Newton(y, u, z)
    {
      NewtonAbove(y, u, z, x);
    }
    PowerOne(z);
  }

  lemma {:induction false} PowerOne(z: nat)
    ensures Power(1, z) == 1
  {
    if z > 0 { PowerOne(z - 1); }
  }

  /** Where the loop stops, u is the root. */
  lemma {:induction false} StopIsRoot(u: int, y: int, z: nat)
    requires AboveRoot(u, y, z) && 1 <= z && u <= Newton(y, u, z)
    ensures Power(u, z) <= y < Power(u + 1, z)
  {
    NewtonStops(y, u, z);
    assert Power(u + 1, z) <= y ==> u + 1 <= u;
  }

  /** The iteration, from a start above the root. */
  method Iterate(y: int, z: nat, start: int) returns (u: int)
    requires 1 < Abs(y) && 1 <= z && (y < 0 ==> z % 2 == 1)
    requires AboveRoot(Abs(start), Abs(y), z) && (start < 0) == (y < 0)
    ensures (u < 0) == (y < 0) && u != 0
    ensures Power(Abs(u), z) <= Abs(y) < Power(Abs(u) + 1, z)
  {
    u := start;
    StepMirrors(Abs(y), Abs(u), z);
    var t := Step(y, u, z);
    NextAbove(Abs(u), Abs(y), z);
    while Abs(t) < Abs(u)
      invariant (u < 0) == (y < 0) && AboveRoot(Abs(u), Abs(y), z)
      invariant (t < 0) == (y < 0) && AboveRoot(Abs(t), Abs(y), z) && Abs(t) == Newton(Abs(y), Abs(u), z)
      decreases Abs(u)
    {
      u := t;
      StepMirrors(Abs(y), Abs(u), z);
      t := Step(y, u, z);
      NextAbove(Abs(u), Abs(y), z);
    }
    StopIsRoot(Abs(u), Abs(y), z);
  }

  /** The square-root loop: the divisor and the multiplier are u itself. */
  method IterateSquare(y: int, start: int) returns (u: int)
    requires 1 < y && AboveRoot(start, y, 2)
    ensures 0 < u && Power(u, 2) <= y < Power(u + 1, 2)
  {
    u := start;
    SquareStep(y, u);
    var t := (y / u + u) / 2;
    NextAbove(u, y, 2);
    while t < u
      invariant AboveRoot(u, y, 2) && AboveRoot(t, y, 2) && t == Newton(y, u, 2)
      decreases u
    {
      u := t;
      SquareStep(y, u);
      t := (y / u + u) / 2;
      NextAbove(u, y, 2);
    }
    StopIsRoot(u, y, 2);
  }

  lemma {:induction false} SquareStep(y: int, u: int)
    requires 0 < u
    ensures Newton(y, u, 2) == (y / u + u) / 2
  {
    assert Power(u, 1) == u * Power(u, 0);
  }

  /** mpz_rootrem. */
  method RootRem(y: int, z: nat) returns (x: int, r: int)
    requires 1 <= z && (y < 0 ==> z % 2 == 1)
    ensures IsRoot(x, r, y, z)
  {
    if Abs(y) <= 1 {
      x, r := y, 0;
      SmallRoots(y, z);
    } else {
      hide Power;
      hide BitLength;
      hide Pow2;
      RoundedUp(BitLength(Abs(y)), z);
      var t: int := Pow2(BitLength(Abs(y)) / z + 1);
      StartAbove(Abs(y), z, BitLength(Abs(y)) / z + 1);
      if z == 2 {
        x := IterateSquare(y, t);
      } else {
        x := Iterate(y, z, if y < 0 then -t else t);
      }
      r := y - Power(x, z);
    }
  }

  lemma {:induction false} SmallRoots(y: int, z: nat)
    requires -1 <= y <= 1 && 1 <= z && (y < 0 ==> z % 2 == 1)
    ensures IsRoot(y, 0, y, z)
  {
    PowerOne(z);
    PowerNegated(1, z);
    assert Power(0, z) == 0 * Power(0, z - 1);
    PowerMonotone(1, 2, z - 1);
    PowerOne(z - 1);
  }

  /** The root is determined by the conditions. */
  lemma {:induction false} RootUnique(x: int, r: int, x': int, r': int, y: int, z: nat)
    requires 1 <= z && IsRoot(x, r, y, z) && IsRoot(x', r', y, z)
    ensures x == x' && r == r'
  {
    if Abs(x) < Abs(x') { PowerMonotone(Abs(x) + 1, Abs(x'), z); }
    if Abs(x') < Abs(x) { PowerMonotone(Abs(x') + 1, Abs(x), z); }
  }
}
