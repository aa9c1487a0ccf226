/** Powers of two: the shape of their divisors, and the word sizes among them. */
module PowerOfTwo {
  import opened Arith
  import opened Limbs

  function Pow2(n: nat): (p: nat)
    ensures p >= 1
  {
    if n == 0 then 1 else 2 * Pow2(n - 1)
  }

  /** mpz_lshift_ui and mpz_rshift_ui on numbers that are not negative. */
  function Shl(v: nat, n: nat): (r: nat)
  {
    MulLe(Pow2(n), 0, v);
    Pow2(n) * v
  }

  function Shr(v: nat, n: nat): (r: nat)
  {
    DivNonNegative(v, Pow2(n));
    v / Pow2(n)
  }

  lemma {:induction false} ShlIs(d: nat, n: nat)
    ensures Shl(d, n) == Pow2(n) * d
  {
  }

  lemma {:induction false} PowZero()
    ensures Pow2(0) == 1
  {
  }

  lemma {:induction false} ShrNothing(v: nat)
    ensures Shr(v, 0) == v
  {
  }

  lemma {:induction false} ShlOrder(a: nat, b: nat, k: nat)
    ensures Shl(a, k) < Shl(b, k) <==> a < b
    ensures Shl(a, k) == Shl(b, k) <==> a == b
  {
    var p := Pow2(k);
    if a < b {
      MulLe(p, a + 1, b);
    } else if b < a {
      MulLe(p, b + 1, a);
    }
  }

  lemma {:induction false} Pow2Add(m: nat, n: nat)
    ensures Pow2(m + n) == Pow2(m) * Pow2(n)
  {
    if m == 0 {
    } else {
      Pow2Add(m - 1, n);
      Assoc(2, Pow2(m - 1), Pow2(n));
    }
  }

  lemma {:induction false} Pow2Monotone(m: nat, n: nat)
    requires m <= n
    ensures Pow2(m) <= Pow2(n)
  {
    if m < n {
      Pow2Monotone(m, n - 1);
    }
  }

  lemma {:induction false} WordPowers()
    ensures Pow2(32) == H && Pow2(64) == B
  {
    HalfPower();
    Pow2Add(32, 32);
  }

  lemma {:induction false} HalfPower()
    ensures Pow2(32) == H
  {
    BytePower();
    Pow2Add(8, 8);
    Pow2Add(16, 16);
  }

  lemma {:induction false} BytePower()
    ensures Pow2(8) == 256
  {
    Pow2Add(4, 4);
    assert Pow2(4) == 2 * Pow2(3) && Pow2(3) == 2 * Pow2(2) && Pow2(2) == 2 * Pow2(1);
  }

  /** A positive divisor of a power of two is a power of two. */
  lemma {:induction false} Pow2Divisor(x: nat, y: nat, k: nat) returns (j: nat)
    requires x * y == Pow2(k)
    ensures x == Pow2(j)
  {
    if k == 0 {
      if x != 1 {
        MulLe(y, 2, x);
      }
      j := 0;
    } else if x % 2 == 0 {
      Assoc(2, x / 2, y);
      j := Pow2Divisor(x / 2, y, k - 1);
      j := j + 1;
    } else {
      assert y % 2 == 0 by { OddTimes(x, y, Pow2(k - 1)); }
      Assoc(x, y / 2, 2);
      Assoc(x, 2, y / 2);
      j := Pow2Divisor(x, y / 2, k - 1);
    }
  }

  lemma {:induction false} OddTimes(x: int, y: int, z: int)
    requires x % 2 == 1 && x * y == 2 * z
    ensures y % 2 == 0
  {
    var h := x / 2;
    assert x * y == 2 * (h * y) + y by { Assoc(2, h, y); Dist(y, 2 * h, 1); }
  }

  lemma {:induction false} Pow2Strict(m: nat, n: nat)
    requires m < n
    ensures Pow2(m) < Pow2(n)
  {
    Pow2Monotone(m, n - 1);
  }

  lemma {:induction false} ShrBelow(v: nat, n: nat)
    ensures Shr(v, n) <= v
  {
    var p := Pow2(n);
    if Shr(v, n) > v {
      MulLe(Shr(v, n), 1, p);
    }
  }

  /** fls and mpz_sizeinbase in base 2: the place of the highest bit, counted from one;
      zero has none. */
  function BitLength(n: nat): (r: nat)
  {
    if n == 0 then 0 else 1 + BitLength(n / 2)
  }

  lemma {:induction false} BitLengthIs(n: nat, r: nat)
    requires r > 0 && Pow2(r - 1) <= n < Pow2(r)
    ensures BitLength(n) == r
  {
    if r == 1 {
      assert Pow2(1) == 2 * Pow2(0);
      assert BitLength(0) == 0;
    } else {
      assert Pow2(r) == 2 * Pow2(r - 1) && Pow2(r - 1) == 2 * Pow2(r - 2);
      BitLengthIs(n / 2, r - 1);
    }
  }

  lemma {:induction false} BitLengthBounds(n: nat)
    ensures n < Pow2(BitLength(n))
    ensures n > 0 ==> BitLength(n) > 0 && Pow2(BitLength(n) - 1) <= n
  {
    if n > 0 {
      BitLengthBounds(n / 2);
      assert Pow2(BitLength(n)) == 2 * Pow2(BitLength(n / 2));
      if n == 1 {
        assert BitLength(0) == 0;
      }
    }
  }
}
