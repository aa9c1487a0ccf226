/** Integer facts used by the word-level proofs.  Each one holds a single
    non-linear step, so that the proofs that use it stay linear. */
module Arith {

  lemma {:induction false} MulLe(a: int, x: int, y: int)
    requires 0 <= a && x <= y
    ensures a * x <= a * y
  {
  }

  lemma {:induction false} MulLess(p: int, x: int, y: int)
    requires 0 < p && x < y
    ensures p * x < p * y
  {
    MulLe(p, x + 1, y);
    Dist(p, x, 1);
  }

  lemma {:induction false} MulCancel(b: int, x: int, y: int)
    requires 0 < b && b * x < b * y + b
    ensures x <= y
  {
    if y + 1 <= x {
      MulLe(b, y + 1, x);
    }
  }

  lemma {:induction false} Dist(a: int, x: int, y: int)
    ensures a * (x + y) == a * x + a * y
  {
  }

  lemma {:induction false} DistSub(a: int, x: int, y: int)
    ensures a * (x - y) == a * x - a * y
  {
  }

  lemma {:induction false} Assoc(a: int, x: int, y: int)
    ensures a * (x * y) == (a * x) * y
  {
  }

  lemma {:induction false} DivNonNegative(n: int, d: int)
    requires 0 <= n && 0 < d
    ensures 0 <= n / d
  {
  }

  /** Quotient and remainder are determined by the division identity. */
  lemma {:induction false} DivUnique(n: int, d: int, q: int, r: int)
    requires 0 < d && n == q * d + r && 0 <= r < d
    ensures n / d == q && n % d == r
  {
    var q' := n / d;
    assert n == d * q' + n % d;
    MulCancel(d, q, q');
    MulCancel(d, q', q);
  }

  lemma {:induction false} MultipleOf(p: nat, n: nat)
    requires 0 < p
    ensures 0 <= p * n && (p * n) % p == 0
  {
    MulLe(p, 0, n);
    DivUnique(p * n, p, n, 0);
  }

  /** A number below a modulus is its own remainder. */
  lemma {:induction false} SmallModulo(v: nat, p: nat)
    requires v < p
    ensures v % p == v
  {
  }

  lemma {:induction false} SmallerModulus(z: nat, p: nat, q: nat)
    requires 0 < p && 0 < q
    ensures 0 < p * q && (z % (p * q)) % p == z % p
  {
    MulLe(p, 1, q);
    var m := p * q;
    var r := z % m;
    assert z == m * (z / m) + r;
    Assoc(p, q, z / m);
    var t := r / p;
    assert r == p * t + r % p;
    Dist(p, q * (z / m), t);
    DivUnique(z, p, q * (z / m) + t, r % p);
  }

  lemma {:induction false} QuotientBelow(x: nat, q: nat, r: nat)
    requires 0 < q && x < q * r
    ensures x / q < r && x == x % q + q * (x / q)
  {
    if x / q >= r {
      MulLe(q, r, x / q);
    }
  }

  lemma {:induction false} SplitBy(c: nat, p: nat)
    requires 0 < p
    ensures 0 <= p * (c / p) <= c && c == c % p + p * (c / p)
  {
    MulLe(p, 0, c / p);
  }

  lemma {:induction false} BlockBelow(lo: nat, hi: nat, p: nat, q: nat)
    requires lo < p && hi < q
    ensures 0 <= p * hi && lo + p * hi < p * q
  {
    MulLe(p, hi + 1, q);
    MulLe(p, 0, hi);
  }

  function Abs(x: int): nat
  {
    if x < 0 then -x else x
  }
}
