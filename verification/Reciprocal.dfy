/** Division by multiplication with a precomputed reciprocal: the 3/2 inverse
    and the two quotient steps built on it. */
module Reciprocal {
  import opened Arith
  import opened Limbs
  import opened PowerOfTwo
  import opened WordOps

  /* ---- The candidate remainder ----
     A step estimates a quotient q1 and then looks at the candidate remainder
     rt = n - (q1 + 1) * d, known only modulo s.  Everything below is about
     where rt can lie; b is the base, s the modulus, and x stands for the
     part of b * rt that does not involve q0. */

  lemma {:induction false} LowerD(b: int, d: int, x: int, q0: int, rt: int)
    requires 0 < b && 0 <= x && 0 <= q0 && 0 <= d && b * rt == x + q0 * d - b * d
    ensures -d <= rt
  {
    MulLe(q0, 0, d);
    MulCancel(b, -d, rt);
  }

  lemma {:induction false} LowerQ(b: int, s: int, d: int, x: int, q0: int, qb: int, rt: int)
    requires 0 < b && 0 <= x && 0 <= q0 <= b && d <= s && b * rt == x + q0 * d - b * d
    requires b * qb == q0 * s
    ensures qb - s <= rt
  {
    MulLe(b - q0, d, s);
    DistSub(b, qb, s);
    MulCancel(b, qb - s, rt);
  }

  lemma {:induction false} ScaleUp(b: int, s: int, d: int, x: int, q0: int, rt: int)
    requires s == b * b && b * rt == x + q0 * d - b * d
    ensures s * rt == b * x + (q0 * b) * d - s * d
  {
    Assoc(b, b, rt);
    Assoc(b, b, d);
    Assoc(b, q0, d);
  }

  lemma {:induction false} Upper(s: int, d: int, rt: int, bx: int, qb: int)
    requires 0 < s && 0 <= d <= s && s * rt == bx + qb * d - s * d
    requires bx <= d * d + s * s - s * d - s
    ensures rt < s - d || rt < qb
  {
    if s - d <= rt && qb <= rt {
      MulLe(d, qb, rt);
      DistSub(s - d, s, d);
      MulLe(s - d, s - d, rt);
    }
  }

  lemma {:induction false} TopTerm(b: int, d: int, n2: int, k: int, t: int)
    requires 0 <= b && 0 <= n2 && 0 <= k <= d && n2 * b <= t
    ensures b * (n2 * k) <= d * t
  {
    MulLe(n2, k, d);
    MulLe(b, n2 * k, n2 * d);
    Assoc(b, n2, d);
    MulLe(d, n2 * b, t);
  }

  lemma {:induction false} MidTerm(b: int, s: int, d: int, n1: int, c: int)
    requires s == b * b && 0 <= b && n1 <= c - 1 && d <= s
    ensures b * (n1 * (s - d)) <= c * (b * (s - d)) - b * (s - d)
  {
    MulLe(s - d, n1, c - 1);
    MulLe(b, n1 * (s - d), (c - 1) * (s - d));
    Assoc(b, c - 1, s - d);
    Assoc(c, b, s - d);
  }

  lemma {:induction false} LowTerm(b: int, s: int, n0: int)
    requires s == b * b && 0 <= b && n0 <= b - 1
    ensures b * (n0 * b) <= b * s - s
  {
    MulLe(b, n0, b - 1);
    MulLe(b, n0 * b, b * (b - 1));
    Assoc(b, b, b - 1);
  }

  lemma {:induction false} MidExpand(b: int, s: int, d: int)
    requires s == b * b
    ensures b * (b * (s - d)) == s * s - s * d && b * (s - d) == b * s - b * d
  {
    Assoc(b, b, s - d);
  }

  lemma {:induction false} BelowSum(b: int, s: int, d: int, p: int, m: int, z: int)
    requires b * p <= d * (d - b)
    requires b * m <= s * s - s * d - (b * s - b * d)
    requires b * z <= b * s - s
    ensures b * (p + m + z) <= d * d + s * s - s * d - s
  {
  }

  /** The bound on b * x when n2 is below the top half of d. */
  lemma {:induction false} BelowTop(b: int, s: int, d: int, n2: int, n1: int, n0: int, k: int)
    requires s == b * b && 0 < b
    requires 0 <= n2 && n2 * b + b <= d <= s && 0 <= n1 < b && 0 <= n0 < b && 0 <= k <= d
    ensures b * (n2 * k + n1 * (s - d) + n0 * b) <= d * d + s * s - s * d - s
  {
    TopTerm(b, d, n2, k, d - b);
    MidTerm(b, s, d, n1, b);
    MidExpand(b, s, d);
    LowTerm(b, s, n0);
    BelowSum(b, s, d, n2 * k, n1 * (s - d), n0 * b);
  }

  lemma {:induction false} CrossBound(b: int, d0: int, d: int, y: int)
    requires d0 <= b && d <= y
    ensures b * d - d0 * d <= b * y - d0 * y
  {
    MulLe(b - d0, d, y);
    Dist(d, b, -d0);
    Dist(y, b, -d0);
  }

  lemma {:induction false} Sum3(b: int, p: int, m: int, z: int)
    ensures b * (p + m + z) == b * p + b * m + b * z
  {
  }

  /** The same bound when n2 equals the top half of d, for all but the largest divisors. */
  lemma {:induction false} AtTop(b: int, s: int, d: int, n2: int, d0: int, n1: int, n0: int, k: int)
    requires s == b * b && 0 < b
    requires 0 <= n2 && n2 * b + d0 == d <= s && 0 <= n1 < d0 < b && 0 <= n0 < b && 0 <= k <= d
    requires d <= b * (s - d)
    ensures b * (n2 * k + n1 * (s - d) + n0 * b) <= d * d + s * s - s * d - s
  {
    TopTerm(b, d, n2, k, d - d0);
    MidTerm(b, s, d, n1, d0);
    MidExpand(b, s, d);
    LowTerm(b, s, n0);
    Sum3(b, n2 * k, n1 * (s - d), n0 * b);
    CrossBound(b, d0, d, b * (s - d));
    DistSub(d, d, d0);
  }

  /** For the remaining divisors the inverse is the base itself. */
  lemma {:induction false} LargeDivisor(b: int, s: int, d: int, e: int)
    requires s == b * b && 0 < b && 0 < d && b * (s - d) < d && b <= e && e * d < b * s
    ensures e == b
  {
    assert b * (s - d) == b * s - b * d by { DistSub(b, s, d); }
    if b + 1 <= e {
      MulLe(d, b + 1, e);
    }
  }

  lemma {:induction false} CandidateIdentity(b: int, s: int, d: int, n2: int, n1: int, n0: int, e: int, q1: int, q0: int)
    requires s == b * b && q1 * b + q0 == e * n2 + n1
    ensures b * (n2 * s + n1 * b + n0 - (q1 + 1) * d)
         == (n2 * (b * s - e * d) + n1 * (s - d) + n0 * b) + q0 * d - b * d
  {
    var t := e * n2 + n1;
    assert b * (q1 * d) == (t - q0) * d by { Assoc(b, q1, d); }
    assert (t - q0) * d == n2 * (e * d) + n1 * d - q0 * d by { Assoc(n2, e, d); Dist(d, e * n2, n1); DistSub(d, t, q0); }
    CandidateExpand(b, s, d, n2, n1, n0, e * d, q1 * d);
  }

  lemma {:induction false} CandidateExpand(b: int, s: int, d: int, n2: int, n1: int, n0: int, ed: int, qd: int)
    requires s == b * b
    ensures b * (n2 * s + n1 * b + n0 - (qd + d)) == n2 * (b * s) + n1 * s + n0 * b - b * qd - b * d
    ensures n2 * (b * s - ed) + n1 * (s - d) == n2 * (b * s) - n2 * ed + n1 * s - n1 * d
  {
    Assoc(b, n2, s);
    Assoc(n2, b, s);
    Assoc(b, n1, b);
    Assoc(n1, b, b);
    Dist(b, n2 * s + n1 * b + n0, -(qd + d));
    DistSub(n2, b * s, ed);
  }

  lemma {:induction false} LargeDivisorTop(b: int, s: int, d: int, n2: int)
    requires s == b * b && 0 < b && b * (s - d) < d < s && d < n2 * b + b
    ensures b <= n2 + 1
  {
    if n2 + 2 <= b {
      MulLe(b, n2 + 2, b);
      MulLe(b, b, s - d);
    }
  }

  lemma {:induction false} LargeDivisorCandidate(b: int, d: int, n2: int, w: int, n0: int)
    requires 0 < b <= n2 + 1 && 0 < d && w < d && n0 < b
    ensures b * w + n0 - (n2 + 1) * d < 0
  {
    MulLe(d, b, n2 + 1);
    MulLe(b, w, d - 1);
  }

  /** e is the 3/2 inverse of d in base b, plus b. */
  ghost predicate IsInverse(b: int, d: int, e: int)
  {
    b <= e && e * d < b * (b * b) <= e * d + d
  }

  /** Where the candidate remainder of a 3/2 step can lie. */
  lemma {:induction false} ThreeByTwo(b: int, s: int, d: int, n2: int, n1: int, n0: int, e: int, q1: int, q0: int)
    requires s == b * b && 2 <= b && d < s && IsInverse(b, d, e)
    requires 0 <= n2 && 0 <= n1 < b && 0 <= n0 < b && n2 * b + n1 < d
    requires q1 * b + q0 == e * n2 + n1 && 0 <= q0 < b
    ensures var rt := n2 * s + n1 * b + n0 - (q1 + 1) * d;
      -d <= rt && q0 * b - s <= rt && (rt < s - d || rt < q0 * b)
  {
    var rt := n2 * s + n1 * b + n0 - (q1 + 1) * d;
    var k := b * s - e * d;
    var x := n2 * k + n1 * (s - d) + n0 * b;
    assert b * rt == x + q0 * d - b * d by { CandidateIdentity(b, s, d, n2, n1, n0, e, q1, q0); }
    assert 0 <= x by { MulLe(n2, 0, k); MulLe(n1, 0, s - d); MulLe(n0, 0, b); }
    assert 0 <= n2 * b by { MulLe(n2, 0, b); }
    LowerD(b, d, x, q0, rt);
    assert b * (q0 * b) == q0 * s by { Assoc(b, q0, b); Assoc(q0, b, b); }
    LowerQ(b, s, d, x, q0, q0 * b, rt);
    assert rt < s - d || rt < q0 * b by { ThreeByTwoUpper(b, s, d, n2, n1, n0, e, q1, q0, rt); }
  }

  lemma {:induction false} ThreeByTwoUpper(b: int, s: int, d: int, n2: int, n1: int, n0: int, e: int, q1: int, q0: int, rt: int)
    requires s == b * b && 2 <= b && d < s && IsInverse(b, d, e)
    requires 0 <= n2 && 0 <= n1 < b && 0 <= n0 < b && 0 <= n2 * b && n2 * b + n1 < d
    requires q1 * b + q0 == e * n2 + n1 && 0 <= q0 < b
    requires rt == n2 * s + n1 * b + n0 - (q1 + 1) * d
    requires b * rt == (n2 * (b * s - e * d) + n1 * (s - d) + n0 * b) + q0 * d - b * d
    ensures rt < s - d || rt < q0 * b
  {
    var k := b * s - e * d;
    var x := n2 * k + n1 * (s - d) + n0 * b;
    if n2 * b + b <= d {
      BelowTop(b, s, d, n2, n1, n0, k);
    } else if d <= b * (s - d) {
      AtTop(b, s, d, n2, d - n2 * b, n1, n0, k);
    } else {
      LargeDivisor(b, s, d, e);
      DivUnique(b * n2 + n1, b, q1, q0);
      DivUnique(b * n2 + n1, b, n2, n1);
      LargeDivisorTop(b, s, d, n2);
      LargeDivisorCandidate(b, d, n2, n2 * b + n1, n0);
      assert b * (n2 * b + n1) == n2 * s + n1 * b by { Dist(b, n2 * b, n1); Assoc(b, n2, b); Assoc(n2, b, b); }
      return;
    }
    ScaleUp(b, s, d, x, q0, rt);
    Upper(s, d, rt, b * x, q0 * b);
  }

  lemma {:induction false} EstimateBelow(b: int, s: int, d: int, nb: int, n1: int, e: int, en: int)
    requires 0 < b <= e && 0 <= n1 < b && nb + b <= d && e * d < b * s && b * en == e * nb
    ensures en + n1 < s
  {
    MulLe(e, nb + b, d);
    Dist(b, en, e);
    MulCancel(b, en + e + 1, s);
  }

  lemma {:induction false} EstimateTop(b: int, s: int, d: int, nb: int, n1: int, e: int, en: int)
    requires 0 < b <= e && 0 <= n1 < b && nb + n1 < d && e * d < b * s && b * en == e * nb
    ensures en + n1 < s
  {
    MulLe(e, nb + n1 + 1, d);
    Dist(e, nb, n1 + 1);
    MulLe(n1 + 1, b, e);
    Dist(b, en, n1 + 1);
    MulCancel(b, en + n1 + 2, s);
  }

  /** The product that estimates the quotient fits two digits. */
  lemma {:induction false} EstimateFits(b: int, s: int, d: int, n2: int, n1: int, e: int)
    requires s == b * b && 2 <= b && d < s && IsInverse(b, d, e)
    requires 0 <= n2 && 0 <= n1 < b && n2 * b + n1 < d
    ensures 0 <= e * n2 + n1 < s
  {
    MulLe(e, 0, n2);
    Assoc(b, e, n2);
    Assoc(e, b, n2);
    if n2 * b + b <= d {
      EstimateBelow(b, s, d, n2 * b, n1, e, e * n2);
    } else {
      EstimateTop(b, s, d, n2 * b, n1, e, e * n2);
    }
  }

  /* ---- The word-level steps ---- */

  /** dinv is the 3/2 inverse of the normalised two-word divisor <d1, d0>. */
  ghost predicate IsInverse3by2(d1: Limb, d0: Limb, dinv: int)
  {
    B <= 2 * d1 && IsInverse(B, d1 * B + d0, B + dinv)
  }

  /** Three wrapping subtractions leave the candidate remainder modulo B * B. */
  lemma {:induction false} WrappedCandidate(n2: int, n1: int, n0: int, d: int, dq1: int, dq0: int, h: int, a: int, p: int, p': int, r: int, rt: int)
    requires var m := dq1 - h * B; a == n1 - m || a == n1 - m + B
    requires p == a * B + n0
    requires p' == p - d || p' == p - d + B * B
    requires r == p' - dq0 || r == p' - dq0 + B * B
    requires rt == n2 * (B * B) + n1 * B + n0 - (dq1 * B + dq0 + d)
    requires -(B * B) <= rt < B * B && 0 <= r < B * B
    ensures r == if rt < 0 then rt + B * B else rt
  {
  }

  /** The candidate remainder modulo B * B, from wrapping words only. */
  method CandidateWords(n1: Limb, n0: Limb, d1: Limb, d0: Limb, q: Limb, ghost n2: Limb, ghost rt: int) returns (r1: Limb, r0: Limb)
    requires rt == n2 * (B * B) + n1 * B + n0 - (q + 1) * (d1 * B + d0)
    requires -(B * B) <= rt < B * B
    ensures r1 * B + r0 == if rt < 0 then rt + B * B else rt
  {
    r1 := SubW(n1, MulW(d1, q));
    ghost var a := r1;
    r1, r0 := SubPair(r1, n0, d1, d0);
    ghost var p := r1 * B + r0;
    var t1, t0 := Umul(d0, q);
    r1, r0 := SubPair(r1, r0, t1, t0);
    assert (q + 1) * (d1 * B + d0) == (d1 * q) * B + d0 * q + (d1 * B + d0) by {
      Dist(d1 * B + d0, q, 1); Dist(q, d1 * B, d0); Assoc(q, d1, B);
    }
    WrappedCandidate(n2, n1, n0, d1 * B + d0, d1 * q, d0 * q, (d1 * q) / B, a, a * B + n0, p, r1 * B + r0, rt);
  }

  /** A quotient whose remainder is not negative fits a word. */
  lemma {:induction false} QuotientFits(n2: int, n1: int, n0: int, d: int, q: int)
    requires n2 * B + n1 < d && n0 < B && 0 < d
    requires q * d <= n2 * (B * B) + n1 * B + n0
    ensures q < B
  {
    if B <= q {
      MulLe(d, B, q);
    }
  }

  /** The correction that ends a 3/2 step: which of three quotients it picks. */
  method CorrectStep(q1: Limb, q0: Limb, c1: Limb, c0: Limb, d1: Limb, d0: Limb, ghost rt: int)
    returns (q: Limb, r1: Limb, r0: Limb)
    requires B <= 2 * d1
    requires var d := d1 * B + d0;
      -d <= rt && q0 * B - B * B <= rt && (rt < B * B - d || rt < q0 * B)
    requires c1 * B + c0 == if rt < 0 then rt + B * B else rt
    requires 0 <= rt ==> q1 + 1 < B
    requires d1 * B + d0 <= rt ==> q1 + 2 < B
    ensures var d := d1 * B + d0;
      && r1 * B + r0 < d
      && q1 <= q <= q1 + 2
      && r1 * B + r0 == if q == q1 then rt + d else if q == q1 + 1 then rt else rt - d
  {
    q, r1, r0 := AddW(q1, 1), c1, c0;
    if q0 <= r1 {
      q := SubW(q, 1);
      r1, r0 := AddPair(r1, r0, d1, d0);
    }
    if d1 <= r1 {
      if d1 < r1 || d0 <= r0 {
        q := AddW(q, 1);
        r1, r0 := SubPair(r1, r0, d1, d0);
      }
    }
  }

  /** A candidate remainder that is not negative leaves room for one more, or two. */
  lemma {:induction false} CandidateFits(n2: Limb, n1: Limb, n0: Limb, d: int, q1: Limb, rt: int)
    requires n2 * B + n1 < d
    requires rt == n2 * (B * B) + n1 * B + n0 - (q1 + 1) * d
    ensures 0 <= rt ==> q1 + 1 < B
    ensures d <= rt ==> q1 + 2 < B
  {
    if 0 <= rt {
      QuotientFits(n2, n1, n0, d, q1 + 1);
    }
    if d <= rt {
      Dist(d, q1 + 1, 1);
      QuotientFits(n2, n1, n0, d, q1 + 2);
    }
  }

  /** The estimate of a quotient word. */
  method EstimateQuotient(n2: Limb, n1: Limb, dinv: Limb, ghost d: int) returns (q1: Limb, q0: Limb)
    requires d < B * B && IsInverse(B, d, B + dinv) && n2 * B + n1 < d
    ensures q1 * B + q0 == n2 * dinv + n2 * B + n1
  {
    EstimateFits(B, B * B, d, n2, n1, B + dinv);
    Dist(n2, B, dinv);
    q1, q0 := Umul(n2, dinv);
    q1, q0 := AddPair(q1, q0, n2, n1);
  }

  /** One step of 3/2 division: three words by a normalised two-word divisor. */
  method UdivQr3by2(n2: Limb, n1: Limb, n0: Limb, d1: Limb, d0: Limb, dinv: Limb) returns (q: Limb, r1: Limb, r0: Limb)
    requires IsInverse3by2(d1, d0, dinv)
    requires n2 * B + n1 < d1 * B + d0
    ensures n2 * (B * B) + n1 * B + n0 == q * (d1 * B + d0) + (r1 * B + r0)
    ensures r1 * B + r0 < d1 * B + d0
  {
    var q1, q0 := EstimateQuotient(n2, n1, dinv, d1 * B + d0);
    ghost var rt := n2 * (B * B) + n1 * B + n0 - (q1 + 1) * (d1 * B + d0);
    assert (B + dinv) * n2 == n2 * B + n2 * dinv by { Dist(n2, B, dinv); }
    ThreeByTwo(B, B * B, d1 * B + d0, n2, n1, n0, B + dinv, q1, q0);
    CandidateFits(n2, n1, n0, d1 * B + d0, q1, rt);
    var c1, c0 := CandidateWords(n1, n0, d1, d0, q1, n2, rt);
    q, r1, r0 := CorrectStep(q1, q0, c1, c0, d1, d0, rt);
    StepQuotient(d1 * B + d0, q1, q, rt);
  }

  lemma {:induction false} StepQuotient(d: int, q1: int, q: int, rt: int)
    requires q1 <= q <= q1 + 2
    ensures rt + (q1 + 1) * d == q * d + (if q == q1 then rt + d else if q == q1 + 1 then rt else rt - d)
  {
    Dist(d, q1, 1);
    Dist(d, q1, 2);
  }

  /* ---- The 2/1 step ---- */

  /** di is the 2/1 inverse of the normalised word d. */
  ghost predicate IsInverse2by1(d: Limb, di: int)
  {
    B <= 2 * d && (B + di) * d < B * B <= (B + di) * d + d && 0 <= di
  }

  lemma {:induction false} TwoByOneIdentity(d: int, e: int, nh: int, nl: int, q1: int, q0: int)
    requires q1 * B + q0 == e * nh + nl
    ensures B * (nh * B + nl - (q1 + 1) * d) == nh * (B * B - e * d) + nl * (B - d) + q0 * d - B * d
  {
    assert B * (q1 * d) == nh * (e * d) + nl * d - q0 * d by {
      Assoc(B, q1, d); Assoc(nh, e, d); Dist(d, e * nh, nl); DistSub(d, q1 * B + q0, q0);
    }
    DistSub(nh, B * B, e * d);
    DistSub(nl, B, d);
    Dist(d, q1, 1);
  }

  lemma {:induction false} TwoByOneTerms(d: int, nh: int, nl: int, k: int)
    requires 0 <= nh < d <= B && 0 <= nl < B && 0 <= k <= d
    ensures 0 <= nh * k + nl * (B - d) <= d * d + B * B - B * d - B
  {
    MulLe(nh, 0, k);
    MulLe(nh, k, d);
    MulLe(d, nh, d - 1);
    MulLe(nl, 0, B - d);
    MulLe(B - d, nl, B - 1);
  }

  lemma {:induction false} TwoByOneLowerQ(d: int, x: int, q0: int, rt: int)
    requires 0 <= x && 0 <= q0 < B && d < B && B * rt == x + q0 * d - B * d
    ensures q0 - B < rt
  {
    MulLe(B - q0, d + 1, B);
    DistSub(d + 1, B, q0);
  }

  /** Where the candidate remainder of a 2/1 step can lie. */
  lemma {:induction false} TwoByOne(d: Limb, di: int, nh: int, nl: int, q1: int, q0: int, rt: int)
    requires IsInverse2by1(d, di) && 0 <= nh < d && 0 <= nl < B && 0 <= q0 < B
    requires q1 * B + q0 == (B + di) * nh + nl
    requires rt == nh * B + nl - (q1 + 1) * d
    ensures 0 <= rt + d && q0 - B < rt && (rt < B - d || rt < q0)
  {
    var k := B * B - (B + di) * d;
    var x := nh * k + nl * (B - d);
    TwoByOneIdentity(d, B + di, nh, nl, q1, q0);
    TwoByOneTerms(d, nh, nl, k);
    LowerD(B, d, x, q0, rt);
    TwoByOneLowerQ(d, x, q0, rt);
    Upper(B, d, rt, x, q0);
  }

  lemma {:induction false} TwoByOneFits(d: Limb, di: int, nh: int, nl: int)
    requires IsInverse2by1(d, di) && 0 <= nh < d && 0 <= nl < B
    ensures 0 <= (B + di) * nh + nl < B * B
  {
    ProductFits(B + di, d, nh, nl, B * B);
  }

  lemma {:induction false} ProductFits(k: int, d: int, nh: int, nl: int, bound: int)
    requires B <= k && k * d < bound && 0 <= nh < d && 0 <= nl < B
    ensures 0 <= k * nh + nl < bound
  {
    MulLe(k, 0, nh);
    MulLe(k, nh + 1, d);
    Dist(k, nh, 1);
  }

  lemma {:induction false} WordQuotientFits(nh: int, nl: int, d: int, q: int)
    requires nh < d && nl < B && 0 < d && q * d <= nh * B + nl
    ensures q < B
  {
    if B <= q {
      MulLe(d, B, q);
    }
  }

  lemma {:induction false} TwoByOneBounds(d: Limb, di: int, nh: int, nl: int, q1: int, q0: int, rt: int)
    requires IsInverse2by1(d, di) && 0 <= nh < d && 0 <= nl < B && 0 <= q0 < B
    requires q1 * B + q0 == nh * di + nh * B + nl
    requires rt == nh * B + nl - (q1 + 1) * d
    ensures 0 <= rt + d && q0 - B < rt && (rt < B - d || rt < q0)
    ensures 0 <= rt ==> q1 + 1 < B
    ensures d <= rt ==> q1 + 2 < B
  {
    assert (B + di) * nh == nh * B + nh * di by { Dist(nh, B, di); }
    TwoByOne(d, di, nh, nl, q1, q0, rt);
    if 0 <= rt {
      WordQuotientFits(nh, nl, d, q1 + 1);
    }
    if d <= rt {
      Dist(d, q1 + 1, 1);
      WordQuotientFits(nh, nl, d, q1 + 2);
    }
  }

  /** The correction that ends a 2/1 step. */
  method CorrectWord(qh: Limb, ql: Limb, c: Limb, d: Limb, ghost q1: Limb, ghost rt: int) returns (q: Limb, r: Limb)
    requires B <= 2 * d && qh == (if q1 + 1 == B then 0 else q1 + 1)
    requires 0 <= rt + d && ql - B < rt && (rt < B - d || rt < ql)
    requires c == if rt < 0 then rt + B else rt
    requires 0 <= rt ==> q1 + 1 < B
    requires d <= rt ==> q1 + 2 < B
    ensures r < d && q1 <= q <= q1 + 2
    ensures r == if q == q1 then rt + d else if q == q1 + 1 then rt else rt - d
  {
    q, r := qh, c;
    if ql < r {
      q := SubW(q, 1);
      r := AddW(r, d);
    }
    if d <= r {
      r := SubW(r, d);
      q := AddW(q, 1);
    }
  }

  /** A difference of words that is known up to a multiple of B. */
  lemma {:induction false} ModuloDifference(x: Limb, m: Limb, k: int, rt: int)
    requires rt == x - m + B * k && -B < rt < B
    ensures SubW(x, m) == if rt < 0 then rt + B else rt
  {
  }

  /** The candidate remainder modulo B. */
  lemma {:induction false} CandidateWord(nh: int, nl: Limb, d: Limb, q1: Limb, qh: Limb, rt: int)
    requires qh == if q1 + 1 == B then 0 else q1 + 1
    requires rt == nh * B + nl - (q1 + 1) * d && -B < rt < B
    ensures SubW(nl, MulW(qh, d)) == if rt < 0 then rt + B else rt
  {
    MulWSplit(qh, d);
    hide MulW;
    hide SubW;
    var h := (qh * d) / B;
    var wrapped := if q1 + 1 == B then d else 0;
    assert (q1 + 1) * d == qh * d + B * wrapped;
    ModuloDifference(nl, MulW(qh, d), nh - h - wrapped, rt);
  }

  /** The words of a number to which one was added in the upper one. */
  lemma {:induction false} UpperPlusOne(p: int, qh: Limb, ql: Limb)
    requires 0 <= p < B * B && qh * B + ql == if p + B < B * B then p + B else p + B - B * B
    ensures 0 <= p / B < B && ql == p - (p / B) * B && qh == if p / B + 1 == B then 0 else p / B + 1
  {
  }

  /** One step of 2/1 division: two words by a normalised word. */
  method UdivQrnndPreinv(nh: Limb, nl: Limb, d: Limb, di: Limb) returns (q: Limb, r: Limb)
    requires IsInverse2by1(d, di) && nh < d
    ensures nh * B + nl == q * d + r && r < d
  {
    hide MulW;
    hide SubW;
    TwoByOneFits(d, di, nh, nl);
    assert (B + di) * nh == nh * B + nh * di by { Dist(nh, B, di); }
    assert B <= 2 * d by { Normalised(d, di); }
    hide IsInverse2by1;
    var qh, ql := Umul(nh, di);
    ghost var p := nh * di + nh * B + nl;
    ghost var q1 := p / B;
    qh, ql := AddPair(qh, ql, nh + 1, nl);
    UpperPlusOne(p, qh, ql);
    ghost var rt := nh * B + nl - (q1 + 1) * d;
    TwoByOneBounds(d, di, nh, nl, q1, ql, rt);
    CandidateWord(nh, nl, d, q1, qh, rt);
    r := SubW(nl, MulW(qh, d));
    q, r := CorrectWord(qh, ql, r, d, q1, rt);
    StepQuotient(d, q1, q, rt);
  }

  lemma {:induction false} Normalised(d: Limb, di: int)
    requires IsInverse2by1(d, di)
    ensures B <= 2 * d
  {
  }

  /* ---- The inverse itself ---- */

  /** Half a limb. */
  type Half = x: int | 0 <= x < H

  lemma {:induction false} HalfInverseStart(u1: Limb, uh: int, ul: int, qh: int, rem: int, p: int)
    requires B <= 2 * u1 && u1 == uh * H + ul && 0 <= uh && 0 <= ul < H
    requires NotW(u1) == qh * uh + rem && 0 <= rem < uh && p == qh * ul
    ensures 0 <= qh < H && 0 <= p < B && rem < H
    ensures (H * rem + H - 1) - p == H * NotW(u1) + (H - 1) - qh * u1
    ensures H * rem + H - 1 < u1
    ensures 0 <= qh * uh < B
  {
    MulLe(uh, 0, qh) by { if qh < 0 { MulLe(uh, qh, -1); } }
    if qh < 0 { MulLe(uh, qh, -1); }
    if H <= qh { MulLe(uh, H, qh); }
    MulLe(ul, 0, qh);
    MulLe(ul, qh, H - 1);
    MulLe(H - 1, ul, H - 1);
    Dist(qh, uh * H, ul);
    Assoc(qh, uh, H);
  }

  /** The half-word inverse of u1, with its remainder: at most two decrements are needed. */
  method HalfInverse(u1: Limb) returns (qh: Half, r: Limb)
    requires B <= 2 * u1
    ensures qh * u1 + r == H * (B - 1 - u1) + (H - 1) && r < u1
  {
    var ul, uh := u1 % H, u1 / H;
    var q := NotW(u1) / uh;
    HalfInverseStart(u1, uh, ul, q, NotW(u1) % uh, q * ul);
    var p, c := HalfProducts(q, uh, ul);
    r := HalfRemainder(NotW(u1), c, NotW(u1) % uh);
    qh, r := HalfInverseAdjust(u1, q, r, p, H * (B - 1 - u1) + (H - 1));
  }

  method HalfRemainder(x: Limb, c: Limb, ghost rem: int) returns (r: Limb)
    requires c <= x && x - c == rem < H
    ensures r == H * rem + (H - 1)
  {
    r := AddW(SubW(x, c) % H * H, H - 1);
  }

  /** Two products known not to wrap. */
  method HalfProducts(q: Half, uh: Limb, ul: Limb) returns (p: Limb, c: Limb)
    requires q * uh < B && q * ul < B
    ensures p == q * ul && c == q * uh
  {
    MulLe(q, 0, uh);
    MulLe(q, 0, ul);
    p, c := MulW(q, ul), MulW(q, uh);
  }

  lemma {:induction false} NotNegative(q: int, u: int, r: int, t: int)
    requires 0 <= t && 0 <= r < u && q * u + r == t
    ensures 0 <= q
  {
    if q < 0 { MulLe(u, q, -1); }
  }

  method HalfInverseAdjust(u1: Limb, q0: Half, r0: Limb, p: Limb, ghost t: int) returns (qh: Half, r: Limb)
    requires B <= 2 * u1 && 0 <= t
    requires r0 < u1 && q0 * u1 + (r0 - p) == t
    ensures qh * u1 + r == t && r < u1
  {
    qh, r := q0, r0;
    Dist(u1, q0, -1);
    Dist(u1, q0, -2);
    if r < p {
      NotNegative(q0 - (if r0 + u1 < p then 2 else 1), u1, r0 - p + (if r0 + u1 < p then 2 * u1 else u1), t);
      qh := qh - 1;
      r := AddW(r, u1);
      if u1 <= r {
        if r < p {
          qh := qh - 1;
          r := AddW(r, u1);
        }
      }
    }
    r := SubW(r, p);
  }

  /** The low half of the quotient is a 3/2 step in base H. */
  lemma {:induction false} LowHalfBounds(u1: Limb, qh: Half, r: int, p: int, rt: int)
    requires B <= 2 * u1 && 0 <= r < u1
    requires qh * u1 + r == H * (B - 1 - u1) + (H - 1)
    requires p == (r / H) * qh + r
    requires rt == r * H + (H - 1) - (p / H + 1) * u1
    ensures 0 <= (r / H) * qh && 0 <= p < B
    ensures 0 <= rt + u1 && (p % H) * H - B <= rt && (rt < B - u1 || rt < (p % H) * H)
  {
    var rh, e := r / H, H + qh;
    assert e * u1 == H * B - 1 - r by { Dist(u1, H, qh); }
    assert IsInverse(H, u1, e);
    assert p == e * rh + r % H by { Dist(rh, H, qh); }
    MulLe(rh, 0, qh);
    EstimateFits(H, B, u1, rh, r % H, e);
    ThreeByTwo(H, B, u1, rh, r % H, H - 1, e, p / H, p % H);
  }

  lemma {:induction false} WrappedLowHalf(rh: int, rl: int, qu: int, h: int, m: int, rt: int)
    requires 0 <= rl < H && qu == h * B + m && 0 <= m < B
    requires rt == (rh * H + rl) * H + (H - 1) - qu && -B <= rt < B
    ensures SubW(rl * H + (H - 1), m) == if rt < 0 then rt + B else rt
  {
  }

  /** The estimate of the low half of the quotient and its candidate remainder. */
  method LowHalfEstimate(u1: Limb, qh: Half, r0: Limb) returns (p: Limb, c: Limb)
    requires B <= 2 * u1 && r0 < u1
    requires qh * u1 + r0 == H * (B - 1 - u1) + (H - 1)
    ensures p == (r0 / H) * qh + r0
    ensures var rt := r0 * H + (H - 1) - (p / H + 1) * u1;
      && c == (if rt < 0 then rt + B else rt)
      && 0 <= rt + u1 && (p % H) * H - B <= rt && (rt < B - u1 || rt < (p % H) * H)
  {
    ghost var p0 := (r0 / H) * qh + r0;
    ghost var rt := r0 * H + (H - 1) - (p0 / H + 1) * u1;
    LowHalfBounds(u1, qh, r0, p0, rt);
    MulWExact(r0 / H, qh);
    p := AddW(MulW(r0 / H, qh), r0);
    var ql := p / H + 1;
    MulWSplit(ql, u1);
    WrappedLowHalf(r0 / H, r0 % H, ql * u1, (ql * u1) / B, MulW(ql, u1), rt);
    c := SubW(AddW(r0 % H * H, H - 1), MulW(ql, u1));
  }

  /** The low half of the 2/1 inverse, and the whole inverse with its remainder. */
  method LowHalf(u1: Limb, qh: Half, r0: Limb) returns (m: Limb, r: Limb)
    requires B <= 2 * u1 && r0 < u1
    requires qh * u1 + r0 == H * (B - 1 - u1) + (H - 1)
    ensures (B + m) * u1 + r == B * B - 1 && r < u1
  {
    var p;
    p, r := LowHalfEstimate(u1, qh, r0);
    ghost var rt := r0 * H + (H - 1) - (p / H + 1) * u1;
    m, r := LowHalfCorrect(u1, qh, p / H + 1, r, p % H * H, r0, rt);
  }

  lemma {:induction false} WholeInverse(u1: Limb, qh: int, ql: int, q: int, r0: int, rt: int, r: int)
    requires B <= 2 * u1 && 0 <= r < u1
    requires qh * u1 + r0 == H * (B - 1 - u1) + (H - 1)
    requires rt == r0 * H + (H - 1) - ql * u1
    requires ql - 1 <= q <= ql + 1 && r == (if q == ql - 1 then rt + u1 else if q == ql then rt else rt - u1)
    ensures (B + (qh * H + q)) * u1 + r == B * B - 1
    ensures qh * H + q < B
  {
    var m := qh * H + q;
    assert q * u1 + r == r0 * H + (H - 1) by { Dist(u1, ql, -1); Dist(u1, ql, 1); }
    assert m * u1 == (qh * u1) * H + q * u1 by { Dist(u1, qh * H, q); Assoc(u1, qh, H); }
    Dist(u1, B, m);
    if B <= m { MulLe(u1, 2 * B, B + m); }
  }

  method LowHalfCorrect(u1: Limb, qh: Half, ql0: Limb, c: Limb, qb: Limb, ghost r0: int, ghost rt: int) returns (m: Limb, r: Limb)
    requires B <= 2 * u1 && 1 <= ql0 <= H && c == if rt < 0 then rt + B else rt
    requires 0 <= rt + u1 && qb - B <= rt && (rt < B - u1 || rt < qb)
    requires qh * u1 + r0 == H * (B - 1 - u1) + (H - 1)
    requires rt == r0 * H + (H - 1) - ql0 * u1
    ensures (B + m) * u1 + r == B * B - 1 && r < u1
  {
    var ql := ql0;
    r := c;
    if qb <= r {
      ql := SubW(ql, 1);
      r := AddW(r, u1);
    }
    ghost var q := if u1 <= r then ql + 1 else ql;
    WholeInverse(u1, qh, ql0, q, r0, rt, if u1 <= r then r - u1 else r);
    m := AddW(qh * H, ql);
    if u1 <= r {
      m := AddW(m, 1);
      r := SubW(r, u1);
    }
  }

  /* ---- Adjusting the 2/1 inverse of u1 for the low word u0 ---- */

  /** What is left of B^3 - 1 when m + B is taken as the quotient. */
  ghost function Rest(m: int, u: int): int
  {
    B * B * B - 1 - (B + m) * u
  }

  lemma {:induction false} RestPrevious(m: int, u: int)
    ensures Rest(m - 1, u) == Rest(m, u) + u
  {
    Dist(u, B + m, -1);
  }

  lemma {:induction false} RestNegative(m: int, u: int)
    requires 0 <= u < B * B && Rest(m, u) < 0
    ensures 1 <= m
  {
    if m <= 0 { MulLe(u, B + m, B); }
  }

  lemma {:induction false} RestStart(m: int, r: int, u1: int, u0: int)
    requires (B + m) * u1 + r == B * B - 1
    ensures Rest(m, u1 * B + u0) == B * B - 1 - B * (B - 1 - r + u0) - m * u0
  {
    Dist(B + m, u1 * B, u0);
    Assoc(B + m, u1, B);
    Dist(u0, B, m);
  }

  /** The word of all ones is never missed by exactly one: u would have to divide B^3. */
  lemma {:induction false} RestNotMinusOne(m: Limb, u1: Limb, u0: Limb)
    requires B <= 2 * u1 && 0 < u0
    ensures Rest(m, u1 * B + u0) != -1
  {
    if Rest(m, u1 * B + u0) == -1 {
      WordPowers();
      Pow2Add(64, 64);
      Pow2Add(128, 64);
      var j := Pow2Divisor(u1 * B + u0, B + m, 192);
      HighPower(j, u1 * B + u0);
    }
  }

  lemma {:induction false} HighPower(j: nat, u: int)
    requires B * B <= 2 * u && u < B * B && u == Pow2(j)
    ensures 2 * u == B * B
  {
    WordPowers();
    Pow2Add(64, 64);
    assert Pow2(128) == 2 * Pow2(127) && Pow2(127) == 2 * Pow2(126);
    if j <= 126 {
      Pow2Monotone(j, 126);
    } else if 128 <= j {
      Pow2Monotone(128, j);
    }
  }

  method AddLowWord(u1: Limb, u0: Limb, m0: Limb, r0: Limb) returns (m: Limb, r: Limb)
    requires B <= 2 * u1 && 0 < u0
    requires (B + m0) * u1 + r0 == B * B - 1 && r0 < u1
    ensures var u := u1 * B + u0; Rest(m, u) == B * B - 1 - B * r - m * u0 && Rest(m, u) < u
  {
    m := m0;
    r := NotW(r0);
    RestStart(m, r0, u1, u0);
    MulLe(u0, 0, m);
    r := AddW(r, u0);
    if r < u0 {
      m, r := AddLowCarry(u1, u0, m, r);
    }
  }

  method AddLowCarry(u1: Limb, u0: Limb, m0: Limb, r0: Limb) returns (m: Limb, r: Limb)
    requires B <= 2 * u1 && r0 < u0
    requires Rest(m0, u1 * B + u0) == B * B - 1 - B * (B + r0) - m0 * u0
    ensures var u := u1 * B + u0; Rest(m, u) == B * B - 1 - B * r - m * u0 && Rest(m, u) < u
  {
    ghost var u := u1 * B + u0;
    m, r := m0, r0;
    MulLe(u0, 0, m);
    RestPrevious(m, u);
    RestNegative(m, u);
    Dist(u0, m, -1);
    m := SubW(m, 1);
    if u1 <= r {
      MulLe(u0, 0, m);
      RestPrevious(m, u);
      RestNegative(m, u);
      Dist(u0, m, -1);
      m := SubW(m, 1);
      r := SubW(r, u1);
    }
    r := SubW(r, u1);
  }

  method SubtractCross(u1: Limb, u0: Limb, m0: Limb, r0: Limb) returns (m: Limb)
    requires B <= 2 * u1 && 0 < u0
    requires var u := u1 * B + u0; Rest(m0, u) == B * B - 1 - B * r0 - m0 * u0 && Rest(m0, u) < u
    ensures var u := u1 * B + u0; 0 <= Rest(m, u) < u
  {
    ghost var u := u1 * B + u0;
    m := m0;
    RestPrevious(m, u);
    RestPrevious(m - 1, u);
    var th, tl := Umul(u0, m);
    var r := AddW(r0, th);
    if r < th {
      RestNegative(m, u);
      m := SubW(m, 1);
      RestNotMinusOne(m, u1, u0);
      if Rest(m, u) < 0 { RestNegative(m, u); }
      m := SubW(m, if u1 < r || (r == u1 && u0 < tl) then 1 else 0);
    }
  }

  /** The 3/2 inverse of a normalised two-word divisor, exactly. */
  method Invert3by2(u1: Limb, u0: Limb) returns (m: Limb)
    requires B <= 2 * u1
    ensures m == (B * B * B - 1) / (u1 * B + u0) - B
    ensures IsInverse3by2(u1, u0, m)
  {
    var qh, r := HalfInverse(u1);
    m, r := LowHalf(u1, qh, r);
    if 0 < u0 {
      m, r := AddLowWord(u1, u0, m, r);
      m := SubtractCross(u1, u0, m, r);
    } else {
      RestStart(m, r, u1, u0);
    }
    DivUnique(B * B * B - 1, u1 * B + u0, B + m, Rest(m, u1 * B + u0));
  }

  /** The 2/1 inverse is the 3/2 inverse for a zero low word. */
  method InvertLimb(u1: Limb) returns (m: Limb)
    requires B <= 2 * u1
    ensures m == (B * B - 1) / u1 - B
    ensures IsInverse2by1(u1, m)
  {
    m := Invert3by2(u1, 0);
    assert (B + m) * (u1 * B) == ((B + m) * u1) * B by { Assoc(B + m, u1, B); }
    DivUnique(B * B - 1, u1, B + m, B * B - 1 - (B + m) * u1);
  }
}
