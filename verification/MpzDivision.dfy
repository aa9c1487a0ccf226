/** mpz_div_qr: signed division with the three rounding modes. */
module MpzDivision {
  import opened Arith
  import opened Limbs
  import opened Mpn
  import opened MpnDivision
  import opened MpzObject

  datatype RoundMode = Floor | Ceil | Trunc

  /** q and r are quotient and remainder of n by d in the given mode. */
  ghost predicate Rounded(mode: RoundMode, n: int, d: int, q: int, r: int)
  {
    && n == q * d + r && Abs(r) < Abs(d)
    && match mode {
      case Floor => r == 0 || (r < 0) == (d < 0)
      case Ceil => r == 0 || (r < 0) != (d < 0)
      case Trunc => r == 0 || (r < 0) == (n < 0)
    }
  }

  function FloorOf(x: real): int
  {
    x.Floor
  }

  /** n / d rounded in the given mode, as a real quotient. */
  ghost function RoundedQuotient(mode: RoundMode, n: int, d: int): int
    requires d != 0
  {
    var x := n as real / d as real;
    match mode
    case Floor => FloorOf(x)
    case Ceil => -FloorOf(-x)
    case Trunc => if x < 0.0 then -FloorOf(-x) else FloorOf(x)
  }

  lemma {:induction false} RealQuotient(n: int, d: int, q: int, r: int)
    requires d != 0 && n == q * d + r
    ensures n as real / d as real == q as real + r as real / d as real
  {
    assert n as real == q as real * d as real + r as real;
  }

  lemma {:induction false} RemainderSign(r: int, d: int)
    requires d != 0 && Abs(r) < Abs(d)
    ensures -1.0 < r as real / d as real < 1.0
    ensures r == 0 ==> r as real / d as real == 0.0
    ensures r != 0 ==> (r as real / d as real < 0.0) == ((r < 0) != (d < 0))
    ensures r != 0 ==> r as real / d as real != 0.0
  {
    var x, y := r as real, d as real;
    var z := x / y;
    assert z * y == x;
  }

  /** The integer conditions on q and r pin down the rounded real quotient. */
  lemma {:induction false} RoundedIsQuotient(mode: RoundMode, n: int, d: int, q: int, r: int)
    requires d != 0 && Rounded(mode, n, d, q, r)
    ensures q == RoundedQuotient(mode, n, d)
  {
    RealQuotient(n, d, q, r);
    RemainderSign(r, d);
  }

  /* ---- The division of magnitudes ---- */

  /** Only the top quotient word can be zero. */
  lemma {:induction false} QuotientTop(ns: seq<Limb>, ds: seq<Limb>, qs: seq<Limb>, r: int)
    requires 0 < |ds| <= |ns| && |qs| == |ns| - |ds| + 1 >= 2
    requires ns[|ns| - 1] != 0 && qs[|qs| - 1] == 0
    requires Val(ns) == Val(qs) * Val(ds) + r && r < Val(ds)
    ensures qs[|qs| - 2] != 0
  {
    hide Val;
    hide Pow;
    var k := |qs| - 2;
    ValTop(qs);
    if qs[k] == 0 {
      ValPrefix(qs, k);
      ValBound(qs[..k]);
      ValBound(ds);
      NonZeroMagnitude(ns);
      PowAdd(k, |ds|);
      QuotientTooSmall(Val(ns), Val(qs), Val(ds), r, Pow(k), Pow(|ds|));
    }
  }

  lemma {:induction false} QuotientTooSmall(n: int, q: int, d: int, r: int, p: int, pd: int)
    requires n == q * d + r && 0 <= d < pd && r < d && 0 <= q < p
    ensures n < p * pd
  {
    MulLe(d, q + 1, p);
    Dist(d, q, 1);
    MulLe(p, d, pd);
  }

  /** What truncation leaves in the remainder tr and the optional quotient tq. */
  ghost predicate TruncResult(tq: Mpz?, tr: Mpz, negN: bool, negD: bool, qm: int, rm: int)
    reads tq, tr, if tq != null then {tq.d} else {}, tr.d
  {
    && tr.Valid() && tr.Magnitude() == rm && (tr.size != 0 ==> (tr.size < 0) == negN)
    && (tq != null ==> tq.Valid() && tq.Magnitude() == qm && (tq.size != 0 ==> (tq.size < 0) == (negN != negD)))
  }

  /** The truncating division of magnitudes: tr enters as a copy of n. */
  method DivideInto(tq: Mpz?, tr: Mpz, negN: bool, d: Mpz) returns (ghost qm: nat, ghost rm: nat)
    requires tr.Valid() && d.Valid() && 0 < Abs(d.size) <= Abs(tr.size) && (tr.size < 0) == negN
    requires tr != d && tr.d != d.d
    requires tq != null ==> tq != d && tq != tr && tq.d != tr.d && tq.d != d.d && tq.d.Length == Abs(tr.size) - Abs(d.size) + 1
    modifies tr, tr.d, if tq != null then {tq, tq.d} else {}
    ensures tr.d == old(tr.d) && (tq != null ==> tq.d == old(tq.d))
    ensures TruncResult(tq, tr, negN, d.size < 0, qm, rm)
    ensures old(tr.Magnitude()) == qm * d.Magnitude() + rm && rm < d.Magnitude()
  {
    hide Val;
    hide Pow;
    var nn, dn := Abs(tr.size), Abs(d.size);
    ghost var ns, ds := tr.d[..nn], d.d[..dn];
    var qp: array?<Limb> := null;
    if tq != null {
      qp := tq.d;
    }
    ghost var qs := MpnDivision.DivQr(qp, tr.d, nn, d.d, dn);
    assert d.d[..dn] == ds;
    qm, rm := Val(qs), Val(tr.d[..dn]);
    if tq != null {
      assert tq.d[..] == qs;
      FinishQuotient(tq, ns, ds, qs, rm, negN != (d.size < 0));
    }
    var rn: int := NormalizedSize(tr.d, dn);
    tr.size := if negN then -rn else rn;
  }

  /** Fresh objects for the quotient, when wanted, and for the remainder. */
  method TruncDivide(n: Mpz, d: Mpz, want: bool) returns (tq: Mpz?, tr: Mpz, ghost qm: nat, ghost rm: nat)
    requires n.Valid() && d.Valid() && 0 < Abs(d.size) <= Abs(n.size)
    ensures fresh(tr) && fresh(tr.d)
    ensures (tq != null) == want
    ensures tq != null ==> fresh(tq) && fresh(tq.d) && tq != tr && tq.d != tr.d
    ensures TruncResult(tq, tr, n.size < 0, d.size < 0, qm, rm)
    ensures n.Magnitude() == qm * d.Magnitude() + rm && rm < d.Magnitude()
  {
    hide Val;
    hide Pow;
    tr := new Mpz(0);
    Set(tr, n);
    assert tr.Magnitude() == n.Magnitude();
    tq := null;
    if want {
      tq := new Mpz(Abs(n.size) - Abs(d.size) + 1);
    }
    qm, rm := DivideInto(tq, tr, n.size < 0, d);
  }

  method FinishQuotient(tq: Mpz, ghost ns: seq<Limb>, ghost ds: seq<Limb>, ghost qs: seq<Limb>, ghost r: int, negative: bool)
    requires 0 < |ds| <= |ns| && |qs| == |ns| - |ds| + 1 == tq.d.Length && tq.d[..] == qs
    requires ns[|ns| - 1] != 0 && Val(ns) == Val(qs) * Val(ds) + r && r < Val(ds)
    modifies tq`size
    ensures tq.Valid() && tq.Magnitude() == Val(qs) && (tq.size != 0 ==> (tq.size < 0) == negative)
  {
    hide Val;
    hide Pow;
    var qn: int := tq.d.Length;
    if tq.d[qn - 1] == 0 {
      if qn >= 2 {
        QuotientTop(ns, ds, qs, r);
      }
      qn := qn - 1;
      DropZero(qs);
      assert tq.d[..qn] == qs[..qn];
    } else {
      assert tq.d[..qn] == qs;
    }
    tq.size := if negative then -qn else qn;
  }

  /* ---- Signs and rounding ---- */

  lemma {:induction false} SignedTrunc(nm: int, dm: int, qm: int, rm: int, negN: bool, negD: bool)
    requires nm == qm * dm + rm && 0 <= rm < dm
    ensures Signed(negN, nm) == Signed(negN != negD, qm) * Signed(negD, dm) + Signed(negN, rm)
  {
    assert (-qm) * dm == -(qm * dm);
    assert qm * (-dm) == -(qm * dm);
    assert (-qm) * (-dm) == qm * dm;
  }

  /** The correction made after truncation. */
  lemma {:induction false} Corrected(mode: RoundMode, n: int, d: int, q: int, r: int)
    requires n != 0 && d != 0 && n == q * d + r && Abs(r) < Abs(d) && (r != 0 ==> (r < 0) == (n < 0))
    ensures mode == Floor && (n < 0) != (d < 0) && r != 0 ==> Rounded(mode, n, d, q - 1, r + d)
    ensures mode == Ceil && (n < 0) == (d < 0) && r != 0 ==> Rounded(mode, n, d, q + 1, r - d)
    ensures !(mode == Floor && (n < 0) != (d < 0) && r != 0) && !(mode == Ceil && (n < 0) == (d < 0) && r != 0) ==> Rounded(mode, n, d, q, r)
  {
    Dist(d, q, -1);
    Dist(d, q, 1);
  }

  /** A quotient that is 0, 1 or -1: the numerator has fewer words than the divisor. */
  lemma {:induction false} ShortNumerator(mode: RoundMode, n: int, d: int, k: int)
    requires n != 0 && Abs(n) < Abs(d)
    requires k == if mode == Ceil && (n < 0) == (d < 0) then 1 else if mode == Floor && (n < 0) != (d < 0) then -1 else 0
    ensures Rounded(mode, n, d, k, n - k * d) && n - k * d != 0
  {
    assert k * d == if k == 1 then d else if k == -1 then -d else 0;
  }

  ghost predicate Assigned(x: Mpz?, v: int)
    reads x, if x != null then {x.d} else {}
  {
    x != null ==> x.Valid() && x.Int() == v
  }

  ghost predicate AllSeparate(q: Mpz?, r: Mpz?, n: Mpz, d: Mpz)
    reads q, r, n, d
  {
    && (q != null ==> Separate(q, n) && Separate(q, d))
    && (r != null ==> Separate(r, n) && Separate(r, d))
    && (q != null && r != null ==> q != r && q.d != r.d)
    && Separate(n, d)
  }

  /** r := n - k * d for a unit k. */
  method ShortRemainder(r: Mpz, n: Mpz, d: Mpz, k: int)
    requires r.Valid() && n.Valid() && d.Valid() && -1 <= k <= 1
    requires Separate(r, n) && Separate(r, d) && Separate(n, d)
    modifies r, r.d
    ensures r.d == old(r.d) || fresh(r.d)
    ensures r.Valid() && r.Int() == old(n.Int()) - k * old(d.Int())
  {
    hide Val;
    hide Pow;
    if k == 1 {
      Sub(r, n, d);
    } else if k == -1 {
      Add(r, n, d);
    } else {
      Set(r, n);
    }
  }

  /** The numerator has fewer words than the divisor. */
  method DivQrShort(q: Mpz?, r: Mpz?, n: Mpz, d: Mpz, mode: RoundMode) returns (ghost qv: int, ghost rv: int)
    requires n.Valid() && d.Valid() && 0 < Abs(n.size) < Abs(d.size) && AllSeparate(q, r, n, d)
    requires (q != null ==> q.Valid()) && (r != null ==> r.Valid())
    modifies q, r, if q != null then {q.d} else {}, if r != null then {r.d} else {}
    ensures Rounded(mode, old(n.Int()), old(d.Int()), qv, rv) && rv != 0
    ensures Assigned(q, qv) && Assigned(r, rv)
  {
    hide Val;
    hide Pow;
    hide Rounded;
    ghost var nv, dv := n.Int(), d.Int();
    NonZeroInt(n);
    SizeOrders(n, d);
    var same := (n.size < 0) == (d.size < 0);
    var k := if mode == Ceil && same then 1 else if mode == Floor && !same then -1 else 0;
    qv, rv := k, nv - k * dv;
    ShortNumerator(mode, nv, dv, k);
    if r != null { ShortRemainder(r, n, d, k); }
    if q != null { SetUnit(q, k); }
  }

  lemma {:induction false} NonZeroInt(x: Mpz)
    requires x.Valid()
    ensures x.Int() == 0 <==> x.size == 0
    ensures x.size != 0 ==> (x.Int() < 0) == (x.size < 0)
  {
    if x.size != 0 {
      NonZeroMagnitude(x.d[..Abs(x.size)]);
    }
  }

  lemma {:induction false} SizeOrders(n: Mpz, d: Mpz)
    requires n.Valid() && d.Valid() && Abs(n.size) < Abs(d.size)
    ensures Abs(n.Int()) < Abs(d.Int()) && (d.Int() < 0) == (d.size < 0)
  {
    NonZeroInt(d);
    ShorterIsSmaller(n.d[..Abs(n.size)], d.d[..Abs(d.size)]);
  }

  /** The correction of the rounding mode, applied to the truncated results. */
  method CorrectRounding(tq: Mpz?, tr: Mpz, d: Mpz, mode: RoundMode, same: bool, wantR: bool, ghost n: int, ghost q: int, ghost r: int)
    returns (nonzero: bool, ghost qv: int, ghost rv: int)
    requires tr.Valid() && d.Valid() && tr != d && tr.d != d.d && tr.Int() == r
    requires tq != null ==> tq.Valid() && tq != d && tq != tr && tq.d != tr.d && tq.d != d.d && tq.Int() == q
    requires n != 0 && d.Int() != 0 && same == ((n < 0) == (d.Int() < 0))
    requires n == q * d.Int() + r && Abs(r) < Abs(d.Int()) && (r != 0 ==> (r < 0) == (n < 0))
    modifies tr, tr.d, if tq != null then {tq, tq.d} else {}
    ensures tr.d == old(tr.d) || fresh(tr.d)
    ensures tq != null ==> (tq.d == old(tq.d) || fresh(tq.d)) && tq.d != tr.d
    ensures Rounded(mode, n, old(d.Int()), qv, rv) && nonzero == (rv != 0)
    ensures Assigned(tq, qv) && (wantR ==> Assigned(tr, rv))
  {
    hide Val;
    hide Pow;
    hide Rounded;
    ghost var dv := d.Int();
    Corrected(mode, n, dv, q, r);
    NonZeroInt(tr);
    nonzero, qv, rv := tr.size != 0, q, r;
    if mode == Floor && !same && nonzero {
      if tq != null { SubUi(tq, tq, 1); }
      if wantR { Add(tr, tr, d); }
      qv, rv := q - 1, r + dv;
    } else if mode == Ceil && same && nonzero {
      if tq != null { AddUi(tq, tq, 1); }
      if wantR { Sub(tr, tr, d); }
      qv, rv := q + 1, r - dv;
    }
  }

  /** Truncation, then the correction of the rounding mode. */
  method DivQrLong(n: Mpz, d: Mpz, mode: RoundMode, wantQ: bool, wantR: bool)
    returns (tq: Mpz?, tr: Mpz, nonzero: bool, ghost qv: int, ghost rv: int)
    requires n.Valid() && d.Valid() && 0 < Abs(d.size) <= Abs(n.size) && Separate(n, d)
    ensures fresh(tr) && fresh(tr.d) && (tq != null) == wantQ
    ensures tq != null ==> fresh(tq) && fresh(tq.d) && tq != tr && tq.d != tr.d
    ensures Rounded(mode, n.Int(), d.Int(), qv, rv) && nonzero == (rv != 0)
    ensures Assigned(tq, qv) && (wantR ==> Assigned(tr, rv))
  {
    hide Val;
    hide Pow;
    hide Rounded;
    ghost var qm, rm;
    tq, tr, qm, rm := TruncDivide(n, d, wantQ);
    var same := (n.size < 0) == (d.size < 0);
    ghost var q, r := SignedResult(tq, tr, n, d, qm, rm);
    nonzero, qv, rv := CorrectRounding(tq, tr, d, mode, same, wantR, n.Int(), q, r);
  }

  lemma {:induction false} SignedResult(tq: Mpz?, tr: Mpz, n: Mpz, d: Mpz, qm: int, rm: int) returns (q: int, r: int)
    requires n.Valid() && d.Valid() && n.size != 0 && d.size != 0 && TruncResult(tq, tr, n.size < 0, d.size < 0, qm, rm)
    requires n.Magnitude() == qm * d.Magnitude() + rm && 0 <= rm < d.Magnitude()
    ensures n.Int() != 0 && d.Int() != 0 && (n.Int() < 0) == (n.size < 0) && (d.Int() < 0) == (d.size < 0)
    ensures n.Int() == q * d.Int() + r && Abs(r) < Abs(d.Int()) && (r != 0 ==> (r < 0) == (n.Int() < 0))
    ensures tr.Int() == r && (tq != null ==> tq.Int() == q)
  {
    hide Val;
    hide Pow;
    NonZeroInt(n);
    NonZeroInt(d);
    SignedTrunc(n.Magnitude(), d.Magnitude(), qm, rm, n.size < 0, d.size < 0);
    q, r := Signed((n.size < 0) != (d.size < 0), qm), Signed(n.size < 0, rm);
    TruncInts(tq, tr, n.size < 0, d.size < 0, qm, rm);
  }

  lemma {:induction false} TruncInts(tq: Mpz?, tr: Mpz, negN: bool, negD: bool, qm: int, rm: int)
    requires TruncResult(tq, tr, negN, negD, qm, rm)
    ensures tr.Int() == Signed(negN, rm)
    ensures tq != null ==> tq.Int() == Signed(negN != negD, qm)
  {
    EmptyIsZero();
    if tr.size == 0 { assert tr.d[..0] == []; }
    if tq != null && tq.size == 0 { assert tq.d[..0] == []; }
  }

  lemma {:induction false} ZeroNumerator(mode: RoundMode, d: int)
    requires d != 0
    ensures Rounded(mode, 0, d, 0, 0)
  {
  }

  /** The temporaries of the long division become the results. */
  method DivQrMoved(q: Mpz?, r: Mpz?, n: Mpz, d: Mpz, mode: RoundMode) returns (nonzero: bool, ghost qv: int, ghost rv: int)
    requires n.Valid() && d.Valid() && 0 < Abs(d.size) <= Abs(n.size) && AllSeparate(q, r, n, d)
    modifies q, r
    ensures Rounded(mode, old(n.Int()), old(d.Int()), qv, rv) && nonzero == (rv != 0)
    ensures Assigned(q, qv) && Assigned(r, rv)
  {
    hide Val;
    hide Pow;
    hide Rounded;
    var tq, tr;
    tq, tr, nonzero, qv, rv := DivQrLong(n, d, mode, q != null, r != null);
    if q != null { q.size, q.d := tq.size, tq.d; }
    if r != null { r.size, r.d := tr.size, tr.d; }
  }

  /** mpz_div_qr: q or r may be absent, and either may be n or d. */
  method DivQr(q: Mpz?, r: Mpz?, n: Mpz, d: Mpz, mode: RoundMode) returns (nonzero: bool, ghost qv: int, ghost rv: int)
    requires n.Valid() && d.Valid() && d.size != 0 && AllSeparate(q, r, n, d)
    requires (q != null ==> q.Valid()) && (r != null ==> r.Valid())
    modifies q, r, if q != null then {q.d} else {}, if r != null then {r.d} else {}
    ensures Rounded(mode, old(n.Int()), old(d.Int()), qv, rv) && nonzero == (rv != 0)
    ensures Assigned(q, qv) && Assigned(r, rv)
  {
    hide Val;
    hide Pow;
    hide Rounded;
    NonZeroInt(n);
    NonZeroInt(d);
    if n.size == 0 {
      ZeroNumerator(mode, d.Int());
      qv, rv, nonzero := 0, 0, false;
      if q != null { SetUnit(q, 0); }
      if r != null { SetUnit(r, 0); }
    } else if Abs(n.size) < Abs(d.size) {
      qv, rv := DivQrShort(q, r, n, d, mode);
      nonzero := true;
    } else {
      nonzero, qv, rv := DivQrMoved(q, r, n, d, mode);
    }
  }
}
