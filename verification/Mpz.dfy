/** Signed multi-word integers: sign-magnitude objects whose buffer is
    rewritten in place, or replaced when it is too short. */
module MpzObject {
  import opened Arith
  import opened Limbs
  import opened Mpn

  class Mpz {
    var size: int
    var d: array<Limb>

    ghost predicate Valid()
      reads this, d
    {
      Abs(size) <= d.Length && (size != 0 ==> d[Abs(size) - 1] != 0)
    }

    ghost function Magnitude(): nat
      requires Valid()
      reads this, d
    {
      Val(d[..Abs(size)])
    }

    ghost function Int(): int
      requires Valid()
      reads this, d
    {
      var m: int := Magnitude();
      if size < 0 then -m else m
    }

    constructor (capacity: nat)
      ensures size == 0 && fresh(d) && d.Length == capacity
      ensures Valid() && Int() == 0
    {
      size := 0;
      d := new Limb[capacity];
    }
  }

  /** A magnitude with its sign. */
  function Signed(negative: bool, m: int): int
  {
    if negative then -m else m
  }

  /** Two parameters may be one object, but two objects never share a buffer. */
  ghost predicate Separate(x: Mpz, y: Mpz)
    reads x, y
  {
    x == y || x.d != y.d
  }

  /** The top limb of a normalised number decides its size. */
  lemma {:induction false} NonZeroMagnitude(s: seq<Limb>)
    requires |s| > 0 && s[|s| - 1] != 0
    ensures Pow(|s| - 1) <= Val(s)
  {
    hide Val;
    hide Pow;
    ValTop(s);
    MulLe(Pow(|s| - 1), 1, s[|s| - 1]);
  }

  lemma {:induction false} ShorterIsSmaller(s: seq<Limb>, t: seq<Limb>)
    requires |s| < |t| && t[|t| - 1] != 0
    ensures Val(s) < Val(t)
  {
    ValBound(s);
    NonZeroMagnitude(t);
    PowMonotone(|s|, |t| - 1);
  }

  lemma {:induction false} PowMonotone(m: nat, n: nat)
    requires m <= n
    ensures Pow(m) <= Pow(n)
  {
    if m < n {
      PowMonotone(m, n - 1);
    }
  }

  /** MPZ_REALLOC: at least n words, the old contents kept. */
  method Realloc(r: Mpz, n: nat)
    modifies r`d
    ensures r.d == old(r.d) || (fresh(r.d) && old(r.d.Length) < n == r.d.Length)
    ensures n <= r.d.Length
    ensures forall k :: 0 <= k < old(r.d.Length) ==> r.d[k] == old(r.d[k])
  {
    if n > r.d.Length {
      var nd := new Limb[n];
      forall k | 0 <= k < r.d.Length {
        nd[k] := r.d[k];
      }
      r.d := nd;
    }
  }

  lemma {:induction false} JoinWindows(v: int, cy: int, p: int, x: int, y: int, v2: int, cy2: int, p2: int, x2: int)
    requires v + cy * p == x + y && v2 + cy2 * p2 == x2 + cy
    ensures (v + p * v2) + cy2 * (p * p2) == (x + p * x2) + y
  {
    assert p * (v2 + cy2 * p2) == p * v2 + cy2 * (p * p2) by { Dist(p, v2, cy2 * p2); Assoc(cy2, p, p2); Assoc(p, cy2, p2); }
    Dist(p, x2, cy);
  }

  /** A carry or borrow handed from the low part to the high part. */
  lemma {:induction false} JoinSequences(low: seq<Limb>, high: seq<Limb>, xs: seq<Limb>, c1: int, y: int, cy: int)
    requires |low| + |high| == |xs|
    requires Val(low) + c1 * Pow(|low|) == Val(xs[..|low|]) + y
    requires Val(high) + cy * Pow(|high|) == Val(xs[|low|..]) + c1
    ensures Val(low + high) + cy * Pow(|xs|) == Val(xs) + y
  {
    ValAppend(low, high);
    ValSplit(xs, |low|);
    PowAdd(|low|, |high|);
    JoinWindows(Val(low), c1, Pow(|low|), Val(xs[..|low|]), y, Val(high), cy, Pow(|high|), Val(xs[|low|..]));
  }

  /** mpn_add: the shorter operand second. */
  method AddArrays(rp: array<Limb>, ap: array<Limb>, an: nat, bp: array<Limb>, bn: nat) returns (cy: Limb)
    requires bn <= an <= rp.Length && an <= ap.Length && bn <= bp.Length
    modifies rp
    ensures OnlyWindow(rp, 0, an) && cy <= 1
    ensures Val(rp[..an]) + cy * Pow(an) == old(Val(ap[..an])) + old(Val(bp[..bn]))
  {
    hide Val;
    hide Pow;
    ghost var xs := ap[..an];
    assert xs[..bn] == ap[0..0 + bn];
    cy := AddN(rp, ap, bp, 0, bn);
    ghost var low := rp[..bn];
    assert low == rp[0..0 + bn];
    if an > bn {
      ghost var c1 := cy;
      assert xs[bn..] == ap[bn..bn + (an - bn)];
      cy := Add1(rp, ap, bn, an - bn, cy);
      ghost var high := rp[bn..bn + (an - bn)];
      assert rp[..an] == low + high;
      JoinSequences(low, high, xs, c1, old(Val(bp[..bn])), cy);
    } else {
      assert xs[..bn] == xs;
    }
  }

  /** mpn_sub: the shorter operand second. */
  method SubArrays(rp: array<Limb>, ap: array<Limb>, an: nat, bp: array<Limb>, bn: nat) returns (cy: Limb)
    requires bn <= an <= rp.Length && an <= ap.Length && bn <= bp.Length
    modifies rp
    ensures OnlyWindow(rp, 0, an) && cy <= 1
    ensures old(Val(ap[..an])) + cy * Pow(an) == Val(rp[..an]) + old(Val(bp[..bn]))
  {
    hide Val;
    hide Pow;
    ghost var xs, y := ap[..an], Val(bp[..bn]);
    assert xs[..bn] == ap[..bn];
    cy := SubN(rp, ap, bp, bn);
    ghost var low := rp[..bn];
    if an > bn {
      ghost var c1 := cy;
      assert xs[bn..] == ap[bn..bn + (an - bn)];
      cy := Sub1(rp, ap, bn, an - bn, cy);
      ghost var zs := rp[..an];
      assert zs[..bn] == low && zs[bn..] == rp[bn..bn + (an - bn)];
      assert xs == xs[..bn] + xs[bn..];
      JoinSequences(xs[..bn], xs[bn..], zs, c1, y, cy);
    } else {
      assert xs[..bn] == xs;
    }
  }

  /** rp[..rn] is normalised and stands for v. */
  ghost predicate Stores(rp: array<Limb>, rn: nat, v: int)
    reads rp
  {
    rn <= rp.Length && (rn > 0 ==> rp[rn - 1] != 0) && Val(rp[..rn]) == v
  }

  /** What an operation that writes r may change: its buffer, or its buffer pointer. */
  twostate predicate BufferOnly(r: Mpz)
    reads r
  {
    (r.d == old(r.d) || fresh(r.d)) && r.size == old(r.size)
  }

  /** Number of limbs and limbs of an operand, as read after r may have moved. */
  method AbsAddOrdered(r: Mpz, a: Mpz, b: Mpz, an: nat, bn: nat) returns (rn: nat)
    requires a.Valid() && b.Valid() && an == Abs(a.size) && bn == Abs(b.size) && bn <= an
    requires Separate(r, a) && Separate(r, b) && Separate(a, b)
    modifies r`d, r.d
    ensures BufferOnly(r) && Stores(r.d, rn, old(a.Magnitude()) + old(b.Magnitude()))
  {
    hide Val;
    hide Pow;
    ghost var xs, ys := a.d[..an], b.d[..bn];
    Realloc(r, an + 1);
    assert a.d[..an] == xs && b.d[..bn] == ys;
    var cy := AddArrays(r.d, a.d, an, b.d, bn);
    rn := StoreCarry(r.d, an, cy, xs, ys);
  }

  /** The carry goes on top and counts only if it is not zero. */
  method StoreCarry(rp: array<Limb>, an: nat, cy: Limb, ghost xs: seq<Limb>, ghost ys: seq<Limb>) returns (rn: nat)
    requires |ys| <= |xs| == an < rp.Length && cy <= 1 && (an > 0 ==> xs[an - 1] != 0)
    requires Val(rp[..an]) + cy * Pow(an) == Val(xs) + Val(ys)
    modifies rp
    ensures Stores(rp, rn, Val(xs) + Val(ys))
  {
    hide Val;
    hide Pow;
    ghost var zs := rp[..an];
    rp[an] := cy;
    assert rp[..an] == zs && rp[..an + 1] == zs + [cy];
    rn := an + cy;
    SumIsNormalised(xs, ys, zs, cy);
  }

  lemma {:induction false} SumIsNormalised(xs: seq<Limb>, ys: seq<Limb>, zs: seq<Limb>, cy: Limb)
    requires |ys| <= |xs| == |zs| && cy <= 1 && (|xs| > 0 ==> xs[|xs| - 1] != 0)
    requires Val(zs) + cy * Pow(|xs|) == Val(xs) + Val(ys)
    ensures cy == 0 && |xs| > 0 ==> zs[|xs| - 1] != 0
    ensures cy == 1 ==> Val(zs + [cy]) == Val(xs) + Val(ys)
    ensures |xs| == 0 ==> cy == 0
  {
    hide Pow;
    ValSnoc(zs, cy);
    if |xs| > 0 {
      hide Val;
      NonZeroMagnitude(xs);
      ValTop(zs);
    }
  }

  /** mpz_abs_add: the size is returned, not stored. */
  method AbsAdd(r: Mpz, a: Mpz, b: Mpz) returns (rn: nat)
    requires a.Valid() && b.Valid()
    requires Separate(r, a) && Separate(r, b) && Separate(a, b)
    modifies r`d, r.d
    ensures BufferOnly(r) && Stores(r.d, rn, old(a.Magnitude()) + old(b.Magnitude()))
  {
    var an, bn := Abs(a.size), Abs(b.size);
    if an < bn {
      rn := AbsAddOrdered(r, b, a, bn, an);
    } else {
      rn := AbsAddOrdered(r, a, b, an, bn);
    }
  }

  /** mpn_cmp4. */
  method Cmp4(ap: array<Limb>, an: nat, bp: array<Limb>, bn: nat) returns (c: int)
    requires an <= ap.Length && bn <= bp.Length && (an > 0 ==> ap[an - 1] != 0) && (bn > 0 ==> bp[bn - 1] != 0)
    ensures (c < 0) == (Val(ap[..an]) < Val(bp[..bn])) && (c > 0) == (Val(ap[..an]) > Val(bp[..bn]))
  {
    if an != bn {
      if an < bn {
        ShorterIsSmaller(ap[..an], bp[..bn]);
      } else {
        ShorterIsSmaller(bp[..bn], ap[..an]);
      }
      return if an < bn then -1 else 1;
    }
    c := Cmp(ap, bp, an);
  }

  /** The larger magnitude minus the smaller one. */
  method AbsSubOrdered(r: Mpz, a: Mpz, b: Mpz, an: nat, bn: nat) returns (rn: nat)
    requires a.Valid() && b.Valid() && an == Abs(a.size) && bn == Abs(b.size)
    requires b.Magnitude() < a.Magnitude()
    requires Separate(r, a) && Separate(r, b) && Separate(a, b)
    modifies r`d, r.d
    ensures BufferOnly(r) && Stores(r.d, rn, old(a.Magnitude()) - old(b.Magnitude()))
  {
    hide Val;
    hide Pow;
    ghost var xs, ys := a.d[..an], b.d[..bn];
    if an < bn { ShorterIsSmaller(xs, ys); }
    Realloc(r, an);
    assert a.d[..an] == xs && b.d[..bn] == ys;
    var cy := SubArrays(r.d, a.d, an, b.d, bn);
    NoBorrow(Val(xs), Val(ys), r.d[..an], cy);
    rn := NormalizedSize(r.d, an);
  }

  lemma {:induction false} NoBorrow(x: int, y: int, zs: seq<Limb>, cy: Limb)
    requires y <= x && x + cy * Pow(|zs|) == Val(zs) + y
    ensures cy == 0 && Val(zs) == x - y
  {
    ValBound(zs);
    if 1 <= cy { MulLe(Pow(|zs|), 1, cy); }
  }

  /** mpz_abs_sub: the signed size of |a| - |b| is returned, not stored. */
  method AbsSub(r: Mpz, a: Mpz, b: Mpz) returns (rn: int)
    requires a.Valid() && b.Valid()
    requires Separate(r, a) && Separate(r, b) && Separate(a, b)
    modifies r`d, r.d
    ensures BufferOnly(r) && Stores(r.d, Abs(rn), Abs(old(a.Magnitude()) - old(b.Magnitude())))
    ensures var diff := old(a.Magnitude()) - old(b.Magnitude());
      if diff == 0 then rn == 0 else (rn < 0) == (diff < 0)
  {
    hide Val;
    hide Pow;
    var an, bn := Abs(a.size), Abs(b.size);
    var cmp := Cmp4(a.d, an, b.d, bn);
    if cmp > 0 {
      rn := AbsSubOrdered(r, a, b, an, bn);
    } else if cmp < 0 {
      rn := AbsSubOrdered(r, b, a, bn, an);
      rn := -rn;
    } else {
      EmptyIsZero();
      assert r.d[..0] == [];
      return 0;
    }
    StoresSize(r.d, Abs(rn), Val(r.d[..Abs(rn)]));
  }

  lemma {:induction false} StoresSize(rp: array<Limb>, rn: nat, v: int)
    requires Stores(rp, rn, v)
    ensures rn == 0 <==> v == 0
  {
    if rn > 0 { NonZeroMagnitude(rp[..rn]); }
  }

  lemma {:induction false} EmptyIsZero()
    ensures Val([]) == 0
  {
  }

  /** mpz_add: r may be a or b. */
  method Add(r: Mpz, a: Mpz, b: Mpz)
    requires a.Valid() && b.Valid()
    requires Separate(r, a) && Separate(r, b) && Separate(a, b)
    modifies r, r.d
    ensures r.d == old(r.d) || fresh(r.d)
    ensures r.Valid() && r.Int() == old(a.Int()) + old(b.Int())
  {
    hide Val;
    hide Pow;
    var rn: int;
    var negative := a.size < 0;
    if (a.size < 0) == (b.size < 0) {
      rn := AbsAdd(r, a, b);
    } else {
      rn := AbsSub(r, a, b);
    }
    StoresSize(r.d, Abs(rn), Val(r.d[..Abs(rn)]));
    EmptyIsZero();
    r.size := if negative then -rn else rn;
  }

  /** mpz_sub: r may be a or b. */
  method Sub(r: Mpz, a: Mpz, b: Mpz)
    requires a.Valid() && b.Valid()
    requires Separate(r, a) && Separate(r, b) && Separate(a, b)
    modifies r, r.d
    ensures r.d == old(r.d) || fresh(r.d)
    ensures r.Valid() && r.Int() == old(a.Int()) - old(b.Int())
  {
    hide Val;
    hide Pow;
    var rn: int;
    var negative := a.size < 0;
    if (a.size < 0) == (b.size < 0) {
      rn := AbsSub(r, a, b);
    } else {
      rn := AbsAdd(r, a, b);
    }
    StoresSize(r.d, Abs(rn), Val(r.d[..Abs(rn)]));
    EmptyIsZero();
    r.size := if negative then -rn else rn;
  }

  /* ---- One-word operands and assignment ---- */

  /** mpz_set: a copy into r's own buffer. */
  method Set(r: Mpz, x: Mpz)
    requires r.Valid() && x.Valid() && Separate(r, x)
    modifies r, r.d
    ensures r.d == old(r.d) || fresh(r.d)
    ensures r.Valid() && r.Int() == old(x.Int()) && r.size == old(x.size)
  {
    if r != x {
      var n := Abs(x.size);
      ghost var xs := x.d[..n];
      Realloc(r, n);
      forall k | 0 <= k < n {
        r.d[k] := x.d[k];
      }
      assert r.d[..n] == xs;
      r.size := x.size;
    }
  }

  /** mpz_set_si for the values division assigns. */
  method SetUnit(r: Mpz, x: int)
    requires -1 <= x <= 1
    modifies r, r.d
    ensures r.d == old(r.d) || fresh(r.d)
    ensures r.Valid() && r.Int() == x
  {
    r.size := x;
    if x != 0 {
      Realloc(r, 1);
      r.d[0] := 1;
      SingleWord(r.d[..1]);
      assert r.Valid() && r.Magnitude() == 1;
    } else {
      assert r.d[..0] == [];
    }
  }

  /** mpz_abs_add_ui. */
  method AbsAddUi(r: Mpz, a: Mpz, b: Limb) returns (rn: nat)
    requires a.Valid() && Separate(r, a)
    modifies r`d, r.d
    ensures BufferOnly(r) && Stores(r.d, rn, old(a.Magnitude()) + b)
  {
    hide Val;
    hide Pow;
    var an := Abs(a.size);
    EmptyIsZero();
    if an == 0 {
      Realloc(r, 1);
      r.d[0] := b;
      SingleWord(r.d[..1]);
      rn := if b > 0 then 1 else 0;
    } else {
      ghost var xs := a.d[..an];
      Realloc(r, an + 1);
      assert a.d[0..0 + an] == xs;
      var cy := Add1(r.d, a.d, 0, an, b);
      ghost var zs := r.d[0..0 + an];
      r.d[an] := cy;
      assert r.d[..an + 1] == zs + [cy] && r.d[..an] == zs;
      rn := an + cy;
      SingleWord([b]);
      SumIsNormalised(xs, [b], zs, cy);
    }
  }

  /** mpz_abs_sub_ui: -1 when the word is larger. */
  method AbsSubUi(r: Mpz, a: Mpz, b: Limb) returns (rn: int)
    requires a.Valid() && Separate(r, a)
    modifies r`d, r.d
    ensures BufferOnly(r) && Stores(r.d, Abs(rn), Abs(old(a.Magnitude()) - b))
    ensures (rn < 0) == (old(a.Magnitude()) < b)
  {
    hide Val;
    hide Pow;
    var an := Abs(a.size);
    ghost var xs := a.d[..an];
    EmptyIsZero();
    if an == 0 {
      Realloc(r, 1);
      r.d[0] := b;
      SingleWord(r.d[..1]);
      rn := if b > 0 then -1 else 0;
    } else {
      Realloc(r, an);
      assert a.d[..an] == xs && a.d[0..0 + an] == xs;
      if an == 1 { SingleWord(xs); }
      if an == 1 && a.d[0] < b {
        r.d[0] := b - a.d[0];
        SingleWord(r.d[..1]);
        rn := -1;
      } else {
        WordIsSmaller(xs, b);
        var cy := Sub1(r.d, a.d, 0, an, b);
        assert r.d[..an] == r.d[0..0 + an];
        NoBorrow(Val(xs), b, r.d[..an], cy);
        rn := NormalizedSize(r.d, an);
      }
    }
  }

  lemma {:induction false} WordIsSmaller(xs: seq<Limb>, b: Limb)
    requires |xs| > 0 && xs[|xs| - 1] != 0 && (|xs| == 1 ==> b <= xs[0])
    ensures b <= Val(xs)
  {
    if |xs| == 1 {
      SingleWord(xs);
    } else {
      NonZeroMagnitude(xs);
      PowMonotone(1, |xs| - 1);
      assert Pow(1) == B * Pow(0);
    }
  }

  /** mpz_add_ui. */
  method AddUi(r: Mpz, a: Mpz, b: Limb)
    requires a.Valid() && Separate(r, a)
    modifies r, r.d
    ensures r.d == old(r.d) || fresh(r.d)
    ensures r.Valid() && r.Int() == old(a.Int()) + b
  {
    hide Val;
    hide Pow;
    var rn: int;
    if a.size >= 0 {
      rn := AbsAddUi(r, a, b);
    } else {
      rn := AbsSubUi(r, a, b);
      rn := -rn;
    }
    StoresSize(r.d, Abs(rn), Val(r.d[..Abs(rn)]));
    EmptyIsZero();
    r.size := rn;
  }

  /** mpz_sub_ui. */
  method SubUi(r: Mpz, a: Mpz, b: Limb)
    requires a.Valid() && Separate(r, a)
    modifies r, r.d
    ensures r.d == old(r.d) || fresh(r.d)
    ensures r.Valid() && r.Int() == old(a.Int()) - b
  {
    hide Val;
    hide Pow;
    var rn: int;
    if a.size < 0 {
      rn := AbsAddUi(r, a, b);
      rn := -rn;
    } else {
      rn := AbsSubUi(r, a, b);
    }
    StoresSize(r.d, Abs(rn), Val(r.d[..Abs(rn)]));
    EmptyIsZero();
    r.size := rn;
  }
}
