/** The in-place loops over limb arrays that division and addition stand on. */
module Mpn {
  import opened Arith
  import opened Limbs
  import opened PowerOfTwo
  import opened WordOps

  /** Nothing outside the n words from ro changed. */
  twostate predicate OnlyWindow(rp: array<Limb>, ro: nat, n: nat)
    reads rp
  {
    forall k {:trigger rp[k]} :: 0 <= k < rp.Length && !(ro <= k < ro + n) ==> rp[k] == old(rp[k])
  }

  /* ---- Addition and subtraction with carry ---- */

  lemma {:induction false} CarryStep(x: int, y: int, cin: int, r: int, cout: int, v: int, vx: int, vy: int, p: int)
    requires x + y + cin == r + B * cout && v + cin * p == vx + vy
    ensures (v + r * p) + cout * (B * p) == (vx + x * p) + (vy + y * p)
  {
    assert (x + y + cin) * p == x * p + y * p + cin * p by { Dist(p, x + y, cin); Dist(p, x, y); }
    assert (r + B * cout) * p == r * p + cout * (B * p) by { Dist(p, r, B * cout); Assoc(cout, B, p); }
  }

  ghost predicate SumSoFar(rs: seq<Limb>, cy: int, xs: seq<Limb>, ys: seq<Limb>)
  {
    |rs| <= |xs| == |ys| && 0 <= cy <= 1 &&
    Val(rs) + cy * Pow(|rs|) == Val(xs[..|rs|]) + Val(ys[..|rs|])
  }

  lemma {:induction false} SumStep(rs: seq<Limb>, cy: int, xs: seq<Limb>, ys: seq<Limb>, r: Limb, cy': int)
    requires SumSoFar(rs, cy, xs, ys) && |rs| < |xs| && 0 <= cy' <= 1
    requires xs[|rs|] + ys[|rs|] + cy == r + B * cy'
    ensures SumSoFar(rs + [r], cy', xs, ys)
  {
    var i := |rs|;
    ValPrefix(xs, i);
    ValPrefix(ys, i);
    ValSnoc(rs, r);
    CarryStep(xs[i], ys[i], cy, r, cy', Val(rs), Val(xs[..i]), Val(ys[..i]), Pow(i));
  }

  method AddN(rp: array<Limb>, ap: array<Limb>, bp: array<Limb>, o: nat, n: nat) returns (cy: Limb)
    requires o + n <= rp.Length && o + n <= ap.Length && n <= bp.Length && (rp == bp ==> o == 0)
    modifies rp
    ensures OnlyWindow(rp, o, n) && cy <= 1
    ensures Val(rp[o..o + n]) + cy * Pow(n) == old(Val(ap[o..o + n])) + old(Val(bp[..n]))
  {
    ghost var xs, ys, rs: seq<Limb> := ap[o..o + n], bp[..n], [];
    cy := 0;
    for i := 0 to n
      invariant OnlyWindow(rp, o, i)
      invariant |rs| == i && forall k :: 0 <= k < i ==> rp[o + k] == rs[k]
      invariant SumSoFar(rs, cy, xs, ys)
    {
      var a, b := ap[o + i], bp[i];
      assert a == xs[i] && b == ys[i];
      var r := AddW(a, cy);
      var cy' := if r < cy then 1 else 0;
      r := AddW(r, b);
      cy' := cy' + if r < b then 1 else 0;
      SumStep(rs, cy, xs, ys, r, cy');
      cy := cy';
      rp[o + i] := r;
      rs := rs + [r];
    }
    assert rp[o..o + n] == rs && xs[..n] == xs && ys[..n] == ys;
  }

  ghost predicate DifferenceSoFar(rs: seq<Limb>, cy: int, xs: seq<Limb>, ys: seq<Limb>)
  {
    |rs| <= |xs| == |ys| && 0 <= cy <= 1 &&
    Val(xs[..|rs|]) + cy * Pow(|rs|) == Val(rs) + Val(ys[..|rs|])
  }

  lemma {:induction false} DifferenceStep(rs: seq<Limb>, cy: int, xs: seq<Limb>, ys: seq<Limb>, r: Limb, cy': int)
    requires DifferenceSoFar(rs, cy, xs, ys) && |rs| < |xs| && 0 <= cy' <= 1
    requires xs[|rs|] - ys[|rs|] - cy == r - B * cy'
    ensures DifferenceSoFar(rs + [r], cy', xs, ys)
  {
    var i := |rs|;
    ValPrefix(xs, i);
    ValPrefix(ys, i);
    ValSnoc(rs, r);
    CarryStep(r, ys[i], cy, xs[i], cy', Val(xs[..i]), Val(rs), Val(ys[..i]), Pow(i));
  }

  method SubN(rp: array<Limb>, ap: array<Limb>, bp: array<Limb>, n: nat) returns (cy: Limb)
    requires n <= rp.Length && n <= ap.Length && n <= bp.Length
    modifies rp
    ensures OnlyWindow(rp, 0, n) && cy <= 1
    ensures Val(rp[..n]) - cy * Pow(n) == old(Val(ap[..n])) - old(Val(bp[..n]))
  {
    ghost var xs, ys, rs: seq<Limb> := ap[..n], bp[..n], [];
    cy := 0;
    for i := 0 to n
      invariant OnlyWindow(rp, 0, i)
      invariant |rs| == i && forall k :: 0 <= k < i ==> rp[k] == rs[k]
      invariant DifferenceSoFar(rs, cy, xs, ys)
    {
      var a, b := ap[i], bp[i];
      assert a == xs[i] && b == ys[i];
      b := AddW(b, cy);
      var cy' := if b < cy then 1 else 0;
      cy' := cy' + if a < b then 1 else 0;
      DifferenceStep(rs, cy, xs, ys, SubW(a, b), cy');
      cy := cy';
      rp[i] := SubW(a, b);
      rs := rs + [SubW(a, b)];
    }
    assert rp[..n] == rs && xs[..n] == xs && ys[..n] == ys;
  }

  method Add1(rp: array<Limb>, ap: array<Limb>, o: nat, n: nat, b0: Limb) returns (b: Limb)
    requires 0 < n && o + n <= rp.Length && o + n <= ap.Length
    modifies rp
    ensures OnlyWindow(rp, o, n) && b <= 1
    ensures Val(rp[o..o + n]) + b * Pow(n) == old(Val(ap[o..o + n])) + b0
  {
    ghost var xs, rs: seq<Limb> := ap[o..o + n], [];
    b := b0;
    for i := 0 to n
      invariant OnlyWindow(rp, o, i) && (b <= 1 || i == 0)
      invariant |rs| == i && forall k :: 0 <= k < i ==> rp[o + k] == rs[k]
      invariant Val(rs) + b * Pow(i) == Val(xs[..i]) + b0
    {
      assert ap[o + i] == xs[i];
      var r := AddW(ap[o + i], b);
      var cy := if r < b then 1 else 0;
      ValPrefix(xs, i);
      ValSnoc(rs, r);
      CarryStep(xs[i], 0, b, r, cy, Val(rs), Val(xs[..i]), b0, Pow(i));
      b := cy;
      rp[o + i] := r;
      rs := rs + [r];
    }
    assert rp[o..o + n] == rs && xs[..n] == xs;
  }

  ghost predicate BorrowSoFar(rs: seq<Limb>, b: int, xs: seq<Limb>, b0: int)
  {
    |rs| <= |xs| && Val(xs[..|rs|]) + b * Pow(|rs|) == Val(rs) + b0
  }

  lemma {:induction false} BorrowStart(xs: seq<Limb>, b0: int)
    ensures BorrowSoFar([], b0, xs, b0)
  {
  }

  lemma {:induction false} BorrowNext(rs: seq<Limb>, b: int, xs: seq<Limb>, b0: int, r: Limb, b': int)
    requires BorrowSoFar(rs, b, xs, b0) && |rs| < |xs| && r + b == xs[|rs|] + B * b'
    ensures BorrowSoFar(rs + [r], b', xs, b0)
  {
    var i := |rs|;
    ValPrefix(xs, i);
    ValSnoc(rs, r);
    assert Pow(i + 1) == B * Pow(i);
    hide Val;
    hide Pow;
    CarryStep(r, 0, b, xs[i], b', Val(xs[..i]), Val(rs), b0, Pow(i));
  }

  lemma {:induction false} BorrowEnd(rs: seq<Limb>, b: int, xs: seq<Limb>, b0: int)
    requires BorrowSoFar(rs, b, xs, b0) && |rs| == |xs|
    ensures Val(rs) - b * Pow(|xs|) == Val(xs) - b0
  {
    assert xs[..|xs|] == xs;
  }

  method Sub1(rp: array<Limb>, ap: array<Limb>, o: nat, n: nat, b0: Limb) returns (b: Limb)
    requires 0 < n && o + n <= rp.Length && o + n <= ap.Length
    modifies rp
    ensures OnlyWindow(rp, o, n) && b <= 1
    ensures Val(rp[o..o + n]) - b * Pow(n) == old(Val(ap[o..o + n])) - b0
  {
    hide Val;
    hide Pow;
    hide BorrowSoFar;
    ghost var xs, rs: seq<Limb> := ap[o..o + n], [];
    b := b0;
    BorrowStart(xs, b0);
    for i := 0 to n
      invariant OnlyWindow(rp, o, i) && (b <= 1 || i == 0)
      invariant |rs| == i && forall k :: 0 <= k < i ==> rp[o + k] == rs[k]
      invariant BorrowSoFar(rs, b, xs, b0)
    {
      var a := ap[o + i];
      assert a == xs[i];
      var cy := if a < b then 1 else 0;
      var r := SubW(a, b);
      BorrowNext(rs, b, xs, b0, r, cy);
      b := cy;
      rp[o + i] := r;
      rs := rs + [r];
    }
    BorrowEnd(rs, b, xs, b0);
    assert rp[o..o + n] == rs;
  }

  /* ---- Multiply and subtract ---- */

  ghost predicate SubMulSoFar(rs: seq<Limb>, cl: int, zs: seq<Limb>, us: seq<Limb>, v: int)
  {
    |rs| <= |zs| == |us| &&
    Val(zs[..|rs|]) + cl * Pow(|rs|) == Val(rs) + v * Val(us[..|rs|])
  }

  lemma {:induction false} SubMulStep(rs: seq<Limb>, cl: int, zs: seq<Limb>, us: seq<Limb>, v: int, r: Limb, cl': int)
    requires SubMulSoFar(rs, cl, zs, us, v) && |rs| < |zs|
    requires r + v * us[|rs|] + cl == zs[|rs|] + B * cl'
    ensures SubMulSoFar(rs + [r], cl', zs, us, v)
  {
    var i := |rs|;
    ValPrefix(zs, i);
    ValPrefix(us, i);
    ValSnoc(rs, r);
    CarryStep(r, v * us[i], cl, zs[i], cl', Val(zs[..i]), Val(rs), v * Val(us[..i]), Pow(i));
    Assoc(v, us[i], Pow(i));
    Dist(v, Val(us[..i]), us[i] * Pow(i));
  }

  /** One limb of multiply-and-subtract. */
  method SubMulWord(rl: Limb, ul: Limb, vl: Limb, cl: Limb) returns (r: Limb, c: Limb)
    ensures r + vl * ul + cl == rl + B * c
  {
    var hpl, lpl := Umul(ul, vl);
    ProductTop(ul, vl, hpl, lpl);
    lpl := AddW(lpl, cl);
    c := (if lpl < cl then 1 else 0) + hpl;
    r := SubW(rl, lpl);
    c := c + if r > rl then 1 else 0;
  }

  lemma {:induction false} ProductTop(u: Limb, v: Limb, h: Limb, l: Limb)
    requires h * B + l == u * v
    ensures h <= B - 2 && (h == B - 2 ==> l <= 1)
  {
    MulLe(u, v, B - 1);
    MulLe(B - 1, u, B - 1);
  }

  method SubMul1(rp: array<Limb>, o: nat, up: array<Limb>, n: nat, vl: Limb) returns (cl: Limb)
    requires o + n <= rp.Length && n <= up.Length && rp != up
    modifies rp
    ensures OnlyWindow(rp, o, n)
    ensures Val(rp[o..o + n]) - cl * Pow(n) == old(Val(rp[o..o + n])) - vl * Val(up[..n])
  {
    ghost var zs, us, rs: seq<Limb> := rp[o..o + n], up[..n], [];
    cl := 0;
    for i := 0 to n
      invariant OnlyWindow(rp, o, i)
      invariant |rs| == i && forall k :: 0 <= k < i ==> rp[o + k] == rs[k]
      invariant SubMulSoFar(rs, cl, zs, us, vl)
    {
      assert rp[o + i] == zs[i] && up[i] == us[i];
      var r, c := SubMulWord(rp[o + i], up[i], vl, cl);
      SubMulStep(rs, cl, zs, us, vl, r, c);
      cl := c;
      rp[o + i] := r;
      rs := rs + [r];
    }
    assert rp[o..o + n] == rs && zs[..n] == zs && us[..n] == us;
  }

  /* ---- Shifts ---- */

  /** c and t are the powers of two for a shift by cnt bits and by the rest of the word. */
  ghost predicate ShiftPair(c: int, t: int)
  {
    1 <= c && 1 <= t && c * t == B
  }

  lemma {:induction false} ShiftPairOf(cnt: nat)
    requires cnt <= 64
    ensures ShiftPair(Pow2(cnt), Pow2(64 - cnt))
  {
    WordPowers();
    Pow2Add(cnt, 64 - cnt);
  }

  /** The two parts of a word cut by a shift, and that they fit where they go. */
  lemma {:induction false} ShiftWord(u: Limb, c: int, t: int)
    requires ShiftPair(c, t)
    ensures c * u == B * (u / t) + (u % t) * c
    ensures 0 <= u / t < c && 0 <= (u % t) * c <= B - c
  {
    assert u == t * (u / t) + u % t;
    Dist(c, t * (u / t), u % t);
    Assoc(c, t, u / t);
    if c <= u / t { MulLe(t, c, u / t); }
    MulLe(c, 0, u % t);
    MulLe(c, u % t, t - 1);
    Dist(c, t, -1);
  }

  /** The word that a left shift leaves at position k > 0. */
  function LeftWord(us: seq<Limb>, k: nat, c: int, t: int): (w: int)
    requires 0 < k < |us| && 0 < t
  {
    (us[k] % t) * c + us[k - 1] / t
  }

  ghost predicate LeftSoFar(ss: seq<Limb>, high: int, ret: int, us: seq<Limb>, i: nat, c: int)
  {
    i < |us| && |ss| == |us| - 1 - i &&
    high + B * Val(ss) + ret * Pow(|us| - i) == c * Val(us[i..])
  }

  lemma {:induction false} LeftStep(ss: seq<Limb>, high: int, ret: int, us: seq<Limb>, i: nat, c: int, r: Limb, lo: int, high': int)
    requires LeftSoFar(ss, high, ret, us, i, c) && 0 < i
    requires r == high + lo && c * us[i - 1] == B * lo + high'
    ensures LeftSoFar([r] + ss, high', ret, us, i - 1, c)
  {
    ValSuffix(us, i - 1);
    assert ([r] + ss)[1..] == ss;
    Dist(c, us[i - 1], B * Val(us[i..]));
    Assoc(c, B, Val(us[i..]));
    Assoc(B, c, Val(us[i..]));
    Assoc(ret, B, Pow(|us| - i));
    Assoc(B, ret, Pow(|us| - i));
  }

  /** mpn_lshift: rp may be up itself, since the loop runs from the top. */
  method LShift(rp: array<Limb>, up: array<Limb>, n: nat, cnt: nat) returns (ret: Limb)
    requires 1 <= n <= rp.Length && n <= up.Length && 1 <= cnt < 64
    modifies rp
    ensures OnlyWindow(rp, 0, n) && ret < Pow2(cnt)
    ensures Val(rp[..n]) + ret * Pow(n) == Pow2(cnt) * old(Val(up[..n]))
    ensures forall k :: 0 < k < n ==> rp[k] == LeftWord(old(up[..n]), k, Pow2(cnt), Pow2(64 - cnt))
  {
    hide Val;
    hide Pow;
    hide LeftSoFar;
    var c, t := Pow2(cnt), Pow2(64 - cnt);
    ShiftPairOf(cnt);
    hide Pow2;
    ghost var us, ss: seq<Limb> := up[..n], [];
    ShiftWord(up[n - 1], c, t);
    ret := up[n - 1] / t;
    var high := (up[n - 1] % t) * c;
    LeftStart(us, c, high, ret);
    var i := n - 1;
    while i > 0
      invariant 0 <= i < n && 0 <= high <= B - c && high == (us[i] % t) * c
      invariant forall k :: 0 <= k < i ==> up[k] == us[k]
      invariant forall k :: n <= k < rp.Length ==> rp[k] == old(rp[k])
      invariant |ss| == n - 1 - i && LeftSoFar(ss, high, ret, us, i, c)
      invariant forall k :: i < k < n ==> rp[k] == ss[k - i - 1] == LeftWord(us, k, c, t)
    {
      var low := up[i - 1];
      ShiftWord(low, c, t);
      var r := high + low / t;
      LeftStep(ss, high, ret, us, i, c, r, low / t, (low % t) * c);
      rp[i] := r;
      ss := [r] + ss;
      high := (low % t) * c;
      i := i - 1;
    }
    rp[0] := high;
    assert rp[..n] == [high] + ss;
    LeftEnd(ss, high, ret, us, c);
  }

  lemma {:induction false} LeftEnd(ss: seq<Limb>, high: Limb, ret: int, us: seq<Limb>, c: int)
    requires LeftSoFar(ss, high, ret, us, 0, c)
    ensures Val([high] + ss) + ret * Pow(|us|) == c * Val(us)
  {
    assert us[0..] == us && ([high] + ss)[1..] == ss;
  }

  lemma {:induction false} LeftStart(us: seq<Limb>, c: int, high: int, ret: int)
    requires |us| > 0 && c * us[|us| - 1] == B * ret + high
    ensures LeftSoFar([], high, ret, us, |us| - 1, c)
  {
    assert us[|us| - 1..] == [us[|us| - 1]];
    assert Pow(1) == B * Pow(0);
  }

  /** c * (the words written) + c * low * Pow(i) + (the bits shifted out) is the input so far. */
  ghost predicate RightSoFar(rs: seq<Limb>, low: int, out: int, us: seq<Limb>, c: int)
  {
    |rs| < |us| && c * Val(rs) + (c * low) * Pow(|rs|) + out == Val(us[..|rs| + 1])
  }

  lemma {:induction false} RightStep(rs: seq<Limb>, low: int, out: int, us: seq<Limb>, c: int, r: Limb, hi: int, low': int)
    requires RightSoFar(rs, low, out, us, c) && |rs| + 1 < |us|
    requires r == low + hi && c * hi + B * (c * low') == B * us[|rs| + 1]
    ensures RightSoFar(rs + [r], low', out, us, c)
  {
    var i := |rs|;
    ValSnoc(rs, r);
    ValPrefix(us, i + 1);
    RightScale(c, Val(rs), low, hi, low', us[i + 1], Pow(i));
  }

  lemma {:induction false} RightScale(c: int, v: int, low: int, hi: int, low': int, u: int, p: int)
    requires c * hi + B * (c * low') == B * u
    ensures c * (v + (low + hi) * p) + (c * low') * (B * p) == c * v + (c * low) * p + u * (B * p)
  {
    assert c * (v + (low + hi) * p) == c * v + (c * low) * p + (c * hi) * p by {
      Dist(c, v, (low + hi) * p); Assoc(c, low + hi, p); Dist(c, low, hi); Dist(p, c * low, c * hi);
    }
    assert (c * hi) * p + (c * low') * (B * p) == u * (B * p) by {
      Dist(p, c * hi, B * (c * low')); Assoc(c * low', B, p); Assoc(u, B, p);
    }
  }

  lemma {:induction false} RightWord(u: Limb, c: int, t: int)
    requires ShiftPair(c, t)
    ensures 0 <= u / c < t && 0 <= (u % c) * t <= B - t
    ensures c * ((u % c) * t) + B * (c * (u / c)) == B * u
  {
    assert ShiftPair(t, c);
    ShiftWord(u, t, c);
    Assoc(c, u % c, t);
    Assoc(u % c, c, t);
  }

  /** mpn_rshift: rp may be up itself, since the loop runs from the bottom. */
  method RShift(rp: array<Limb>, up: array<Limb>, n: nat, cnt: nat) returns (ret: Limb)
    requires 1 <= n <= rp.Length && n <= up.Length && 1 <= cnt < 64
    modifies rp
    ensures OnlyWindow(rp, 0, n)
    ensures Pow2(cnt) * Val(rp[..n]) + old(up[0]) % Pow2(cnt) == old(Val(up[..n]))
    ensures ret == (old(up[0]) % Pow2(cnt)) * Pow2(64 - cnt)
  {
    var c, t := Pow2(cnt), Pow2(64 - cnt);
    ShiftPairOf(cnt);
    ghost var us, rs: seq<Limb> := up[..n], [];
    RightWord(up[0], c, t);
    ret := (up[0] % c) * t;
    var low := up[0] / c;
    ghost var out := up[0] % c;
    assert us[..1] == [us[0]];
    for i := 0 to n - 1
      invariant OnlyWindow(rp, 0, i) && 0 <= low < t
      invariant forall k :: i < k < n ==> up[k] == us[k]
      invariant |rs| == i && forall k :: 0 <= k < i ==> rp[k] == rs[k]
      invariant RightSoFar(rs, low, out, us, c)
    {
      var high := up[i + 1];
      RightWord(high, c, t);
      var r := low + (high % c) * t;
      RightStep(rs, low, out, us, c, r, (high % c) * t, high / c);
      rp[i] := r;
      rs := rs + [r];
      low := high / c;
    }
    rp[n - 1] := low;
    assert rp[..n] == rs + [low] && us[..n] == us;
    RightEnd(rs, low, c);
  }

  lemma {:induction false} RightEnd(rs: seq<Limb>, low: Limb, c: int)
    ensures c * Val(rs + [low]) == c * Val(rs) + (c * low) * Pow(|rs|)
  {
    ValSnoc(rs, low);
    Dist(c, Val(rs), low * Pow(|rs|));
    Assoc(c, low, Pow(|rs|));
  }

  /* ---- Counting leading zeros ---- */

  /** gmp_clz: byte steps, then bit steps. */
  method Clz(x: Limb) returns (cnt: nat)
    requires 0 < x
    ensures cnt < 64 && B <= 2 * (x * Pow2(cnt)) && x * Pow2(cnt) < B
  {
    var y: Limb := x;
    cnt := 0;
    BytePower();
    while y < 0x100_0000_0000_0000
      invariant 0 < y && y == x * Pow2(cnt)
      decreases B - y
    {
      Pow2Add(cnt, 8);
      Assoc(x, Pow2(cnt), 256);
      y := y * 256;
      cnt := cnt + 8;
    }
    while 2 * y < B
      invariant 0 < y && y == x * Pow2(cnt)
      decreases B - y
    {
      Assoc(x, Pow2(cnt), 2);
      y := y * 2;
      cnt := cnt + 1;
    }
    ClzBelow(x, cnt);
  }

  lemma {:induction false} ClzBelow(x: int, cnt: nat)
    requires 0 < x && x * Pow2(cnt) < B
    ensures cnt < 64
  {
    if 64 <= cnt {
      WordPowers();
      Pow2Monotone(64, cnt);
      MulLe(Pow2(cnt), 1, x);
    }
  }

  /* ---- Comparing and normalising ---- */

  lemma {:induction false} TopDecides(xs: seq<Limb>, ys: seq<Limb>, i: nat)
    requires i < |xs| == |ys| && xs[i + 1..] == ys[i + 1..] && xs[i] < ys[i]
    ensures Val(xs) < Val(ys)
  {
    ValSplit(xs, i);
    ValSplit(ys, i);
    ValSuffix(xs, i);
    ValSuffix(ys, i);
    ValBound(xs[..i]);
    LowPartIrrelevant(Val(xs[..i]), Val(ys[..i]), Pow(i), Val(xs[i..]), Val(ys[i..]));
  }

  lemma {:induction false} LowPartIrrelevant(a: int, b: int, p: int, v: int, w: int)
    requires 0 <= a < p && 0 <= b && v < w
    ensures a + p * v < b + p * w
  {
    MulLe(p, v + 1, w);
    Dist(p, v, 1);
  }

  method Cmp(ap: array<Limb>, bp: array<Limb>, n: nat) returns (c: int)
    requires n <= ap.Length && n <= bp.Length
    ensures -1 <= c <= 1
    ensures (c < 0) == (Val(ap[..n]) < Val(bp[..n])) && (c > 0) == (Val(ap[..n]) > Val(bp[..n]))
  {
    ghost var xs, ys := ap[..n], bp[..n];
    var i := n;
    while i > 0
      invariant 0 <= i <= n && xs[i..] == ys[i..]
    {
      i := i - 1;
      if ap[i] != bp[i] {
        if ap[i] > bp[i] {
          TopDecides(ys, xs, i);
          return 1;
        } else {
          TopDecides(xs, ys, i);
          return -1;
        }
      }
      assert xs[i..] == [xs[i]] + xs[i + 1..] && ys[i..] == [ys[i]] + ys[i + 1..];
    }
    return 0;
  }

  /** Number of limbs left once the zero limbs at the top are dropped. */
  method NormalizedSize(xp: array<Limb>, n0: nat) returns (n: nat)
    requires n0 <= xp.Length
    ensures n <= n0 && (n > 0 ==> xp[n - 1] != 0)
    ensures Val(xp[..n]) == Val(xp[..n0])
  {
    n := n0;
    while n > 0 && xp[n - 1] == 0
      invariant n <= n0 && Val(xp[..n]) == Val(xp[..n0])
    {
      ValPrefix(xp[..n], n - 1);
      assert xp[..n][..n - 1] == xp[..n - 1] && xp[..n][..n] == xp[..n];
      n := n - 1;
    }
  }
}
