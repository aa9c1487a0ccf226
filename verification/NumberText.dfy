/** Numbers as text: mpz_get_str, mpz_set_str and mpz_sizeinbase of mini-gmp. */
module NumberText {
  import opened Lengths
  import opened Arith
  import opened Limbs
  import opened PowerOfTwo
  import opened Mpn
  import opened MpnDivision
  import opened MpzObject
  import opened Digits
  import Radix
  import RadixBits

  /* ---- Characters ---- */

  predicate IsSpace(c: char)
  {
    c == ' ' || 9 <= c as int <= 13
  }

  /** The digit characters in their order, lower or upper case. */
  function DigitChar(d: nat, upper: bool): (c: char)
    requires d < 36
  {
    if d < 10 then ('0' as int + d) as char
    else if upper then ('A' as int + d - 10) as char
    else ('a' as int + d - 10) as char
  }

  /** What a character stands for; anything else is as large as the base. */
  function CharDigit(c: char, base: nat): nat
  {
    if '0' <= c <= '9' then c as int - '0' as int
    else if 'a' <= c <= 'z' then c as int - 'a' as int + 10
    else if 'A' <= c <= 'Z' then c as int - 'A' as int + 10
    else base
  }

  function Chars(ds: seq<nat>, upper: bool): (s: string)
    requires AreDigits(ds, 36)
    ensures |s| == |ds| && forall i :: 0 <= i < |ds| ==> s[i] == DigitChar(ds[i], upper)
  {
    seq(|ds|, i requires 0 <= i < |ds| => DigitChar(ds[i], upper))
  }

  /* ---- What a text means ---- */

  function SkipSpaces(s: string): string
  {
    if s != [] && IsSpace(s[0]) then SkipSpaces(s[1..]) else s
  }

  /** The digits of a text; spaces between them are skipped. */
  function DigitsOf(s: string, base: nat): Option<seq<nat>>
  {
    if s == [] then Some([])
    else if IsSpace(s[0]) then DigitsOf(s[1..], base)
    else if CharDigit(s[0], base) >= base then None
    else
      var rest := DigitsOf(s[1..], base);
      if rest.None? then None else Some([CharDigit(s[0], base)] + rest.value)
  }

  /** The base that a prefix asks for, and what comes after the prefix. */
  function DetectBase(s: string): (nat, string)
  {
    if s != [] && s[0] == '0' then
      if |s| > 1 && (s[1] == 'x' || s[1] == 'X') then (16, s[2..])
      else if |s| > 1 && (s[1] == 'b' || s[1] == 'B') then (2, s[2..])
      else (8, s)
    else (10, s)
  }

  /** What comes after the sign. */
  function ReadBody(t: string, base: nat, negative: bool): Option<int>
  {
    var bt: (nat, string) := if base == 0 then DetectBase(t) else (base, t);
    var ds := DigitsOf(bt.1, bt.0);
    if ds.None? || ds.value == [] then None
    else
      var v: int := Num(ds.value, bt.0);
      Some(if negative then -v else v)
  }

  function ReadText(text: string, base: nat): Option<int>
  {
    var s := SkipSpaces(text);
    var negative := s != [] && s[0] == '-';
    ReadBody(if negative then s[1..] else s, base, negative)
  }

  lemma {:induction false} SignedText(t: string, base: nat, negative: bool)
    requires t != [] && t[0] != '-' && !IsSpace(t[0])
    ensures ReadText((if negative then "-" else "") + t, base) == ReadBody(t, base, negative)
  {
    hide ReadBody;
    var s := (if negative then "-" else "") + t;
    if negative {
      assert s[0] == '-' && s[1..] == t;
    } else {
      assert s == t;
    }
    assert SkipSpaces(s) == s;
  }

  /** The text of a number: a sign, and its digits without a leading zero. */
  ghost predicate IsText(s: string, v: int, base: nat, upper: bool)
  {
    exists ds :: AreDigits(ds, base) && base <= 36 && ds != [] && (ds[0] == 0 ==> ds == [0]) &&
      Num(ds, base) == Abs(v) && s == (if v < 0 then "-" else "") + Chars(ds, upper)
  }

  /* ---- The round trip ---- */

  lemma {:induction false} CharRoundTrip(d: nat, base: nat, upper: bool)
    requires d < base <= 36
    ensures CharDigit(DigitChar(d, upper), base) == d && !IsSpace(DigitChar(d, upper)) && DigitChar(d, upper) != '-'
  {
  }

  lemma {:induction false} DigitsRoundTrip(ds: seq<nat>, base: nat, upper: bool)
    requires AreDigits(ds, base) && base <= 36
    ensures DigitsOf(Chars(ds, upper), base) == Some(ds)
  {
    if ds == [] {
    } else {
      CharRoundTrip(ds[0], base, upper);
      DigitsRoundTrip(ds[1..], base, upper);
      assert Chars(ds, upper)[1..] == Chars(ds[1..], upper);
      assert [ds[0]] + ds[1..] == ds;
    }
  }

  /** Reading the text of a number in its base gives the number. */
  lemma {:induction false} TextRoundTrip(s: string, v: int, base: nat, upper: bool)
    requires 2 <= base && IsText(s, v, base, upper)
    ensures ReadText(s, base) == Some(v)
  {
    hide Num;
    hide ReadText;
    hide DigitsOf;
    var ds :| AreDigits(ds, base) && base <= 36 && ds != [] && (ds[0] == 0 ==> ds == [0]) &&
      Num(ds, base) == Abs(v) && s == (if v < 0 then "-" else "") + Chars(ds, upper);
    CharRoundTrip(ds[0], base, upper);
    DigitsRoundTrip(ds, base, upper);
    SignedText(Chars(ds, upper), base, v < 0);
  }

  /** Which base is found out for a decimal text. */
  lemma {:induction false} DecimalDetected(ds: seq<nat>, upper: bool)
    requires AreDigits(ds, 10) && ds != [] && (ds[0] == 0 ==> ds == [0])
    ensures var t := Chars(ds, upper);
      t[0] != '-' && !IsSpace(t[0]) && DetectBase(t) == (if ds[0] == 0 then 8 else 10, t)
  {
    CharRoundTrip(ds[0], 10, upper);
  }

  /** A decimal text is also read back where the base is to be found out. */
  lemma {:induction false} DecimalRoundTrip(s: string, v: int, upper: bool)
    requires IsText(s, v, 10, upper)
    ensures ReadText(s, 0) == Some(v)
  {
    hide Num;
    hide DetectBase;
    hide DigitsOf;
    hide ReadText;
    var ds :| AreDigits(ds, 10) && ds != [] && (ds[0] == 0 ==> ds == [0]) &&
      Num(ds, 10) == Abs(v) && s == (if v < 0 then "-" else "") + Chars(ds, upper);
    DecimalDetected(ds, upper);
    SignedText(Chars(ds, upper), 0, v < 0);
    NumZero(10);
    NumZero(8);
    DigitsRoundTrip(ds, if ds[0] == 0 then 8 else 10, upper);
  }

  lemma {:induction false} NumZero(b: nat)
    ensures Num([0], b) == 0
  {
    assert Num([0][..0], b) == 0;
  }

  /* ---- The number of digits ---- */

  /** mpz_sizeinbase: the number of digits, which the text has, too. */
  method SizeInBase(u: Mpz, base: Limb) returns (n: nat)
    requires u.Valid() && 2 <= base <= 36
    ensures n == if u.size == 0 then 1 else DigitCount(u.Magnitude(), base)
  {
    hide DigitCount;
    hide Val;
    var un := Abs(u.size);
    if un == 0 { return 1; }
    ghost var us := u.d[..un];
    var bits := RadixBits.BaseBits(base);
    if bits > 0 {
      RadixBits.BaseBitsPower(base);
      n := RadixBits.DigitTotal(bits, u.d, un);
      DigitCountBetween(Val(us), base, n);
    } else {
      var tp := new Limb[un];
      forall k | 0 <= k < un {
        tp[k] := u.d[k];
      }
      assert tp[..un] == us;
      n := CountDigits(tp, un, base);
    }
  }

  lemma {:induction false} DigitCountBetween(v: nat, b: nat, n: nat)
    requires b >= 2 && n > 0 && IPow(b, n - 1) <= v < IPow(b, n)
    ensures DigitCount(v, b) == n
    decreases n
  {
    if n == 1 {
      assert IPow(b, 1) == b by { Radix.OnePower(b); }
      DivUnique(v, b, 0, v);
      assert DigitCount(0, b) == 0;
    } else {
      QuotientBetween(v, b, IPow(b, n - 2), IPow(b, n - 1));
      DigitCountBetween(v / b, b, n - 1);
    }
  }

  lemma {:induction false} QuotientBetween(v: nat, b: nat, p: nat, q: nat)
    requires b >= 2 && b * p <= v < b * q
    ensures p <= v / b < q
  {
    var t := v / b;
    assert v == b * t + v % b;
    if t < p {
      MulLe(b, t + 1, p);
      Dist(b, t, 1);
    }
    if t >= q {
      MulLe(b, q, t);
    }
  }

  method CountDigits(tp: array<Limb>, un0: nat, base: Limb) returns (n: nat)
    requires 2 <= base <= 36 && 0 < un0 <= tp.Length && tp[un0 - 1] != 0
    modifies tp
    ensures n == DigitCount(old(Val(tp[..un0])), base)
  {
    hide DigitCount;
    hide Val;
    hide Normalises1;
    ghost var v := Val(tp[..un0]);
    var inv := DivQr1Invert(base);
    var un := un0;
    n := 0;
    while true
      invariant 0 < un <= un0 && tp[un - 1] != 0
      invariant n + DigitCount(Val(tp[..un]), base) == DigitCount(v, base)
      decreases Val(tp[..un])
    {
      n := n + 1;
      ghost var us := tp[..un];
      var r, qs := DivQr1Preinv(tp, tp, un, inv, base);
      Radix.NonZeroTop(us);
      CountStep(Val(us), Val(qs), r, base);
      if tp[un - 1] == 0 {
        if un > 1 {
          Radix.OneLimbLess(us, qs, base, r);
        }
        DropZero(qs);
        assert tp[..un - 1] == qs[..un - 1];
        un := un - 1;
      }
      if un == 0 { break; }
    }
    assert tp[..0] == [];
    NothingLeft(base);
  }

  lemma {:induction false} NothingLeft(b: nat)
    requires b >= 2
    ensures DigitCount(Val([]), b) == 0
  {
  }

  lemma {:induction false} CountStep(v: nat, q: nat, r: nat, b: nat)
    requires v > 0 && b >= 2 && v == q * b + r && r < b
    ensures DigitCount(v, b) == 1 + DigitCount(q, b) && q < v
  {
    DivUnique(v, b, q, r);
    MulLe(q, 2, b);
  }

  /* ---- Writing ---- */

  /** mpz_get_str: the text of the number. Bases below two in magnitude mean ten,
      negative ones ask for capital letters; larger ones than 36 are refused. */
  method GetStr(base: int, u: Mpz) returns (s: Option<string>)
    requires u.Valid()
    ensures s.None? <==> base > 36 || base < -36
    ensures s.Some? ==> IsText(s.value, u.Int(), EffectiveBase(base), base < 0)
    ensures s.Some? && u.size != 0 ==>
      |s.value| == DigitCount(u.Magnitude(), EffectiveBase(base)) + if u.size < 0 then 1 else 0
    ensures u.size == old(u.size) && u.d == old(u.d) && u.d[..] == old(u.d[..])
  {
    hide Num;
    hide Val;
    hide DigitCount;
    var upper := base < 0;
    var b := EffectiveBase(base);
    if b > 36 { return None; }
    var un := Abs(u.size);
    var text := if u.size < 0 then "-" else "";
    var ds: seq<nat>;
    if un == 0 {
      ds := [0];
      ZeroText(b);
      assert u.d[..0] == [];
      EmptyIsZero();
    } else {
      ds := DigitsOfLimbs(u, un, b);
      CountText(ds, b, u.Magnitude());
      Radix.NonZeroTop(u.d[..un]);
    }
    text := text + Chars(ds, upper);
    s := Some(text);
    assert IsText(text, u.Int(), b, upper) by {
      assert AreDigits(ds, b) && ds != [] && (ds[0] == 0 ==> ds == [0]);
      assert Num(ds, b) == Abs(u.Int());
      assert text == (if u.Int() < 0 then "-" else "") + Chars(ds, upper);
    }
  }

  function EffectiveBase(base: int): (b: nat)
    ensures b >= 2
  {
    var b := if base < 0 then -base else base;
    if b <= 1 then 10 else b
  }

  lemma {:induction false} ZeroText(b: nat)
    requires b >= 2
    ensures AreDigits([0], b) && Num([0], b) == 0
  {
    NumZero(b);
  }

  /** Digits without a leading zero are as many as the number has. */
  lemma {:induction false} CountText(ds: seq<nat>, b: nat, v: nat)
    requires b >= 2 && AreDigits(ds, b) && ds != [] && ds[0] != 0 && Num(ds, b) == v
    ensures DigitCount(v, b) == |ds|
  {
    var low := Reversed(ds);
    assert Reversed(low) == ds;
    NumReversed(low, b);
    CountOfDigits(low, b);
  }

  /** The digits on the one path or the other. */
  method DigitsOfLimbs(u: Mpz, un: nat, b: Limb) returns (ds: seq<nat>)
    requires u.Valid() && 0 < un == Abs(u.size) && 2 <= b <= 36
    ensures AreDigits(ds, b) && Num(ds, b) == u.Magnitude() && ds != [] && ds[0] != 0
  {
    hide Num;
    hide Val;
    var bits := RadixBits.BaseBits(b);
    if bits > 0 {
      RadixBits.BaseBitsPower(b);
      ds := RadixBits.GetStrBits(bits, u.d, un);
    } else {
      var exp, bb := Radix.GetBaseInfo(b);
      var tp := new Limb[un];
      forall k | 0 <= k < un {
        tp[k] := u.d[k];
      }
      assert tp[..un] == u.d[..un];
      ds := Radix.GetStrOther(b, exp, bb, tp, un);
    }
  }

  /* ---- Reading ---- */

  /** The loop over the digits of a text. */
  method ParseDigits(s: string, base: nat) returns (ok: bool, dp: seq<nat>)
    ensures ok == DigitsOf(s, base).Some?
    ensures ok ==> dp == DigitsOf(s, base).value && AreDigits(dp, base)
  {
    dp := [];
    var i := 0;
    assert s[0..] == s;
    while i < |s|
      invariant 0 <= i <= |s| && AreDigits(dp, base)
      invariant DigitsOf(s, base).Some? == DigitsOf(s[i..], base).Some?
      invariant DigitsOf(s, base).Some? ==> DigitsOf(s, base).value == dp + DigitsOf(s[i..], base).value
    {
      assert s[i..][0] == s[i] && s[i..][1..] == s[i + 1..];
      if !IsSpace(s[i]) {
        var digit := CharDigit(s[i], base);
        if digit >= base {
          return false, dp;
        }
        dp := dp + [digit];
      }
      i := i + 1;
    }
    assert s[i..] == [];
    ok := true;
  }

  /** mpz_set_str: the number that the text means, or -1 and zero. */
  method SetStr(r: Mpz, text: string, base0: nat) returns (ret: int)
    requires r.Valid() && (base0 == 0 || 2 <= base0 <= 36)
    modifies r, r.d
    ensures r.Valid()
    ensures ret == (if ReadText(text, base0).Some? then 0 else -1)
    ensures r.Int() == if ret == 0 then ReadText(text, base0).value else 0
    ensures r.d == old(r.d) || fresh(r.d)
  {
    hide Num;
    hide Val;
    var sp := Trim(text);
    var sign := sp != [] && sp[0] == '-';
    if sign {
      sp := sp[1..];
    }
    var base := base0;
    if base == 0 {
      var found := DetectBase(sp);
      base, sp := found.0, found.1;
    }
    if sp == [] {
      SetZero(r);
      return -1;
    }
    var ok, dp := ParseDigits(sp, base);
    if !ok || dp == [] {
      SetZero(r);
      return -1;
    }
    var rn := LimbsOfDigits(r, dp, base);
    var size: int := rn;
    r.size := if sign then -size else size;
    ret := 0;
    if rn == 0 {
      assert r.d[..0] == [];
      EmptyIsZero();
    }
  }

  method Trim(text: string) returns (s: string)
    ensures s == SkipSpaces(text)
  {
    s := text;
    while s != [] && IsSpace(s[0])
      invariant SkipSpaces(s) == SkipSpaces(text)
      decreases |s|
    {
      s := s[1..];
    }
  }

  method SetZero(r: Mpz)
    requires r.Valid()
    modifies r`size
    ensures r.Valid() && r.Int() == 0
  {
    r.size := 0;
    assert r.d[..0] == [];
    EmptyIsZero();
  }

  /** The limbs on the one path or the other. */
  method LimbsOfDigits(r: Mpz, dp: seq<nat>, base: Limb) returns (rn: nat)
    requires r.Valid() && 2 <= base <= 36 && AreDigits(dp, base) && dp != []
    modifies r`d, r.d
    ensures BufferOnly(r) && Stores(r.d, rn, Num(dp, base))
  {
    hide Num;
    hide Val;
    var bits := RadixBits.BaseBits(base);
    if bits > 0 {
      RadixBits.BaseBitsPower(base);
      var alloc := (|dp| * bits + 63) / 64;
      Realloc(r, alloc);
      rn := RadixBits.SetStrBits(r.d, dp, bits);
    } else {
      var exp, bb := Radix.GetBaseInfo(base);
      var alloc := Radix.LimbsFor(|dp|, exp);
      Realloc(r, alloc);
      rn := Radix.SetStrOther(r.d, dp, base, exp, bb);
      if r.d[rn - 1] == 0 {
        DropZero(r.d[..rn]);
        assert r.d[..rn][..rn - 1] == r.d[..rn - 1];
        rn := rn - 1;
      }
      assert r.d == old(r.d) || fresh(r.d);
      assert rn > 0 ==> r.d[rn - 1] != 0;
      assert Val(r.d[..rn]) == Num(dp, base);
    }
  }
}
