/** Limb arrays from and to digits in bases that are powers of two, by packing and
    unpacking bits. */
module RadixBits {
  import opened Arith
  import opened Limbs
  import opened PowerOfTwo
  import opened Bits
  import opened BinopFold
  import opened Mpn
  import opened Digits
  import MpzObject
  import Radix

  /** mpn_base_power_of_two_p */
  function BaseBits(b: nat): (bits: nat)
    ensures bits <= 8
  {
    if b == 2 then 1
    else if b == 4 then 2
    else if b == 8 then 3
    else if b == 16 then 4
    else if b == 32 then 5
    else if b == 64 then 6
    else if b == 128 then 7
    else if b == 256 then 8
    else 0
  }

  /** The powers of two from the first to the eighth are recognised, with their
      exponents, and no other base. */
  lemma {:induction false} BaseBitsPower(b: nat)
    ensures BaseBits(b) > 0 ==> b == Pow2(BaseBits(b))
    ensures BaseBits(b) == 0 <==> forall k: nat :: 1 <= k <= 8 ==> b != Pow2(k)
  {
    assert Pow2(0) == 1 && Pow2(1) == 2 * Pow2(0) && Pow2(2) == 2 * Pow2(1);
    assert Pow2(3) == 2 * Pow2(2) && Pow2(4) == 2 * Pow2(3) && Pow2(5) == 2 * Pow2(4);
    assert Pow2(6) == 2 * Pow2(5) && Pow2(7) == 2 * Pow2(6) && Pow2(8) == 2 * Pow2(7);
  }

  lemma {:induction false} PowerOfBase(bits: nat, n: nat)
    ensures IPow(Pow2(bits), n) == Pow2(bits * n)
  {
    if n == 0 {
    } else {
      PowerOfBase(bits, n - 1);
      Dist(bits, n - 1, 1);
      Pow2Add(bits, bits * (n - 1));
    }
  }

  /** mpn_limb_size_in_base_2 */
  method LimbSize(u: Limb) returns (s: nat)
    requires u > 0
    ensures 1 <= s <= 64 && Pow2(s - 1) <= u < Pow2(s)
  {
    var shift := Clz(u);
    s := 64 - shift;
    Pow2Add(shift, s);
    Pow2Add(shift, s - 1);
    WordPowers();
    hide Pow2;
    SizeFromShift(u, Pow2(shift), Pow2(s), Pow2(s - 1));
  }

  lemma {:induction false} SizeFromShift(u: int, c: int, t: int, h: int)
    requires 0 < c && c * t == B && 2 * (c * h) == B && B <= 2 * (u * c) && u * c < B
    ensures h <= u < t
  {
    if u >= t {
      MulLe(c, t, u);
    }
    if u < h {
      MulLe(c, u, h - 1);
      DistSub(c, h, 1);
    }
  }

  /** The bits of a number whose top limb has s bits. */
  lemma {:induction false} NumberSize(us: seq<Limb>, s: nat)
    requires us != [] && 1 <= s <= 64 && Pow2(s - 1) <= us[|us| - 1] < Pow2(s)
    ensures var bits := (|us| - 1) * 64 + s; Pow2(bits - 1) <= Val(us) < Pow2(bits)
  {
    hide Val;
    hide Pow;
    var n := |us| - 1;
    ValTop(us);
    PowBits(n);
    Pow2Add(64 * n, s);
    Pow2Add(64 * n, s - 1);
    hide Pow2;
    MulLe(Pow(n), us[n], Pow2(s) - 1);
    MulLe(Pow(n), Pow2(s - 1), us[n]);
    DistSub(Pow(n), Pow2(s), 1);
  }

  lemma {:induction false} PowBits(n: nat)
    ensures Pow(n) == Pow2(64 * n)
  {
    if n == 0 {
    } else {
      PowBits(n - 1);
      WordPowers();
      Pow2Add(64, 64 * (n - 1));
    }
  }

  /** How many digits so many bits are. */
  lemma {:induction false} DigitsOfBits(v: nat, size: nat, bits: nat)
    requires bits > 0 && size > 0 && Pow2(size - 1) <= v < Pow2(size)
    ensures var sn := (size + bits - 1) / bits;
      sn > 0 && IPow(Pow2(bits), sn - 1) <= v < IPow(Pow2(bits), sn)
  {
    var sn := (size + bits - 1) / bits;
    CeilBounds(size, bits);
    PowerOfBase(bits, sn);
    PowerOfBase(bits, sn - 1);
    Pow2Monotone(bits * (sn - 1), size - 1);
    Pow2Monotone(size, bits * sn);
  }

  lemma {:induction false} CeilBounds(size: nat, bits: nat)
    requires bits > 0 && size > 0
    ensures var sn := (size + bits - 1) / bits; sn > 0 && 0 <= bits * (sn - 1) < size <= bits * sn
  {
    var sn := (size + bits - 1) / bits;
    var r := (size + bits - 1) % bits;
    assert size + bits - 1 == bits * sn + r;
    DistSub(bits, sn, 1);
    if sn <= 0 {
      MulLe(bits, sn, 0);
    }
    MulLe(bits, 0, sn - 1);
  }

  /* ---- From limbs to digits ---- */

  /** unsigned char */
  function Char(x: nat): nat
  {
    x % 256
  }

  lemma {:induction false} OrOfChars(x: nat, y: nat)
    ensures NatBits(Or, Char(x), Char(y)) == Char(NatBits(Or, x, y))
  {
    hide Bitwise;
    BytePower();
    hide Pow2;
    BitwiseSign(Or, x / 256, y / 256);
    BitwiseBlock(Or, x % 256, x / 256, y % 256, y / 256, 8);
  }

  lemma {:induction false} RemainderOfChar(z: nat, bits: nat)
    requires bits <= 8
    ensures Char(z) % Pow2(bits) == z % Pow2(bits)
  {
    BytePower();
    Pow2Add(bits, 8 - bits);
    hide Pow2;
    SmallerModulus(z, Pow2(bits), Pow2(8 - bits));
  }

  /** The two parts of a digit that lies in two limbs. */
  lemma {:induction false} DigitBits(x: nat, u: nat, k: nat, bits: nat)
    requires x < Pow2(k) && bits <= 8
    ensures NatBits(And, NatBits(Or, Char(x), Char(Shl(u, k))), Ones(bits)) == (x + Pow2(k) * u) % Pow2(bits)
  {
    hide Bitwise;
    hide Pow2;
    MulLe(Pow2(k), 0, u);
    OrOfChars(x, Shl(u, k));
    BitwiseBlock(Or, x, 0, 0, u, k);
    BitwiseConstant(Or, x);
    BitwiseConstant(Or, u);
    BitwiseCommutes(Or, 0, u);
    assert x + Pow2(k) * 0 == x && 0 + Pow2(k) * u == Shl(u, k);
    var z := NatBits(Or, x, Shl(u, k));
    LowBits(Char(z), bits);
    RemainderOfChar(z, bits);
  }

  /** What is left of the number from bit shift of limb i on. */
  ghost predicate Rest(rest: nat, us: seq<Limb>, i: nat, shift: nat)
  {
    if i < |us| then shift < 64 && rest == Shr(us[i], shift) + Pow2(64 - shift) * Val(us[i + 1..])
    else rest == 0
  }

  /** The digit lies within one limb. */
  lemma {:induction false} DigitInside(rest: nat, us: seq<Limb>, i: nat, shift: nat, bits: nat)
    requires Rest(rest, us, i, shift) && i < |us| && shift + bits < 64
    ensures rest % Pow2(bits) == Shr(us[i], shift) % Pow2(bits)
    ensures Rest(Shr(rest, bits), us, i, shift + bits)
  {
    hide Val;
    Pow2Add(bits, 64 - shift - bits);
    Pow2Add(shift, bits);
    hide Pow2;
    var b, t, v := Pow2(bits), Pow2(64 - shift - bits), Val(us[i + 1..]);
    var x := Shr(us[i], shift);
    Assoc(b, t, v);
    DivDiv(us[i], Pow2(shift), b);
    LowDigit(x, t * v, b);
  }

  lemma {:induction false} LowDigit(x: nat, w: int, b: nat)
    requires 0 < b
    ensures (x + b * w) % b == x % b && (x + b * w) / b == x / b + w
  {
    assert x == b * (x / b) + x % b;
    Dist(b, x / b, w);
    DivUnique(x + b * w, b, x / b + w, x % b);
  }

  /** The number from the middle of a limb on, with the next limb taken out. */
  lemma {:induction false} RestAcross(rest: nat, us: seq<Limb>, i: nat, shift: nat)
    requires Rest(rest, us, i, shift) && i + 1 < |us|
    ensures 0 <= B * Val(us[i + 2..])
    ensures rest == Shr(us[i], shift) + Pow2(64 - shift) * (us[i + 1] + B * Val(us[i + 2..]))
    ensures Shr(us[i], shift) < Pow2(64 - shift)
  {
    hide Val;
    Pow2Add(64 - shift, shift);
    WordPowers();
    ValSuffix(us, i + 1);
    hide Pow2;
    HighPartBelow(us[i], Pow2(shift), Pow2(64 - shift));
  }

  lemma {:induction false} WholeSplit(s: nat)
    requires s <= 64
    ensures Pow2(s) * Pow2(64 - s) == B && B % Pow2(s) == 0
  {
    Pow2Add(s, 64 - s);
    WordPowers();
    hide Pow2;
    DivisorOf(Pow2(s), Pow2(64 - s));
  }

  lemma {:induction false} DivisorOf(p: nat, q: nat)
    requires 0 < p && p * q == B
    ensures B % p == 0
  {
    DivUnique(p * q, p, q, 0);
  }

  /** The digit ends in the next limb. */
  lemma {:induction false} DigitAcross(rest: nat, us: seq<Limb>, i: nat, shift: nat, bits: nat)
    requires Rest(rest, us, i, shift) && i + 1 < |us| && bits <= 8 && shift + bits >= 64
    ensures var x, k := Shr(us[i], shift), 64 - shift;
      x < Pow2(k) && rest % Pow2(bits) == (x + Pow2(k) * us[i + 1]) % Pow2(bits)
  {
    hide Val;
    var k, s := 64 - shift, shift + bits - 64;
    Pow2Add(k, s);
    hide Pow2;
    hide Shr;
    hide Rest;
    RestAcross(rest, us, i, shift);
    WholeSplit(s);
    AcrossDigit(Shr(us[i], shift), Pow2(k), Pow2(s), us[i + 1], Val(us[i + 2..]));
  }

  lemma {:induction false} RestAfter(rest: nat, us: seq<Limb>, i: nat, shift: nat, bits: nat)
    requires Rest(rest, us, i, shift) && i + 1 < |us| && bits <= 8 && shift + bits >= 64
    ensures Rest(Shr(rest, bits), us, i + 1, shift + bits - 64)
  {
    hide Val;
    hide Pow2;
    hide Shr;
    RestAcross(rest, us, i, shift);
    AcrossShift(Shr(us[i], shift), 64 - shift, shift + bits - 64, us[i + 1], Val(us[i + 2..]));
  }

  lemma {:induction false} AcrossShift(x: nat, k: nat, s: nat, u: nat, v: nat)
    requires x < Pow2(k) && s <= 64
    ensures 0 <= Pow2(k) * (u + B * v)
    ensures Shr(x + Pow2(k) * (u + B * v), k + s) == Shr(u, s) + Pow2(64 - s) * v
  {
    Pow2Add(k, s);
    hide Pow2;
    WholeSplit(s);
    MulLe(Pow2(k), 0, u + B * v);
    AcrossRest(x, Pow2(k), Pow2(s), Pow2(64 - s), u, v);
  }

  lemma {:induction false} HighPartBelow(u: Limb, p: nat, t: nat)
    requires 0 < p && t * p == B
    ensures u / p < t
  {
    if u / p >= t {
      MulLe(p, t, u / p);
    }
  }

  /** The limbs above do not matter for the digit. */
  lemma {:induction false} AcrossDigit(x: nat, t: nat, c: nat, u: nat, v: nat)
    requires 0 < t && 0 < c && B % c == 0
    ensures 0 < t * c && (x + t * (u + B * v)) % (t * c) == (x + t * u) % (t * c)
  {
    var m := B / c;
    assert B == c * m;
    MulLe(t, 1, c);
    MulLe(t, 0, u);
    Dist(t, u, B * v);
    Assoc(c, m, v);
    Assoc(t, c, m * v);
    LowDigit(x + t * u, m * v, t * c);
  }

  lemma {:induction false} AcrossRest(x: nat, t: nat, c: nat, h: nat, u: nat, v: nat)
    requires x < t && 0 < c && c * h == B
    ensures 0 < t * c && (x + t * (u + B * v)) / (t * c) == u / c + h * v
  {
    MulLe(t, 1, c);
    Assoc(c, h, v);
    LowDigit(u, h * v, c);
    var w := u + B * v;
    DivDiv(x + t * w, t, c);
    DivUnique(x + t * w, t, w, x);
  }

  /** The last limb is used up. */
  lemma {:induction false} DigitLast(rest: nat, us: seq<Limb>, i: nat, shift: nat, bits: nat)
    requires Rest(rest, us, i, shift) && i + 1 == |us| && bits <= 8 && shift + bits >= 64
    ensures rest == Shr(us[i], shift) && rest < Pow2(bits)
    ensures Rest(Shr(rest, bits), us, i + 1, shift + bits)
  {
    assert us[i + 1..] == [];
    Pow2Add(64 - shift, shift);
    WordPowers();
    Pow2Monotone(64 - shift, bits);
    hide Pow2;
    HighPartBelow(us[i], Pow2(shift), Pow2(64 - shift));
    DivUnique(rest, Pow2(bits), 0, rest);
  }

  lemma {:induction false} RestStart(us: seq<Limb>)
    requires us != []
    ensures Rest(Val(us), us, 0, 0)
  {
    WordPowers();
    assert Pow2(0) == 1;
    hide Pow2;
    assert us[0..] == us;
    ValSuffix(us, 0);
  }

  function LowestDigit(rest: nat, bits: nat): nat
  {
    rest % Pow2(bits)
  }

  lemma {:induction false} MaskedDigit(x: nat, bits: nat)
    requires bits <= 8
    ensures NatBits(And, Char(x), Ones(bits)) == x % Pow2(bits)
  {
    hide Bitwise;
    LowBits(Char(x), bits);
    RemainderOfChar(x, bits);
  }

  /** The three places of a digit, masked. */
  lemma {:induction false} MaskedInside(rest: nat, us: seq<Limb>, i: nat, shift: nat, bits: nat)
    requires Rest(rest, us, i, shift) && i < |us| && bits <= 8 && shift + bits < 64
    ensures NatBits(And, Char(Shr(us[i], shift)), Ones(bits)) == LowestDigit(rest, bits)
    ensures Rest(Shr(rest, bits), us, i, shift + bits)
  {
    hide Rest;
    hide NatBits;
    hide Char;
    DigitInside(rest, us, i, shift, bits);
    MaskedDigit(Shr(us[i], shift), bits);
  }

  lemma {:induction false} MaskedAcross(rest: nat, us: seq<Limb>, i: nat, shift: nat, bits: nat)
    requires Rest(rest, us, i, shift) && i + 1 < |us| && bits <= 8 && shift <= 64 <= shift + bits
    ensures NatBits(And, NatBits(Or, Char(Shr(us[i], shift)), Char(Shl(us[i + 1], 64 - shift))), Ones(bits))
      == LowestDigit(rest, bits)
    ensures Rest(Shr(rest, bits), us, i + 1, shift + bits - 64)
  {
    hide Rest;
    hide NatBits;
    hide Char;
    hide Shl;
    hide Shr;
    hide Pow2;
    DigitAcross(rest, us, i, shift, bits);
    RestAfter(rest, us, i, shift, bits);
    DigitBits(Shr(us[i], shift), us[i + 1], 64 - shift, bits);
  }

  lemma {:induction false} MaskedLast(rest: nat, us: seq<Limb>, i: nat, shift: nat, bits: nat)
    requires Rest(rest, us, i, shift) && i + 1 == |us| && bits <= 8 && shift + bits >= 64
    ensures NatBits(And, Char(Shr(us[i], shift)), Ones(bits)) == LowestDigit(rest, bits)
    ensures Rest(Shr(rest, bits), us, i + 1, shift + bits)
  {
    hide Rest;
    hide NatBits;
    hide Char;
    hide Shr;
    hide Pow2;
    DigitLast(rest, us, i, shift, bits);
    MaskedDigit(Shr(us[i], shift), bits);
  }

  /** One digit, and where the next one starts. */
  method NextDigit(up: array<Limb>, un: nat, i0: nat, shift0: nat, bits: nat, ghost us: seq<Limb>, ghost rest: nat)
    returns (digit: nat, i: nat, shift: nat)
    requires un <= up.Length && us == up[..un] && i0 < un && 1 <= bits <= 8 && Rest(rest, us, i0, shift0)
    ensures digit == LowestDigit(rest, bits) && i <= un && Rest(Shr(rest, bits), us, i, shift)
  {
    hide Val;
    hide Pow2;
    hide Shr;
    hide Shl;
    hide Char;
    hide NatBits;
    hide LowestDigit;
    hide Rest;
    RestPlace(rest, us, i0, shift0);
    i, shift := i0, shift0;
    var mask := Ones(bits);
    digit := Char(Shr(up[i], shift));
    shift := shift + bits;
    if shift >= 64 {
      i := i + 1;
      if i < un {
        shift := shift - 64;
        MaskedAcross(rest, us, i0, shift0, bits);
        digit := NatBits(Or, digit, Char(Shl(up[i], bits - shift)));
        digit := NatBits(And, digit, mask);
      } else {
        MaskedLast(rest, us, i0, shift0, bits);
        digit := NatBits(And, digit, mask);
      }
    } else {
      MaskedInside(rest, us, i0, shift0, bits);
      digit := NatBits(And, digit, mask);
    }
  }

  lemma {:induction false} RestPlace(rest: nat, us: seq<Limb>, i: nat, shift: nat)
    requires Rest(rest, us, i, shift) && i < |us|
    ensures shift < 64
  {
  }

  /** What is written from the end on, and what is left of the number. */
  ghost predicate Written(v: nat, low: seq<nat>, rest: nat, b: nat)
    requires b > 0
  {
    AreDigits(low, b) && v == NumLow(low, b) + IPow(b, |low|) * rest
  }

  lemma {:induction false} WrittenMore(v: nat, low: seq<nat>, rest: nat, bits: nat)
    requires Written(v, low, rest, Pow2(bits))
    ensures Written(v, low + [LowestDigit(rest, bits)], Shr(rest, bits), Pow2(bits))
  {
    hide Pow2;
    hide NumLow;
    hide IPow;
    var b := Pow2(bits);
    Radix.RestStep(v, low, rest, Shr(rest, bits), rest % b, b);
  }

  lemma {:induction false} RestPositive(v: nat, low: seq<nat>, rest: nat, b: nat, sn: nat)
    requires b > 0 && Written(v, low, rest, b) && |low| < sn && IPow(b, sn - 1) <= v
    ensures rest > 0
  {
    hide NumLow;
    NumLowBound(low, b);
    Radix.IPowMonotone(b, |low|, sn - 1);
  }

  lemma {:induction false} RestGone(v: nat, low: seq<nat>, rest: nat, b: nat, sn: nat)
    requires b > 0 && Written(v, low, rest, b) && |low| == sn && v < IPow(b, sn)
    ensures NumLow(low, b) == v
    ensures sn > 0 && IPow(b, sn - 1) <= v ==> low[sn - 1] != 0
  {
    hide NumLow;
    if rest > 0 {
      MulLe(IPow(b, sn), 1, rest);
    }
    Radix.TimesZero(IPow(b, sn));
    if sn > 0 && IPow(b, sn - 1) <= v && low[sn - 1] == 0 {
      var k := sn - 1;
      assert low == low[..k] + [0];
      NumLowSnoc(low[..k], 0, b);
      Radix.TimesZero(IPow(b, k));
      NumLowBound(low[..k], b);
      assert false;
    }
  }

  /** The number of digits to write. */
  method DigitTotal(bits: nat, up: array<Limb>, un: nat) returns (sn: nat)
    requires 1 <= bits <= 8 && 0 < un <= up.Length && up[un - 1] != 0
    ensures sn > 0 && IPow(Pow2(bits), sn - 1) <= Val(up[..un]) < IPow(Pow2(bits), sn)
  {
    hide Val;
    hide IPow;
    hide Pow2;
    ghost var us := up[..un];
    var s := LimbSize(up[un - 1]);
    NumberSize(us, s);
    DigitsOfBits(Val(us), (un - 1) * 64 + s, bits);
    sn := ((un - 1) * 64 + s + bits - 1) / bits;
  }

  /** mpn_get_str_bits: the digits of the number, most significant first and
      without a leading zero. */
  method GetStrBits(bits: nat, up: array<Limb>, un: nat) returns (sp: seq<nat>)
    requires 1 <= bits <= 8 && 0 < un <= up.Length && up[un - 1] != 0
    ensures AreDigits(sp, Pow2(bits)) && Num(sp, Pow2(bits)) == Val(up[..un])
    ensures sp != [] && sp[0] != 0
  {
    hide Val;
    hide Num;
    hide NumLow;
    hide IPow;
    hide Rest;
    hide Written;
    ghost var us := up[..un];
    ghost var v := Val(us);
    hide Pow2;
    hide Shr;
    hide LowestDigit;
    var sn := DigitTotal(bits, up, un);
    ghost var b := Pow2(bits);
    sp := seq(sn, i => 0);
    var i: nat, j: nat, shift: nat := 0, sn, 0;
    ghost var low: seq<nat>, rest := [], v;
    RestStart(us);
    WrittenNone(v, b);
    while j > 0
      invariant 0 <= j <= sn == |sp| && |low| == sn - j && i <= un
      invariant Rest(rest, us, i, shift) && Written(v, low, rest, b)
      invariant forall k :: j <= k < sn ==> sp[k] == low[sn - 1 - k]
    {
      RestPositive(v, low, rest, b, sn);
      RestInside(rest, us, i, shift);
      j := j - 1;
      var digit;
      WrittenMore(v, low, rest, bits);
      digit, i, shift := NextDigit(up, un, i, shift, bits, us, rest);
      low, rest := low + [digit], Shr(rest, bits);
      sp := sp[j := digit];
    }
    RestGone(v, low, rest, b, sn);
    WrittenDigits(v, low, rest, b);
    AllCollected(sp, low);
    NumReversed(low, b);
  }

  lemma {:induction false} WrittenNone(v: nat, b: nat)
    requires b > 0
    ensures Written(v, [], v, b)
  {
  }

  lemma {:induction false} WrittenDigits(v: nat, low: seq<nat>, rest: nat, b: nat)
    requires b > 0 && Written(v, low, rest, b)
    ensures AreDigits(low, b)
  {
  }

  lemma {:induction false} RestInside(rest: nat, us: seq<Limb>, i: nat, shift: nat)
    requires Rest(rest, us, i, shift) && rest > 0
    ensures i < |us|
  {
  }

  /* ---- From digits to limbs ---- */

  /** The limbs hold the number of the digits so far; the top one is only filled up
      to bit shift. */
  ghost predicate Packed(ls: seq<Limb>, shift: nat, v: nat, filled: nat)
  {
    && Val(ls) == v && shift < 64
    && filled == 64 * |ls| - (if shift == 0 then 0 else 64 - shift)
    && (shift > 0 ==> ls != [] && ls[|ls| - 1] < Pow2(shift))
  }

  /** A digit at the bottom of a new limb. */
  lemma {:induction false} PackNew(ls: seq<Limb>, v: nat, filled: nat, d: Limb, bits: nat)
    requires Packed(ls, 0, v, filled) && d < Pow2(bits) && 0 < bits < 64
    ensures Packed(ls + [d], bits, v + Shl(d, filled), filled + bits)
  {
    hide Val;
    ValSnoc(ls, d);
    PowBits(|ls|);
  }

  /** rp |= digit << shift */
  function PlaceDigit(top: nat, d: nat, shift: nat): (w: nat)
  {
    BitwiseSign(Or, top, Shl(d, shift) % B);
    Bitwise(Or, top, Shl(d, shift) % B)
  }

  lemma {:induction false} PlacedDigit(top: nat, d: nat, shift: nat)
    requires shift < 64 && top < Pow2(shift)
    ensures 0 <= Pow2(shift) * (d % Pow2(64 - shift))
    ensures PlaceDigit(top, d, shift) == top + Pow2(shift) * (d % Pow2(64 - shift)) < B
  {
    hide Bitwise;
    Pow2Add(shift, 64 - shift);
    WordPowers();
    hide Pow2;
    var p, t := Pow2(shift), Pow2(64 - shift);
    var r := d % t;
    CutShift(d, p, t);
    BitwiseBlock(Or, top, 0, 0, r, shift);
    BitwiseConstant(Or, top);
    BitwiseConstant(Or, r);
    BitwiseCommutes(Or, 0, r);
    assert top + p * 0 == top && 0 + p * r == p * r;
    BlockBelow(top, r, p, t);
  }

  lemma {:induction false} CutShift(d: nat, p: nat, t: nat)
    requires 0 < p && 0 < t && p * t == B
    ensures 0 <= p * (d % t) && 0 <= p * d && (p * d) % B == p * (d % t)
  {
    var q, r := d / t, d % t;
    assert d == t * q + r;
    Dist(p, t * q, r);
    Assoc(p, t, q);
    MulLe(p, 0, r);
    MulLe(p, 0, d);
    MulLe(p, r, t - 1);
    DistSub(p, t, 1);
    DivUnique(p * d, B, q, p * r);
  }

  /** The value of limbs when the top one grows. */
  lemma {:induction false} TopGrows(ls: seq<Limb>, w: Limb, shift: nat, x: nat)
    requires ls != [] && 0 < shift < 64 && 0 <= Pow2(shift) * x && w == ls[|ls| - 1] + Pow2(shift) * x
    ensures Val(ls[..|ls| - 1] + [w]) == Val(ls) + Shl(x, 64 * (|ls| - 1) + shift)
  {
    hide Val;
    hide Pow;
    var n := |ls| - 1;
    ValTop(ls);
    ValSnoc(ls[..n], w);
    PowBits(n);
    Pow2Add(64 * n, shift);
    hide Pow2;
    Dist(Pow(n), ls[n], Pow2(shift) * x);
    Assoc(Pow2(64 * n), Pow2(shift), x);
  }

  /** The digit fits into the top limb. */
  lemma {:induction false} PackInside(ls: seq<Limb>, shift: nat, v: nat, filled: nat, d: nat, bits: nat)
    requires Packed(ls, shift, v, filled) && shift > 0 && d < Pow2(bits) && 0 < bits && shift + bits < 64
    ensures var w := PlaceDigit(ls[|ls| - 1], d, shift);
      w < B && Packed(ls[..|ls| - 1] + [w], shift + bits, v + Shl(d, filled), filled + bits)
  {
    hide Val;
    hide PlaceDigit;
    PlacedDigit(ls[|ls| - 1], d, shift);
    Pow2Monotone(bits, 64 - shift);
    Pow2Add(shift, bits);
    hide Pow2;
    SmallModulo(d, Pow2(64 - shift));
    var w := PlaceDigit(ls[|ls| - 1], d, shift);
    TopGrows(ls, w, shift, d);
    BlockBelow(ls[|ls| - 1], d, Pow2(shift), Pow2(bits));
  }

  /** The digit fills the top limb exactly. */
  lemma {:induction false} PackFull(ls: seq<Limb>, shift: nat, v: nat, filled: nat, d: nat, bits: nat)
    requires Packed(ls, shift, v, filled) && shift > 0 && d < Pow2(bits) && shift + bits == 64
    ensures var w := PlaceDigit(ls[|ls| - 1], d, shift);
      w < B && Packed(ls[..|ls| - 1] + [w], 0, v + Shl(d, filled), filled + bits)
  {
    hide Val;
    hide PlaceDigit;
    hide Pow2;
    PlacedDigit(ls[|ls| - 1], d, shift);
    SmallModulo(d, Pow2(64 - shift));
    TopGrows(ls, PlaceDigit(ls[|ls| - 1], d, shift), shift, d);
  }

  /** The digit goes on in a new limb. */
  lemma {:induction false} PackAcross(ls: seq<Limb>, shift: nat, v: nat, filled: nat, d: nat, bits: nat)
    requires Packed(ls, shift, v, filled) && shift > 0 && d < Pow2(bits) && bits < 64 && shift + bits > 64
    ensures var w, h := PlaceDigit(ls[|ls| - 1], d, shift), Shr(d, 64 - shift);
      w < B && h < B && Packed(ls[..|ls| - 1] + [w] + [h], shift + bits - 64, v + Shl(d, filled), filled + bits)
  {
    hide Val;
    hide PlaceDigit;
    var t, s := 64 - shift, shift + bits - 64;
    PlacedDigit(ls[|ls| - 1], d, shift);
    Pow2Add(t, s);
    Pow2Add(64 * (|ls| - 1) + shift, t);
    Pow2Monotone(s, 64);
    WordPowers();
    PowBits(|ls|);
    hide Pow2;
    var w, h := PlaceDigit(ls[|ls| - 1], d, shift), Shr(d, t);
    QuotientBelow(d, Pow2(t), Pow2(s));
    TopGrows(ls, w, shift, d % Pow2(t));
    ValSnoc(ls[..|ls| - 1] + [w], h);
    JoinDigit(d, Pow2(64 * (|ls| - 1) + shift), Pow2(t));
  }

  lemma {:induction false} JoinDigit(d: nat, p: nat, t: nat)
    requires 0 < t
    ensures p * (d % t) + (d / t) * (p * t) == p * d
  {
    Dist(p, d % t, t * (d / t));
    Assoc(p, t, d / t);
    assert d == d % t + t * (d / t);
  }

  /** One digit more. */
  method PackDigit(rp: array<Limb>, rn0: nat, shift0: nat, d: nat, bits: nat, ghost v: nat, ghost filled: nat)
    returns (rn: nat, shift: nat)
    requires 1 <= bits <= 8 && d < Pow2(bits) && rn0 <= rp.Length && Packed(rp[..rn0], shift0, v, filled)
    requires filled + bits <= 64 * rp.Length
    modifies rp
    ensures rn <= rp.Length && Packed(rp[..rn], shift, v + Shl(d, filled), filled + bits)
  {
    hide Pow2;
    hide Shl;
    hide Shr;
    hide Packed;
    ghost var ls := rp[..rn0];
    PackedPlaces(ls, shift0, v, filled);
    DigitSmall(d, bits);
    rn, shift := rn0, shift0;
    if shift == 0 {
      PackNew(ls, v, filled, d, bits);
      rp[rn] := d;
      assert rp[..rn + 1] == ls + [rp[rn]];
      rn := rn + 1;
      shift := shift + bits;
    } else {
      if shift + bits < 64 {
        PackInside(ls, shift, v, filled, d, bits);
      } else if shift + bits == 64 {
        PackFull(ls, shift, v, filled, d, bits);
      } else {
        PackAcross(ls, shift, v, filled, d, bits);
      }
      rp[rn - 1] := PlaceDigit(rp[rn - 1], d, shift);
      assert rp[..rn] == ls[..rn - 1] + [rp[rn - 1]];
      shift := shift + bits;
      if shift >= 64 {
        shift := shift - 64;
        if shift > 0 {
          rp[rn] := Shr(d, bits - shift);
          assert rp[..rn + 1] == ls[..rn - 1] + [rp[rn - 1]] + [rp[rn]];
          rn := rn + 1;
        }
      }
    }
  }

  lemma {:induction false} PackedPlaces(ls: seq<Limb>, shift: nat, v: nat, filled: nat)
    requires Packed(ls, shift, v, filled)
    ensures shift < 64 && filled == 64 * |ls| - (if shift == 0 then 0 else 64 - shift) && (shift > 0 ==> ls != [])
    ensures Val(ls) == v
  {
  }

  lemma {:induction false} DigitSmall(d: nat, bits: nat)
    requires d < Pow2(bits) && bits <= 8
    ensures d < B
  {
    Pow2Monotone(bits, 8);
    BytePower();
  }

  lemma {:induction false} PackedNone()
    ensures Packed([], 0, 0, 0)
  {
  }

  /** mpn_set_str_bits: the limbs of the number that the digits stand for. */
  method SetStrBits(rp: array<Limb>, sp: seq<nat>, bits: nat) returns (rn: nat)
    requires 1 <= bits <= 8 && AreDigits(sp, Pow2(bits)) && bits * |sp| <= 64 * rp.Length
    modifies rp
    ensures MpzObject.Stores(rp, rn, Num(sp, Pow2(bits)))
  {
    hide Pow2;
    hide Shl;
    hide Packed;
    hide NumLow;
    hide Num;
    hide Val;
    hide IPow;
    hide Reversed;
    ghost var b := Pow2(bits);
    ghost var low: seq<nat> := [];
    var j: nat, shift: nat := |sp|, 0;
    rn := 0;
    PackedNone();
    assert rp[..0] == [];
    Radix.NoDigits(b);
    while j > 0
      invariant 0 <= j <= |sp| && |low| == |sp| - j && rn <= rp.Length
      invariant forall k :: 0 <= k < |low| ==> low[k] == sp[|sp| - 1 - k]
      invariant Packed(rp[..rn], shift, NumLow(low, b), bits * |low|)
    {
      j := j - 1;
      DigitRoom(bits, |low|, |sp|);
      PowerOfBase(bits, |low|);
      NumLowSnoc(low, sp[j], b);
      ShlIs(sp[j], bits * |low|);
      rn, shift := PackDigit(rp, rn, shift, sp[j], bits, NumLow(low, b), bits * |low|);
      low := low + [sp[j]];
    }
    PackedPlaces(rp[..rn], shift, NumLow(low, b), bits * |low|);
    assert sp == Reversed(low);
    NumReversed(low, b);
    rn := NormalizedSize(rp, rn);
  }

  lemma {:induction false} AllCollected(sp: seq<nat>, low: seq<nat>)
    requires |low| == |sp| && forall k :: 0 <= k < |low| ==> low[k] == sp[|sp| - 1 - k]
    ensures sp == Reversed(low)
  {
  }

  lemma {:induction false} DigitRoom(bits: nat, k: nat, n: nat)
    requires k < n
    ensures bits * (k + 1) == bits * k + bits && bits * (k + 1) <= bits * n
  {
    Dist(bits, k, 1);
    MulLe(bits, k + 1, n);
  }
}
