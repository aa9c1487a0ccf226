/** The number of a concatenated type, which packs the numbers of its components
    into 32 bits, six for each (include/datatype.h, include/utils.h and
    src/datatype.c). */
module TypeIds {
  import opened Lengths
  import opened Arith
  import opened Bits
  import opened PowerOfTwo
  import opened Limbs
  import opened BinopFold

  const TYPE_BITS: nat := 6
  const TYPE_MASK: nat := 63
  const WORD: nat := 0x1_0000_0000

  /** uint32_t */
  function Word(x: nat): nat
  {
    x % WORD
  }

  function SubtypeAdd(t: nat, subtype: nat): nat
  {
    NatBits(Or, Word(Shl(t, TYPE_BITS)), subtype)
  }

  function SubtypeId(t: nat, n: nat): nat
  {
    NatBits(And, Shr(t, TYPE_BITS * n), TYPE_MASK)
  }

  /** The number that evaluation builds up for a list of components. */
  function Pack(ids: seq<nat>): nat
  {
    if ids == [] then 0 else SubtypeAdd(Pack(ids[..|ids| - 1]), ids[|ids| - 1])
  }

  /** The same without the limit of 32 bits. */
  function Digits(ids: seq<nat>): nat
  {
    if ids == [] then 0 else 64 * Digits(ids[..|ids| - 1]) + ids[|ids| - 1]
  }

  /** Components as datatypes number them. */
  predicate IdsValid(ids: seq<nat>)
  {
    forall i :: 0 <= i < |ids| ==> 0 < ids[i] < 64
  }

  /* ---- Single operations as arithmetic ---- */

  lemma {:induction false} SixBits()
    ensures Pow2(6) == 64 && TYPE_MASK == Ones(6)
  {
    BytePower();
    assert Pow2(8) == 2 * Pow2(7) && Pow2(7) == 2 * Pow2(6);
  }

  lemma {:induction false} IdIsDigit(t: nat, n: nat)
    ensures SubtypeId(t, n) == Shr(t, TYPE_BITS * n) % 64
  {
    hide Bitwise;
    SixBits();
    LowBits(Shr(t, TYPE_BITS * n), 6);
  }

  /** The digits of a number: the lowest, and those above it. */
  lemma {:induction false} DigitStep(t: nat, n: nat)
    ensures SubtypeId(t, 0) == t % 64 && SubtypeId(t, n + 1) == SubtypeId(t / 64, n)
  {
    hide NatBits;
    IdIsDigit(t, 0);
    IdIsDigit(t, n + 1);
    IdIsDigit(t / 64, n);
    SixBits();
    Pow2Add(6, 6 * n);
    DivDiv(t, 64, Pow2(6 * n));
    assert Pow2(0) == 1;
  }

  lemma {:induction false} AddIsDigit(t: nat, x: nat)
    requires x < 64
    ensures SubtypeAdd(t, x) == Word(64 * t) + x == Word(64 * t + x)
  {
    hide Bitwise;
    hide Pow2;
    SixBits();
    var h := Word(64 * t) / 64;
    assert Word(64 * t) == 0 + 64 * h;
    BitwiseBlock(Or, 0, h, x, 0, 6);
    BitwiseConstant(Or, h);
    BitwiseConstant(Or, x);
    BitwiseCommutes(Or, 0, x);
    assert x + 64 * 0 == x && Shl(t, 6) == 64 * t;
  }

  /** Packing is the number in base 64, cut to 32 bits. */
  lemma {:induction false} PackIsDigits(ids: seq<nat>)
    requires IdsValid(ids)
    ensures Pack(ids) == Word(Digits(ids))
    decreases |ids|
  {
    if ids == [] {
    } else {
      var n := |ids| - 1;
      PackIsDigits(ids[..n]);
      AddIsDigit(Pack(ids[..n]), ids[n]);
      WordTwice(Digits(ids[..n]), ids[n]);
    }
  }

  lemma {:induction false} WordTwice(d: nat, x: nat)
    ensures Word(64 * Word(d) + x) == Word(64 * d + x)
  {
    var q := d / WORD;
    assert 64 * d + x == (64 * Word(d) + x) + WORD * (64 * q);
  }

  /* ---- fls ---- */

  /** Whether the bits of a word above k are clear: x & (ones << k) is zero. */
  function HighBits(x: nat, k: nat): nat
    requires k <= 32
  {
    NatBits(And, x, Shl(Ones(32 - k), k))
  }

  lemma {:induction false} HighBitsValue(x: nat, k: nat)
    requires x < WORD && k <= 32
    ensures HighBits(x, k) == Shl(Shr(x, k), k)
  {
    hide Bitwise;
    HalfPower();
    Pow2Add(k, 32 - k);
    hide Pow2;
    var p := Pow2(k);
    QuotientBelow(x, p, Pow2(32 - k));
    MaskBlock(x % p, Shr(x, k), k, 32 - k);
  }

  lemma {:induction false} HighBitsZero(x: nat, k: nat)
    requires x < WORD && k <= 32
    ensures HighBits(x, k) == 0 <==> x < Pow2(k)
  {
    hide Pow2;
    hide HighBits;
    HighBitsValue(x, k);
    var p := Pow2(k);
    if x < p {
      DivUnique(x, p, 0, x);
    } else {
      QuotientPositive(x, p);
      MulLe(p, 1, x / p);
    }
  }

  lemma {:induction false} QuotientPositive(x: nat, p: nat)
    requires 0 < p <= x
    ensures x / p >= 1
  {
    var q, r := x / p, x % p;
    assert x == p * q + r;
    if q <= 0 {
      MulLe(p, q, 0);
    }
  }

  /** One step of fls: if the k highest bits are clear, the word is moved up. */
  method Narrow(x0: nat, r0: nat, k: nat, ghost word: nat) returns (x: nat, r: nat)
    requires 0 < k && 2 * k <= r0 <= 32 && x0 == Shl(word, 32 - r0)
    requires Pow2(r0 - 2 * k) <= word < Pow2(r0)
    ensures k <= r <= r0 && x == Shl(word, 32 - r)
    ensures Pow2(r - k) <= word < Pow2(r)
  {
    hide HighBits;
    hide Pow2;
    hide Shl;
    x, r := x0, r0;
    ShiftFits(word, r0);
    HighBitsZero(x, 32 - k);
    ShiftCompare(word, 32 - r0, r0 - k);
    if HighBits(x, 32 - k) == 0 {
      x := Word(Shl(x, k));
      r := r - k;
      ShiftTwice(word, 32 - r0, k);
      ShiftFits(word, r);
    }
  }

  /** word << a is below 2^(a + b) if and only if word is below 2^b. */
  lemma {:induction false} ShiftCompare(word: nat, a: nat, b: nat)
    ensures Shl(word, a) < Pow2(a + b) <==> word < Pow2(b)
  {
    Pow2Add(a, b);
    hide Pow2;
    var p, q := Pow2(a), Pow2(b);
    if word < q {
      MulLe(p, word + 1, q);
      Dist(p, word, 1);
    } else {
      MulLe(p, q, word);
    }
  }

  lemma {:induction false} ShiftTwice(word: nat, a: nat, k: nat)
    ensures Shl(Shl(word, a), k) == Shl(word, a + k)
  {
    Pow2Add(k, a);
    Assoc(Pow2(k), Pow2(a), word);
  }

  lemma {:induction false} ShiftFits(word: nat, r: nat)
    requires word < Pow2(r) && r <= 32
    ensures Shl(word, 32 - r) < WORD && Word(Shl(word, 32 - r)) == Shl(word, 32 - r)
  {
    HalfPower();
    ShiftCompare(word, 32 - r, r);
  }

  lemma {:induction false} WholeWord(word: nat)
    requires 0 < word < WORD
    ensures Pow2(0) <= word < Pow2(32) && Shl(word, 0) == word
  {
    HalfPower();
    PowZero();
  }

  /** fls */
  method Fls(word: nat) returns (r: nat)
    requires word < WORD
    ensures r == BitLength(word) <= 32
  {
    hide Pow2;
    hide Shl;
    hide BitLength;
    if word == 0 {
      NoLength();
      return 0;
    }
    WholeWord(word);
    var x := word;
    x, r := Narrow(x, 32, 16, word);
    x, r := Narrow(x, r, 8, word);
    x, r := Narrow(x, r, 4, word);
    x, r := Narrow(x, r, 2, word);
    x, r := Narrow(x, r, 1, word);
    BitLengthIs(word, r);
  }

  lemma {:induction false} NoLength()
    ensures BitLength(0) == 0
  {
  }

  /* ---- Taking the number apart ---- */

  /** The digits n - 1 down to 0. */
  function DigitsOf(t: nat, n: nat): (ids: seq<nat>)
    ensures |ids| == n
  {
    if n == 0 then [] else DigitsOf(t / 64, n - 1) + [t % 64]
  }

  lemma {:induction false} DigitsOfValue(t: nat, n: nat)
    requires t < Pow2(6 * n)
    ensures Digits(DigitsOf(t, n)) == t
  {
    if n == 0 {
      PowZero();
    } else {
      SixBits();
      Pow2Add(6, 6 * (n - 1));
      hide Pow2;
      DigitsOfValue(t / 64, n - 1);
      assert DigitsOf(t, n)[..n - 1] == DigitsOf(t / 64, n - 1);
    }
  }

  lemma {:induction false} DigitsUnique(ids: seq<nat>)
    requires IdsValid(ids)
    ensures DigitsOf(Digits(ids), |ids|) == ids && Digits(ids) < Pow2(6 * |ids|)
    ensures ids != [] ==> Digits(ids) >= Pow2(6 * (|ids| - 1))
    decreases |ids|
  {
    if ids == [] {
      PowZero();
    } else {
      var n := |ids| - 1;
      DigitsUnique(ids[..n]);
      SixBits();
      Pow2Add(6, 6 * n);
      PowZero();
      if n > 0 {
        Pow2Add(6, 6 * (n - 1));
      }
      hide Pow2;
      DivUnique(Digits(ids), 64, Digits(ids[..n]), ids[n]);
      assert ids == ids[..n] + [ids[n]];
    }
  }

  /** concat_subtype_id picks one of the digits. */
  lemma {:induction false} IdOfDigits(t: nat, n: nat, k: nat)
    requires k < n
    ensures SubtypeId(t, k) == DigitsOf(t, n)[n - 1 - k]
    decreases n
  {
    hide SubtypeId;
    DigitStep(t, if k > 0 then k - 1 else 0);
    if k > 0 {
      IdOfDigits(t / 64, n - 1, k - 1);
    }
  }

  /** The highest digits up to the first that is zero. */
  function UpToZero(ids: seq<nat>): (r: seq<nat>)
  {
    if ids == [] || ids[0] == 0 then [] else [ids[0]] + UpToZero(ids[1..])
  }

  /** The components that a type number stands for. */
  function Components(t: nat): seq<nat>
  {
    UpToZero(DigitsOf(t, (BitLength(t) + 5) / 6))
  }

  /** concat_type_alloc: the components of the type, highest digit first, and the
      length of the concatenation; nothing if a component is not known. */
  method ConcatTypeAlloc(t: nat, sizes: map<nat, nat>) returns (known: bool, ids: seq<nat>, size: nat)
    requires t < WORD
    ensures known ==> ids == Components(t) && size == TotalSize(ids, sizes)
    ensures known <==> forall i :: i in Components(t) ==> i in sizes
  {
    hide SubtypeId;
    hide DigitsOf;
    hide BitLength;
    hide TotalSize;
    hide PaddedLen;
    hide UpToZero;
    ids, size, known := [], 0, true;
    NoSize(sizes);
    var r := Fls(t);
    var n := (r + 5) / 6;
    ghost var digits := DigitsOf(t, n);
    assert digits[0..] == digits;
    while n > 0
      invariant 0 <= n <= |digits|
      invariant UpToZero(digits) == ids + UpToZero(digits[|digits| - n..])
      invariant size == TotalSize(ids, sizes) && forall i :: i in ids ==> i in sizes
    {
      n := n - 1;
      ghost var k := |digits| - 1 - n;
      IdOfDigits(t, |digits|, n);
      NextDigit(digits[k..]);
      assert digits[k..][0] == digits[k] && digits[k..][1..] == digits[k + 1..];
      var id := SubtypeId(t, n);
      if id == 0 {
        return;
      }
      if id !in sizes {
        assert UpToZero(digits[k..])[0] == id;
        assert id in UpToZero(digits);
        known := false;
        return;
      }
      size := size + PaddedLen(sizes[id]);
      SizeSnoc(ids, id, sizes);
      ids := ids + [id];
    }
    assert digits[|digits|..] == [];
    NextDigit([]);
  }

  lemma {:induction false} NextDigit(digits: seq<nat>)
    ensures digits == [] ==> UpToZero(digits) == []
    ensures digits != [] ==> UpToZero(digits) == if digits[0] == 0 then [] else [digits[0]] + UpToZero(digits[1..])
  {
  }

  lemma {:induction false} NoSize(sizes: map<nat, nat>)
    ensures TotalSize([], sizes) == 0
  {
  }

  function TotalSize(ids: seq<nat>, sizes: map<nat, nat>): nat
  {
    if ids == [] then 0
    else (if ids[0] in sizes then PaddedLen(sizes[ids[0]]) else 0) + TotalSize(ids[1..], sizes)
  }

  lemma {:induction false} SizeSnoc(ids: seq<nat>, id: nat, sizes: map<nat, nat>)
    requires id in sizes
    ensures TotalSize(ids + [id], sizes) == TotalSize(ids, sizes) + PaddedLen(sizes[id])
  {
    if ids == [] {
      assert ([] + [id])[1..] == [];
    } else {
      SizeSnoc(ids[1..], id, sizes);
      assert (ids + [id])[1..] == ids[1..] + [id];
    }
  }

  /* ---- The round trip ---- */

  lemma {:induction false} UpToZeroShorter(ids: seq<nat>)
    ensures |UpToZero(ids)| <= |ids|
    ensures |UpToZero(ids)| == |ids| ==> UpToZero(ids) == ids
  {
    if ids == [] || ids[0] == 0 {
    } else {
      UpToZeroShorter(ids[1..]);
    }
  }

  lemma {:induction false} NoZero(ids: seq<nat>)
    requires IdsValid(ids)
    ensures UpToZero(ids) == ids
  {
    if ids == [] {
    } else {
      NoZero(ids[1..]);
    }
  }

  /** The number of digits follows from the length. */
  lemma {:induction false} DigitCount(d: nat, m: nat)
    requires m > 0 && Pow2(6 * (m - 1)) <= d < Pow2(6 * m)
    ensures (BitLength(d) + 5) / 6 == m
  {
    hide Pow2;
    hide BitLength;
    Pow2Positive(6 * (m - 1));
    BitLengthBounds(d);
    var r := BitLength(d);
    if r <= 6 * (m - 1) {
      Pow2Monotone(r, 6 * (m - 1));
    }
    if r > 6 * m {
      Pow2Monotone(6 * m, r - 1);
    }
  }

  lemma {:induction false} Pow2Positive(n: nat)
    ensures Pow2(n) > 0
  {
  }

  lemma {:induction false} WordLength(t: nat)
    requires t < WORD
    ensures BitLength(t) <= 32 && t < Pow2(6 * ((BitLength(t) + 5) / 6))
  {
    hide Pow2;
    hide BitLength;
    HalfPower();
    NoLength();
    if t > 0 {
      BitLengthBounds(t);
      if BitLength(t) > 32 {
        Pow2Monotone(32, BitLength(t) - 1);
      }
      Pow2Monotone(BitLength(t), 6 * ((BitLength(t) + 5) / 6));
    } else {
      Pow2Positive(6 * ((BitLength(t) + 5) / 6));
    }
  }

  lemma {:induction false} WordOf(d: nat)
    ensures Word(d) < WORD && (d < WORD ==> Word(d) == d)
  {
  }

  lemma {:induction false} FittingReturns(ids: seq<nat>)
    requires IdsValid(ids) && Digits(ids) < WORD
    ensures Components(Pack(ids)) == ids
  {
    hide Pow2;
    hide BitLength;
    hide Pack;
    hide Digits;
    hide Word;
    PackIsDigits(ids);
    WordOf(Digits(ids));
    DigitsUnique(ids);
    NoZero(ids);
    if ids == [] {
      NoLength();
      assert DigitsOf(0, 0) == [] && Digits([]) == 0 by { NoDigits(); }
    } else {
      DigitCount(Digits(ids), |ids|);
    }
  }

  lemma {:induction false} NoDigits()
    ensures DigitsOf(0, 0) == [] && Digits([]) == 0
  {
  }

  lemma {:induction false} OverflowDiffers(ids: seq<nat>)
    requires IdsValid(ids) && Digits(ids) >= WORD
    ensures Components(Pack(ids)) != ids
  {
    hide Pow2;
    hide BitLength;
    hide Pack;
    hide Digits;
    hide DigitsOf;
    hide Word;
    PackIsDigits(ids);
    WordOf(Digits(ids));
    DigitsUnique(ids);
    var t := Pack(ids);
    var n := (BitLength(t) + 5) / 6;
    WordLength(t);
    UpToZeroShorter(DigitsOf(t, n));
    DigitsOfValue(t, n);
    HalfPower();
    if |ids| <= 5 {
      Pow2Monotone(6 * |ids|, 32);
    }
  }

  /** A list of components comes back from its packed number if and only if the
      number fits 32 bits. */
  lemma {:induction false} TypeRoundTrip(ids: seq<nat>)
    requires IdsValid(ids)
    ensures Components(Pack(ids)) == ids <==> Digits(ids) < WORD
  {
    hide Components;
    hide Pack;
    hide Digits;
    if Digits(ids) < WORD {
      FittingReturns(ids);
    } else {
      OverflowDiffers(ids);
    }
  }

  /** Five components always fit. */
  lemma {:induction false} FiveFit(ids: seq<nat>)
    requires IdsValid(ids) && |ids| <= 5
    ensures Components(Pack(ids)) == ids
  {
    hide Pow2;
    TypeRoundTrip(ids);
    DigitsUnique(ids);
    HalfPower();
    Pow2Monotone(6 * |ids|, 32);
  }
}
