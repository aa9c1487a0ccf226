/** Tests of a number that look at some of its bits only: what every comparison of
    masked, shifted or leading bytes comes to.  Two of them are the same test for all
    numbers of a width exactly when they look the same. */
module BitTests {
  import opened Arith
  import opened Bits
  import opened PowerOfTwo
  import opened BinopFold

  datatype BitTest = BitTest(mask: nat, value: nat)

  predicate Accepts(t: BitTest, x: nat)
  {
    NatBits(And, x, t.mask) == t.value
  }

  /** Whether there is a number that the test accepts. */
  predicate Possible(t: BitTest)
  {
    NatBits(And, t.value, t.mask) == t.value
  }

  /** The test, for numbers of w bits. */
  function Within(t: BitTest, w: nat): BitTest
  {
    BitTest(t.mask % Pow2(w), t.value)
  }

  /** The same mask and value, or both impossible. */
  predicate SameTest(a: BitTest, b: BitTest)
  {
    if Possible(a) then b == a else !Possible(b)
  }

  predicate SameOn(a: BitTest, b: BitTest, w: nat)
  {
    SameTest(Within(a, w), Within(b, w))
  }

  ghost predicate AgreeOn(a: BitTest, b: BitTest, w: nat)
  {
    forall x: nat :: x < Pow2(w) ==> Accepts(a, x) == Accepts(b, x)
  }

  lemma {:induction false} AndTwice(x: nat, m: nat)
    ensures NatBits(And, NatBits(And, x, m), m) == NatBits(And, x, m)
  {
    hide Bitwise;
    var y := NatBits(And, x, m);
    forall i: nat
      ensures TestBit(NatBits(And, y, m), i) == TestBit(y, i)
    {
      BitwiseTestBit(And, x, m, i);
      BitwiseTestBit(And, y, m, i);
    }
    SameBits(NatBits(And, y, m), y);
  }

  lemma {:induction false} ImpossibleNever(t: BitTest, x: nat)
    requires Accepts(t, x)
    ensures Possible(t)
  {
    AndTwice(x, t.mask);
  }

  lemma {:induction false} MaskWithin(x: nat, m: nat, w: nat)
    requires x < Pow2(w)
    ensures NatBits(And, x, m % Pow2(w)) == NatBits(And, x, m)
  {
    hide Bitwise;
    LowBits(m, w);
    forall i: nat
      ensures TestBit(NatBits(And, x, m % Pow2(w)), i) == TestBit(NatBits(And, x, m), i)
    {
      BitwiseTestBit(And, x, m % Pow2(w), i);
      BitwiseTestBit(And, x, m, i);
      BitwiseTestBit(And, m, Ones(w), i);
      OnesBit(w, i);
      BitRange(m, i);
      if w <= i {
        HighBit(x, w, i);
      }
    }
    SameBits(NatBits(And, x, m % Pow2(w)), NatBits(And, x, m));
  }

  lemma {:induction false} WithinAccepts(t: BitTest, x: nat, w: nat)
    requires x < Pow2(w)
    ensures Accepts(Within(t, w), x) == Accepts(t, x)
  {
    hide NatBits;
    MaskWithin(x, t.mask, w);
  }

  /** The bits that the first test leaves open the second one leaves open too. */
  lemma {:induction false} OpenBits(m: nat, m': nat, v: nat, w: nat)
    requires m < Pow2(w) && m' < Pow2(w)
    requires NatBits(And, NatBits(Xor, v, NatBits(Xor, Ones(w), m)), m') == NatBits(And, v, m')
    ensures NatBits(And, m', m) == m'
  {
    hide Bitwise;
    var open := NatBits(Xor, Ones(w), m);
    var x := NatBits(Xor, v, open);
    forall i: nat
      ensures TestBit(NatBits(And, m', m), i) == TestBit(m', i)
    {
      BitwiseTestBit(And, m', m, i);
      BitwiseTestBit(And, x, m', i);
      BitwiseTestBit(And, v, m', i);
      BitwiseTestBit(Xor, v, open, i);
      BitwiseTestBit(Xor, Ones(w), m, i);
      OnesBit(w, i);
      BitRange(m, i);
      BitRange(m', i);
      BitRange(v, i);
      if w <= i {
        HighBit(m', w, i);
      }
    }
    SameBits(NatBits(And, m', m), m');
  }

  /** The value of a test with all open bits set is still accepted. */
  lemma {:induction false} OpenAccepted(m: nat, v: nat, w: nat)
    requires m < Pow2(w)
    ensures NatBits(And, NatBits(Xor, v, NatBits(Xor, Ones(w), m)), m) == NatBits(And, v, m)
  {
    hide Bitwise;
    var open := NatBits(Xor, Ones(w), m);
    var x := NatBits(Xor, v, open);
    forall i: nat
      ensures TestBit(NatBits(And, x, m), i) == TestBit(NatBits(And, v, m), i)
    {
      BitwiseTestBit(And, x, m, i);
      BitwiseTestBit(And, v, m, i);
      BitwiseTestBit(Xor, v, open, i);
      BitwiseTestBit(Xor, Ones(w), m, i);
      OnesBit(w, i);
      BitRange(m, i);
      BitRange(v, i);
      if w <= i {
        HighBit(m, w, i);
      }
    }
    SameBits(NatBits(And, x, m), NatBits(And, v, m));
  }

  lemma {:induction false} AndCommutes(x: nat, y: nat)
    ensures NatBits(And, x, y) == NatBits(And, y, x)
  {
    BitwiseCommutes(And, x, y);
  }

  /** A possible test whose numbers another test accepts too: their masks. */
  lemma {:induction false} MaskInside(a: BitTest, b: BitTest, w: nat)
    requires a.mask < Pow2(w) && b.mask < Pow2(w) && Possible(a) && AgreeOn(a, b, w)
    ensures NatBits(And, b.mask, a.mask) == b.mask && NatBits(And, a.value, b.mask) == b.value
  {
    hide NatBits;
    hide Pow2;
    var x := NatBits(Xor, a.value, NatBits(Xor, Ones(w), a.mask));
    ValueFits(a, w);
    OpenAccepted(a.mask, a.value, w);
    XorFits(Ones(w), a.mask, w);
    XorFits(a.value, NatBits(Xor, Ones(w), a.mask), w);
    assert Accepts(a, a.value) && Accepts(a, x);
    assert Accepts(b, a.value) && Accepts(b, x);
    OpenBits(a.mask, b.mask, a.value, w);
  }

  lemma {:induction false} ValueFits(t: BitTest, w: nat)
    requires t.mask < Pow2(w) && Possible(t)
    ensures t.value < Pow2(w)
  {
    hide Bitwise;
    hide Pow2;
    AndCommutes(t.value, t.mask);
    AndFits(t.mask, t.value, w);
  }

  lemma {:induction false} OnesFit(w: nat)
    ensures Ones(w) < Pow2(w)
  {
  }

  lemma {:induction false} SameTestExact(a: BitTest, b: BitTest, w: nat)
    requires a.mask < Pow2(w) && b.mask < Pow2(w)
    ensures AgreeOn(a, b, w) <==> SameTest(a, b)
  {
    hide NatBits;
    hide Pow2;
    if SameTest(a, b) {
      forall x: nat | x < Pow2(w)
        ensures Accepts(a, x) == Accepts(b, x)
      {
        if Accepts(a, x) { ImpossibleNever(a, x); }
        if Accepts(b, x) { ImpossibleNever(b, x); }
      }
    }
    if AgreeOn(a, b, w) {
      if Possible(a) {
        ValueFits(a, w);
        assert Accepts(a, a.value) && Accepts(b, a.value);
        ImpossibleNever(b, a.value);
        MaskInside(a, b, w);
        MaskInside(b, a, w);
        AndCommutes(a.mask, b.mask);
      } else if Possible(b) {
        ValueFits(b, w);
        assert Accepts(b, b.value) && Accepts(a, b.value);
        ImpossibleNever(a, b.value);
      }
    }
  }

  /** Two tests agree on all numbers of a width if and only if within that width
      they look the same. */
  lemma {:induction false} SameOnExact(a: BitTest, b: BitTest, w: nat)
    ensures AgreeOn(a, b, w) <==> SameOn(a, b, w)
  {
    hide Accepts;
    hide Pow2;
    hide SameTest;
    assert AgreeOn(a, b, w) == AgreeOn(Within(a, w), Within(b, w), w) by {
      forall x: nat | x < Pow2(w)
        ensures Accepts(Within(a, w), x) == Accepts(a, x) && Accepts(Within(b, w), x) == Accepts(b, x)
      {
        WithinAccepts(a, x, w);
        WithinAccepts(b, x, w);
      }
    }
    SameTestExact(Within(a, w), Within(b, w), w);
  }

  /* ---- Tests of what was computed from a number, as tests of the number ---- */

  const NEVER: BitTest := BitTest(0, 1)

  lemma {:induction false} NeverAccepts(x: nat)
    ensures !Accepts(NEVER, x)
  {
    BitwiseConstant(And, x);
  }

  /** After a mask and an exclusive-or. */
  function ThroughFold(t: BitTest, mask: nat, flips: nat): BitTest
  {
    BitTest(NatBits(And, mask, t.mask), NatBits(Xor, t.value, NatBits(And, flips, t.mask)))
  }

  lemma {:induction false} FoldSplits(x: nat, mask: nat, flips: nat, m: nat)
    ensures NatBits(And, NatBits(Xor, NatBits(And, x, mask), flips), m)
      == NatBits(Xor, NatBits(And, x, NatBits(And, mask, m)), NatBits(And, flips, m))
  {
    hide Bitwise;
    var y := NatBits(Xor, NatBits(And, x, mask), flips);
    var a, b := NatBits(And, x, NatBits(And, mask, m)), NatBits(And, flips, m);
    forall i: nat
      ensures TestBit(NatBits(And, y, m), i) == TestBit(NatBits(Xor, a, b), i)
    {
      BitwiseTestBit(And, y, m, i);
      BitwiseTestBit(Xor, NatBits(And, x, mask), flips, i);
      BitwiseTestBit(And, x, mask, i);
      BitwiseTestBit(Xor, a, b, i);
      BitwiseTestBit(And, x, NatBits(And, mask, m), i);
      BitwiseTestBit(And, mask, m, i);
      BitwiseTestBit(And, flips, m, i);
      BitRange(m, i);
      BitRange(flips, i);
    }
    SameBits(NatBits(And, y, m), NatBits(Xor, a, b));
  }

  lemma {:induction false} FoldAccepts(t: BitTest, mask: nat, flips: nat, x: nat)
    ensures Accepts(t, NatBits(Xor, NatBits(And, x, mask), flips)) == Accepts(ThroughFold(t, mask, flips), x)
  {
    hide NatBits;
    FoldSplits(x, mask, flips, t.mask);
    XorTwice(NatBits(And, x, NatBits(And, mask, t.mask)), NatBits(And, flips, t.mask), t.value);
  }

  /** After a right shift. */
  function ThroughRight(t: BitTest, k: nat): BitTest
  {
    BitTest(Shl(t.mask, k), Shl(t.value, k))
  }

  lemma {:induction false} RightAccepts(t: BitTest, k: nat, x: nat)
    ensures Accepts(t, Shr(x, k)) == Accepts(ThroughRight(t, k), x)
  {
    hide Bitwise;
    hide Pow2;
    var p := Pow2(k);
    SplitBy(x, p);
    BitwiseBlock(And, x % p, Shr(x, k), 0, t.mask, k);
    BitwiseConstant(And, x % p);
    assert 0 + p * t.mask == Shl(t.mask, k);
    assert NatBits(And, x, Shl(t.mask, k)) == Shl(NatBits(And, Shr(x, k), t.mask), k);
    ShlOrder(NatBits(And, Shr(x, k), t.mask), t.value, k);
  }

  /** After a left shift. */
  function ThroughLeft(t: BitTest, k: nat): BitTest
  {
    if t.value % Pow2(k) == 0 then BitTest(Shr(t.mask, k), Shr(t.value, k)) else NEVER
  }

  lemma {:induction false} LeftAccepts(t: BitTest, k: nat, x: nat)
    ensures Accepts(t, Shl(x, k)) == Accepts(ThroughLeft(t, k), x)
  {
    hide Bitwise;
    hide Pow2;
    var p := Pow2(k);
    SplitBy(t.mask, p);
    SplitBy(t.value, p);
    BitwiseBlock(And, 0, x, t.mask % p, Shr(t.mask, k), k);
    BitwiseCommutes(And, 0, t.mask % p);
    BitwiseConstant(And, t.mask % p);
    assert 0 + p * x == Shl(x, k);
    var y := NatBits(And, x, Shr(t.mask, k));
    assert NatBits(And, Shl(x, k), t.mask) == Shl(y, k);
    if t.value % p == 0 {
      ShlOrder(y, Shr(t.value, k), k);
      assert Shl(Shr(t.value, k), k) == t.value;
    } else {
      NeverAccepts(x);
      MultipleOf(p, y);
    }
  }

  /** After all but the low w bits were dropped. */
  lemma {:induction false} LowAccepts(t: BitTest, w: nat, x: nat)
    ensures Accepts(t, x % Pow2(w)) == Accepts(Within(t, w), x)
  {
    hide Bitwise;
    LowBits(x, w);
    LowBits(t.mask, w);
    forall i: nat
      ensures TestBit(NatBits(And, x % Pow2(w), t.mask), i) == TestBit(NatBits(And, x, t.mask % Pow2(w)), i)
    {
      BitwiseTestBit(And, x % Pow2(w), t.mask, i);
      BitwiseTestBit(And, x, t.mask % Pow2(w), i);
      BitwiseTestBit(And, x, Ones(w), i);
      BitwiseTestBit(And, t.mask, Ones(w), i);
      BitRange(x, i);
      BitRange(t.mask, i);
      OnesBit(w, i);
    }
    SameBits(NatBits(And, x % Pow2(w), t.mask), NatBits(And, x, t.mask % Pow2(w)));
  }

  /** The test for one number of w bits, and for the bits above k of such a number. */
  function EqualTo(v: nat, w: nat): BitTest
  {
    BitTest(Ones(w), v)
  }

  lemma {:induction false} EqualAccepts(v: nat, w: nat, x: nat)
    requires x < Pow2(w)
    ensures Accepts(EqualTo(v, w), x) == (x == v)
  {
    AndOnes(x, w);
  }
}
