/** Machine words of mini-gmp, and the number that a little-endian array of
    words stands for. */
module Limbs {
  import opened Arith

  /** One more than the largest limb, and the same for half a limb. */
  const B: int := 0x1_0000_0000_0000_0000
  const H: int := 0x1_0000_0000

  type Limb = x: int | 0 <= x < B

  /** The wrapping word operations of C. */
  function AddW(x: Limb, y: Limb): (z: Limb)
  {
    if x + y < B then x + y else x + y - B
  }

  function SubW(x: Limb, y: Limb): (z: Limb)
  {
    if y <= x then x - y else x - y + B
  }

  function MulW(x: Limb, y: Limb): (z: Limb)
  {
    (x * y) % B
  }

  lemma {:induction false} MulWExact(x: Limb, y: Limb)
    requires x * y < B
    ensures MulW(x, y) == x * y
  {
    MulLe(x, 0, y);
  }

  /** What the wrapping product drops. */
  lemma {:induction false} MulWSplit(x: Limb, y: Limb)
    ensures x * y == ((x * y) / B) * B + MulW(x, y)
  {
  }

  function NotW(x: Limb): (z: Limb)
  {
    B - 1 - x
  }

  function Pow(n: nat): (p: nat)
    ensures p >= 1
  {
    if n == 0 then 1 else B * Pow(n - 1)
  }

  function Val(s: seq<Limb>): (v: nat)
  {
    if s == [] then 0 else s[0] + B * Val(s[1..])
  }

  /* ---- The value of a limb sequence ---- */

  lemma {:induction false} PowNext(n: nat)
    ensures Pow(n + 1) == B * Pow(n)
  {
  }

  lemma {:induction false} PowAdd(m: nat, n: nat)
    ensures Pow(m + n) == Pow(m) * Pow(n)
  {
    if m == 0 {
    } else {
      PowAdd(m - 1, n);
      Assoc(B, Pow(m - 1), Pow(n));
    }
  }

  lemma {:induction false} ValAppend(s: seq<Limb>, t: seq<Limb>)
    ensures Val(s + t) == Val(s) + Pow(|s|) * Val(t)
  {
    if s == [] {
      assert s + t == t;
    } else {
      ValAppend(s[1..], t);
      assert (s + t)[1..] == s[1..] + t;
      Dist(B, Val(s[1..]), Pow(|s| - 1) * Val(t));
      Assoc(B, Pow(|s| - 1), Val(t));
    }
  }

  lemma {:induction false} ValSnoc(s: seq<Limb>, x: Limb)
    ensures Val(s + [x]) == Val(s) + x * Pow(|s|)
  {
    ValAppend(s, [x]);
  }

  lemma {:induction false} ValSplit(s: seq<Limb>, i: nat)
    requires i <= |s|
    ensures Val(s) == Val(s[..i]) + Pow(i) * Val(s[i..])
  {
    ValAppend(s[..i], s[i..]);
    assert s == s[..i] + s[i..];
  }

  lemma {:induction false} ValBound(s: seq<Limb>)
    ensures Val(s) < Pow(|s|)
  {
    if s != [] {
      ValBound(s[1..]);
    }
  }

  lemma {:induction false} ValPrefix(s: seq<Limb>, i: nat)
    requires i < |s|
    ensures Val(s[..i + 1]) == Val(s[..i]) + s[i] * Pow(i)
  {
    ValSnoc(s[..i], s[i]);
    assert s[..i + 1] == s[..i] + [s[i]];
  }

  /** The top limb split off. */
  lemma {:induction false} ValTop(s: seq<Limb>)
    requires |s| > 0
    ensures Val(s) == Val(s[..|s| - 1]) + s[|s| - 1] * Pow(|s| - 1)
    ensures Val(s[..|s| - 1]) < Pow(|s| - 1)
  {
    hide Val;
    hide Pow;
    ValPrefix(s, |s| - 1);
    ValBound(s[..|s| - 1]);
    assert s[..|s|] == s;
  }

  lemma {:induction false} DropZero(s: seq<Limb>)
    requires |s| > 0 && s[|s| - 1] == 0
    ensures Val(s[..|s| - 1]) == Val(s)
  {
    hide Val;
    hide Pow;
    ValTop(s);
  }

  lemma {:induction false} ValSuffix(s: seq<Limb>, i: nat)
    requires i < |s|
    ensures Val(s[i..]) == s[i] + B * Val(s[i + 1..])
  {
    assert s[i..][1..] == s[i + 1..];
  }

  lemma {:induction false} SingleWord(s: seq<Limb>)
    requires |s| == 1
    ensures Val(s) == s[0]
  {
    assert s[1..] == [];
  }
}
