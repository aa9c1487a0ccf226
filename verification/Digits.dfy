/** Numbers as sequences of digits in a base, either end first. */
module Digits {
  import opened Arith

  function IPow(b: nat, n: nat): (p: nat)
    requires b > 0
    ensures p > 0
  {
    if n == 0 then 1
    else
      MulLe(b, 1, IPow(b, n - 1));
      b * IPow(b, n - 1)
  }

  /** Least significant digit first. */
  function NumLow(ds: seq<nat>, b: nat): (v: nat)
  {
    if ds == [] then 0
    else
      MulLe(b, 0, NumLow(ds[1..], b));
      ds[0] + b * NumLow(ds[1..], b)
  }

  /** Most significant digit first. */
  function Num(ds: seq<nat>, b: nat): (v: nat)
  {
    if ds == [] then 0
    else
      MulLe(b, 0, Num(ds[..|ds| - 1], b));
      b * Num(ds[..|ds| - 1], b) + ds[|ds| - 1]
  }

  predicate AreDigits(ds: seq<nat>, b: nat)
  {
    forall i :: 0 <= i < |ds| ==> ds[i] < b
  }

  /** The digits of a number without leading zeros. */
  function DigitCount(v: nat, b: nat): nat
    requires b >= 2
  {
    if v == 0 then 0
    else
      DivLess(v, b);
      1 + DigitCount(v / b, b)
  }

  lemma {:induction false} DivLess(v: nat, b: nat)
    requires v > 0 && b >= 2
    ensures 0 <= v / b < v
  {
    var q := v / b;
    assert v == b * q + v % b;
    if q < 0 {
      MulLe(b, q, -1);
    }
    if q >= v {
      MulLe(q, 2, b);
    }
  }

  lemma {:induction false} IPowAdd(b: nat, m: nat, n: nat)
    requires b > 0
    ensures IPow(b, m + n) == IPow(b, m) * IPow(b, n)
  {
    if m == 0 {
    } else {
      IPowAdd(b, m - 1, n);
      Assoc(b, IPow(b, m - 1), IPow(b, n));
    }
  }

  lemma {:induction false} NumLowAppend(s: seq<nat>, t: seq<nat>, b: nat)
    requires b > 0
    ensures NumLow(s + t, b) == NumLow(s, b) + IPow(b, |s|) * NumLow(t, b)
  {
    if s == [] {
      assert s + t == t;
    } else {
      NumLowAppend(s[1..], t, b);
      assert (s + t)[1..] == s[1..] + t;
      Dist(b, NumLow(s[1..], b), IPow(b, |s| - 1) * NumLow(t, b));
      Assoc(b, IPow(b, |s| - 1), NumLow(t, b));
    }
  }

  lemma {:induction false} NumLowBound(ds: seq<nat>, b: nat)
    requires b > 0 && AreDigits(ds, b)
    ensures NumLow(ds, b) < IPow(b, |ds|)
  {
    if ds == [] {
    } else {
      NumLowBound(ds[1..], b);
      MulLe(b, NumLow(ds[1..], b) + 1, IPow(b, |ds| - 1));
      Dist(b, NumLow(ds[1..], b), 1);
    }
  }

  lemma {:induction false} NumLowSnoc(ds: seq<nat>, x: nat, b: nat)
    requires b > 0
    ensures NumLow(ds + [x], b) == NumLow(ds, b) + IPow(b, |ds|) * x
  {
    NumLowAppend(ds, [x], b);
    NumLowOne(x, b);
  }

  lemma {:induction false} NumLowOne(x: nat, b: nat)
    ensures NumLow([x], b) == x
  {
    assert [x][1..] == [];
    assert NumLow([], b) == 0;
  }

  function Reversed(ds: seq<nat>): (r: seq<nat>)
    ensures |r| == |ds| && forall i :: 0 <= i < |ds| ==> r[i] == ds[|ds| - 1 - i]
  {
    seq(|ds|, i requires 0 <= i < |ds| => ds[|ds| - 1 - i])
  }

  /** Reading from the other end is reading the reversed digits. */
  lemma {:induction false} NumReversed(ds: seq<nat>, b: nat)
    ensures Num(Reversed(ds), b) == NumLow(ds, b)
  {
    if ds == [] {
    } else {
      NumReversed(ds[1..], b);
      assert Reversed(ds)[..|ds| - 1] == Reversed(ds[1..]);
    }
  }

  /** Digits without a leading zero are as many as the number has. */
  lemma {:induction false} CountOfDigits(ds: seq<nat>, b: nat)
    requires b >= 2 && AreDigits(ds, b) && (ds != [] ==> ds[|ds| - 1] != 0)
    ensures DigitCount(NumLow(ds, b), b) == |ds|
  {
    if ds == [] {
    } else {
      var rest := NumLow(ds[1..], b);
      CountOfDigits(ds[1..], b);
      DivUnique(NumLow(ds, b), b, rest, ds[0]);
      if |ds| == 1 {
        NumLowOne(ds[0], b);
      } else {
        CountPositive(rest, b);
        MulLe(b, 1, rest);
      }
    }
  }

  lemma {:induction false} CountPositive(v: nat, b: nat)
    requires b >= 2
    ensures DigitCount(v, b) > 0 <==> v > 0
  {
  }

  /** The digits of a number are the only ones. */
  lemma {:induction false} DigitsUnique(s: seq<nat>, t: seq<nat>, b: nat)
    requires b > 0 && AreDigits(s, b) && AreDigits(t, b) && |s| == |t| && NumLow(s, b) == NumLow(t, b)
    ensures s == t
  {
    if s == [] {
    } else {
      DivUnique(NumLow(s, b), b, NumLow(s[1..], b), s[0]);
      DivUnique(NumLow(s, b), b, NumLow(t[1..], b), t[0]);
      DigitsUnique(s[1..], t[1..], b);
      assert s == [s[0]] + s[1..] && t == [t[0]] + t[1..];
    }
  }
}
