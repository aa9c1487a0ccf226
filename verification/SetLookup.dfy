/** What a lookup of a concatenation decides: whether its values are those of a key
    that was written into the set. */
module SetLookup {
  import opened Lengths
  import opened PowerOfTwo
  import opened Bytes
  import opened Machine
  import opened Terms
  import opened Rules
  import SetKeys

  /* ---- The bytes of a concatenation are those of a key ---- */

  /** The types of the parts, and their values as the components of a key. */
  function TypesOf(parts: seq<Term>): (types: seq<SetKeys.Subtype>)
    ensures |types| == |parts|
  {
    seq(|parts|, i requires 0 <= i < |parts| => SetKeys.Subtype(TermLen(parts[i]), TermOrder(parts[i])))
  }

  function ValuesOf(parts: seq<Term>, w: World): (key: seq<SetKeys.Component>)
    ensures |key| == |parts|
  {
    seq(|parts|, i requires 0 <= i < |parts| => SetKeys.Value(Eval(parts[i], w)))
  }

  /** A key with the values of these parts, and their types. */
  predicate IsKeyOf(parts: seq<Term>, key: seq<SetKeys.Component>, types: seq<SetKeys.Subtype>, w: World)
  {
    |key| == |types| == |parts| &&
    forall i :: 0 <= i < |parts| ==>
      && key[i] == SetKeys.Value(Eval(parts[i], w))
      && types[i] == SetKeys.Subtype(TermLen(parts[i]), TermOrder(parts[i]))
  }

  lemma {:induction false} ImageIsKey(parts: seq<Term>, key: seq<SetKeys.Component>, types: seq<SetKeys.Subtype>, w: World)
    requires IsKeyOf(parts, key, types, w)
    ensures PartsImage(parts, w) == SetKeys.KeyImage(key, types, false)
  {
    hide Padded;
    hide Export;
    hide Eval;
    if parts != [] {
      ImageIsKey(parts[1..], key[1..], types[1..], w);
      assert SetKeys.PartImage(key[0], types[0], false) == TermImage(parts[0], w);
      SetKeys.FirstPart(key, types, false);
    }
  }

  lemma {:induction false} PartTyped(parts: seq<Term>, w: World, i: nat)
    requires PartsWellTyped(parts, w) && i < |parts|
    ensures WellTyped(parts[i], w)
  {
    hide WellTyped;
    if i > 0 {
      PartTyped(parts[1..], w, i - 1);
    }
  }

  /** The ends of a key fit the bytes of its components. */
  predicate FitsBytes(key: seq<SetKeys.Component>, types: seq<SetKeys.Subtype>, end: bool)
  {
    |key| == |types| &&
    forall i :: 0 <= i < |key| ==> SetKeys.EndOf(key[i], types[i].size, end) < Pow2(8 * ByteLen(types[i].size))
  }

  lemma {:induction false} ValuesFit(parts: seq<Term>, w: World)
    requires PartsWellTyped(parts, w)
    ensures FitsBytes(ValuesOf(parts, w), TypesOf(parts), false)
  {
    hide PartsWellTyped;
    hide WellTyped;
    hide Eval;
    hide Pow2;
    forall i | 0 <= i < |parts|
      ensures SetKeys.EndOf(ValuesOf(parts, w)[i], TypesOf(parts)[i].size, false) < Pow2(8 * ByteLen(TypesOf(parts)[i].size))
    {
      PartTyped(parts, w, i);
      IsWithin(parts[i], w);
    }
  }

  lemma {:induction false} IsWithin(t: Term, w: World)
    requires WellTyped(t, w)
    ensures Eval(t, w) < Pow2(8 * ByteLen(TermLen(t)))
  {
    EvalBytes(t, w);
  }

  lemma {:induction false} KeyFits(key: seq<SetKeys.Component>, types: seq<SetKeys.Subtype>, end: bool)
    requires SetKeys.KeyTyped(key, types)
    ensures FitsBytes(key, types, end)
  {
    hide SetKeys.IsPlain;
    hide SetKeys.EndOf;
    hide Pow2;
    forall i | 0 <= i < |key|
      ensures SetKeys.EndOf(key[i], types[i].size, end) < Pow2(8 * ByteLen(types[i].size))
    {
      SetKeys.EndFits(key[i], types[i].size, end);
      ByteLenPower(types[i].size);
    }
  }

  /* ---- Keys with the same bytes ---- */

  lemma {:induction false} PaddedSame(s: seq<Byte>, t: seq<Byte>)
    requires |s| == |t|
    ensures Padded(s) == Padded(t) <==> s == t
  {
    assert Padded(s)[..|s|] == s && Padded(t)[..|t|] == t;
  }

  lemma {:induction false} HeadsAndTails(a: seq<Byte>, s: seq<Byte>, b: seq<Byte>, t: seq<Byte>)
    requires |a| == |b|
    ensures a + s == b + t <==> a == b && s == t
  {
    assert (a + s)[..|a|] == a && (b + t)[..|b|] == b;
    assert (a + s)[|a|..] == s && (b + t)[|b|..] == t;
  }

  lemma {:induction false} PartsSame(c: SetKeys.Component, d: SetKeys.Component, t: SetKeys.Subtype, end: bool)
    requires SetKeys.EndOf(c, t.size, end) < Pow2(8 * ByteLen(t.size)) && SetKeys.EndOf(d, t.size, end) < Pow2(8 * ByteLen(t.size))
    ensures SetKeys.PartImage(c, t, end) == SetKeys.PartImage(d, t, end)
      <==> SetKeys.EndOf(c, t.size, end) == SetKeys.EndOf(d, t.size, end)
  {
    hide SetKeys.EndOf;
    hide Export;
    hide Pow2;
    ExportInjective(SetKeys.EndOf(c, t.size, end), SetKeys.EndOf(d, t.size, end), t.order, ByteLen(t.size));
  }

  predicate SameEnds(p: seq<SetKeys.Component>, q: seq<SetKeys.Component>, types: seq<SetKeys.Subtype>, end: bool)
    requires |p| == |q| == |types|
  {
    forall i :: 0 <= i < |types| ==> SetKeys.EndOf(p[i], types[i].size, end) == SetKeys.EndOf(q[i], types[i].size, end)
  }

  /** Two keys of the same types have the same bytes if and only if all their
      components end at the same numbers. */
  lemma {:induction false} KeysSame(p: seq<SetKeys.Component>, q: seq<SetKeys.Component>, types: seq<SetKeys.Subtype>, end: bool)
    requires FitsBytes(p, types, end) && FitsBytes(q, types, end)
    ensures SetKeys.KeyImage(p, types, end) == SetKeys.KeyImage(q, types, end) <==> SameEnds(p, q, types, end)
  {
    hide SetKeys.EndOf;
    hide SetKeys.PartImage;
    hide Pow2;
    hide Padded;
    hide SameEnds;
    if types == [] {
      NoEnds(p, q, types, end);
    } else {
      var t := types[1..];
      FirstEnds(p, q, types, end);
      KeysSame(p[1..], q[1..], t, end);
      hide FitsBytes;
      SetKeys.FirstPart(p, types, end);
      SetKeys.FirstPart(q, types, end);
      hide SetKeys.KeyImage;
      PartsSame(p[0], q[0], types[0], end);
      PaddedSame(SetKeys.PartImage(p[0], types[0], end), SetKeys.PartImage(q[0], types[0], end));
      HeadsAndTails(Padded(SetKeys.PartImage(p[0], types[0], end)), SetKeys.KeyImage(p[1..], t, end),
        Padded(SetKeys.PartImage(q[0], types[0], end)), SetKeys.KeyImage(q[1..], t, end));
    }
  }

  lemma {:induction false} NoEnds(p: seq<SetKeys.Component>, q: seq<SetKeys.Component>, types: seq<SetKeys.Subtype>, end: bool)
    requires |p| == |q| == |types| == 0
    ensures SameEnds(p, q, types, end) && SetKeys.KeyImage(p, types, end) == SetKeys.KeyImage(q, types, end)
  {
  }

  /** The first components and the others. */
  lemma {:induction false} FirstEnds(p: seq<SetKeys.Component>, q: seq<SetKeys.Component>, types: seq<SetKeys.Subtype>, end: bool)
    requires |p| == |q| == |types| > 0
    ensures SameEnds(p, q, types, end) <==>
      SetKeys.EndOf(p[0], types[0].size, end) == SetKeys.EndOf(q[0], types[0].size, end)
      && SameEnds(p[1..], q[1..], types[1..], end)
    ensures FitsBytes(p, types, end) ==> FitsBytes(p[1..], types[1..], end)
    ensures FitsBytes(q, types, end) ==> FitsBytes(q[1..], types[1..], end)
  {
    hide SetKeys.EndOf;
    hide Pow2;
    var t := types[1..];
    assert forall i :: 0 <= i < |t| ==> t[i] == types[i + 1] && p[1..][i] == p[i + 1] && q[1..][i] == q[i + 1];
    assert forall i :: 0 < i < |types| ==> types[i] == t[i - 1] && p[i] == p[1..][i - 1] && q[i] == q[1..][i - 1];
  }

  /* ---- The lookup ---- */

  /** A set that has been filled with these keys. */
  ghost predicate HoldsKeys(def: SetDef, keys: seq<seq<SetKeys.Component>>, types: seq<SetKeys.Subtype>)
  {
    && (forall k :: 0 <= k < |keys| ==> SetKeys.KeyTyped(keys[k], types))
    && forall s :: s in def.elements <==> exists k :: 0 <= k < |keys| && s == SetKeys.KeyImage(keys[k], types, false)
  }

  predicate Matches(parts: seq<Term>, key: seq<SetKeys.Component>, w: World)
    requires |key| == |parts|
  {
    forall i :: 0 <= i < |parts| ==> Eval(parts[i], w) == SetKeys.Low(key[i])
  }

  /** The lookup of a concatenation in a set of keys holds if and only if its values
      are those of one of the keys. */
  lemma {:induction false} LookupDecides(op: RelOp, parts: seq<Term>, setId: nat, keys: seq<seq<SetKeys.Component>>, w: World)
    requires RelationTyped(op, Concat(parts), SetRef(setId), w) && HoldsKeys(w.sets[setId], keys, TypesOf(parts))
    ensures Holds(op, Concat(parts), SetRef(setId), w)
      <==> (exists k :: 0 <= k < |keys| && Matches(parts, keys[k], w)) == (op != Neq)
  {
    hide Eval;
    hide PartsImage;
    hide SetKeys.KeyImage;
    hide SetKeys.IsPlain;
    hide PartsWellTyped;
    hide SetKeys.Low;
    var types, mine := TypesOf(parts), ValuesOf(parts, w);
    ImageIsKey(parts, mine, types, w);
    ValuesFit(parts, w);
    forall k | 0 <= k < |keys|
      ensures Image(Concat(parts), w) == SetKeys.KeyImage(keys[k], types, false) <==> Matches(parts, keys[k], w)
    {
      KeyFits(keys[k], types, false);
      KeysSame(mine, keys[k], types, false);
      LowOfValues(parts, w);
    }
  }

  lemma {:induction false} LowOfValues(parts: seq<Term>, w: World)
    ensures forall i :: 0 <= i < |parts| ==> SetKeys.Low(ValuesOf(parts, w)[i]) == Eval(parts[i], w)
  {
    hide Eval;
  }
}
