/** The place of elements that the sort cannot tell apart (src/mergesort.c): they
    come out in the opposite order, and with that the result is determined. */
module SortOrder {
  import opened Lengths
  import opened ListHead
  import opened MergeSort
  import opened SortValue

  /** The nodes of s with value v, in the order of s. */
  function Of(s: seq<Node>, v: int): seq<Node>
  {
    if s == [] then [] else One(s[0], v) + Of(s[1..], v)
  }

  function Backwards(s: seq<Node>): (r: seq<Node>)
    ensures |r| == |s| && forall i :: 0 <= i < |s| ==> r[i] == s[|s| - 1 - i]
  {
    if s == [] then [] else Backwards(s[1..]) + [s[0]]
  }

  function One(x: Node, v: int): seq<Node>
  {
    if x.value == v then [x] else []
  }

  lemma {:induction false} OfCons(x: Node, s: seq<Node>, v: int)
    ensures Of([x] + s, v) == One(x, v) + Of(s, v)
  {
    assert ([x] + s)[1..] == s;
  }

  lemma {:induction false} OfFirst(s: seq<Node>, v: int)
    requires s != []
    ensures Of(s, v) == One(s[0], v) + Of(s[1..], v)
  {
  }

  lemma {:induction false} OfAppend(s: seq<Node>, t: seq<Node>, v: int)
    ensures Of(s + t, v) == Of(s, v) + Of(t, v)
  {
    if s == [] {
      assert s + t == t;
    } else {
      hide Of;
      hide One;
      OfAppend(s[1..], t, v);
      OfFirst(s, v);
      OfCons(s[0], s[1..] + t, v);
      Regroup([s[0]], s[1..], t);
      assert s == [s[0]] + s[1..];
      Regroup(One(s[0], v), Of(s[1..], v), Of(t, v));
    }
  }

  lemma {:induction false} BackwardsAppend(s: seq<Node>, t: seq<Node>)
    ensures Backwards(s + t) == Backwards(t) + Backwards(s)
  {
  }

  lemma {:induction false} NoneOf(s: seq<Node>, v: int)
    requires AtLeast(v + 1, s)
    ensures Of(s, v) == []
  {
    if s != [] {
      NoneOf(s[1..], v);
    }
  }

  /** The first of l goes first only where h has nothing of its value. */
  lemma {:induction false} TakeFirst(l: seq<Node>, h: seq<Node>, v: int)
    requires l != [] && InOrder(h) && (h == [] || l[0].value < h[0].value)
    ensures One(l[0], v) + (Of(h, v) + Of(l[1..], v)) == Of(h, v) + Of(l, v)
  {
    OfFirst(l, v);
    if l[0].value == v {
      if h != [] { HeadAtLeast(h); }
      NoneOf(h, v);
    }
  }

  /** Where both lists have elements of a value, those of h come first. */
  lemma {:induction false} MergeOf(l: seq<Node>, h: seq<Node>, v: int)
    requires InOrder(l) && InOrder(h)
    ensures Of(Merge(l, h), v) == Of(h, v) + Of(l, v)
  {
    if l == [] {
      assert Of(l, v) == [];
    } else if h == [] || l[0].value < h[0].value {
      var m := Merge(l[1..], h);
      assert Merge(l, h) == [l[0]] + m;
      hide Of;
      hide Merge;
      hide One;
      MergeOf(l[1..], h, v);
      OfCons(l[0], m, v);
      TakeFirst(l, h, v);
    } else {
      var m := Merge(l, h[1..]);
      assert Merge(l, h) == [h[0]] + m;
      hide Of;
      hide Merge;
      hide One;
      MergeOf(l, h[1..], v);
      OfCons(h[0], m, v);
      OfFirst(h, v);
      Regroup(One(h[0], v), Of(h[1..], v), Of(l, v));
    }
  }

  lemma {:induction false} SortedStep(s: seq<Node>)
    requires |s| > 1
    ensures s == s[..Half(|s|)] + s[Half(|s|)..]
    ensures Sorted(s) == Merge(Sorted(s[..Half(|s|)]), Sorted(s[Half(|s|)..]))
  {
  }

  /** Equal elements come out in the opposite order, however many there are. */
  lemma {:induction false} SortedOf(s: seq<Node>, v: int)
    ensures Of(Sorted(s), v) == Backwards(Of(s, v))
  {
    if |s| <= 1 {
      assert |Of(s, v)| <= 1;
    } else {
      SortedStep(s);
      var l, h := s[..Half(|s|)], s[Half(|s|)..];
      SortedOf(l, v);
      SortedOf(h, v);
      hide Sorted;
      hide Merge;
      hide Of;
      hide Backwards;
      SortedInOrder(l);
      SortedInOrder(h);
      MergeOf(Sorted(l), Sorted(h), v);
      OfAppend(l, h, v);
      BackwardsAppend(Of(l, v), Of(h, v));
    }
  }

  /* ---- When the sort is stable ---- */

  ghost predicate KeepsOrder(s: seq<Node>)
  {
    forall v: int :: Of(Sorted(s), v) == Of(s, v)
  }

  ghost predicate DifferentValues(s: seq<Node>)
  {
    forall i, j :: 0 <= i < j < |s| ==> s[i].value != s[j].value
  }

  lemma {:induction false} OfMembers(s: seq<Node>, v: int)
    ensures forall k :: 0 <= k < |Of(s, v)| ==> Of(s, v)[k] in s && Of(s, v)[k].value == v
    ensures forall i :: 0 <= i < |s| && s[i].value == v ==> s[i] in Of(s, v)
  {
    if s != [] {
      OfMembers(s[1..], v);
      forall i | 0 <= i < |s| && s[i].value == v
        ensures s[i] in Of(s, v)
      {
        if i > 0 {
          assert s[1..][i - 1] == s[i];
        }
      }
    }
  }

  lemma {:induction false} OfDistinct(s: seq<Node>, v: int)
    requires Distinct(s)
    ensures Distinct(Of(s, v))
  {
    if s != [] {
      OfDistinct(s[1..], v);
      OfMembers(s[1..], v);
    }
  }

  lemma {:induction false} AtMostOne(s: seq<Node>, v: int)
    requires Distinct(s)
    ensures |Of(s, v)| > 1 ==> !DifferentValues(s)
  {
    OfMembers(s, v);
    OfDistinct(s, v);
    var f := Of(s, v);
    if |f| > 1 {
      assert f[0] in f && f[1] in f && f[0] != f[1];
      assert f[0] in s && f[1] in s;
      var i :| 0 <= i < |s| && s[i] == f[0];
      var j :| 0 <= j < |s| && s[j] == f[1];
      assert s[if i < j then i else j].value == v == s[if i < j then j else i].value;
    }
  }

  /** The elements of a list keep their order where the sort cannot tell them apart
      if and only if it can tell all of them apart. */
  lemma {:induction false} StableExactly(s: seq<Node>)
    requires Distinct(s)
    ensures KeepsOrder(s) <==> DifferentValues(s)
  {
    if DifferentValues(s) {
      forall v: int
        ensures Of(Sorted(s), v) == Of(s, v)
      {
        SortedOf(s, v);
        AtMostOne(s, v);
      }
    } else {
      var i, j :| 0 <= i < j < |s| && s[i].value == s[j].value;
      var v := s[i].value;
      var f := Of(s, v);
      SortedOf(s, v);
      OfMembers(s, v);
      OfDistinct(s, v);
      assert s[i] in f && s[j] in f && s[i] != s[j];
      assert f[0] != f[|f| - 1] == Backwards(f)[0];
    }
  }

  /** Concatenations of one type. */
  ghost predicate KeysOfOneType(s: seq<Node>)
  {
    && (forall i :: 0 <= i < |s| ==> s[i].element.Concat?)
    && forall i, j :: 0 <= i < j < |s| ==> SameType(s[i].element.parts, s[j].element.parts)
  }

  /** In a set of such keys the order of equal elements is kept exactly when no key
      is there twice. */
  lemma {:induction false} StableOnKeys(s: seq<Node>)
    requires Distinct(s) && KeysOfOneType(s)
    ensures KeepsOrder(s) <==> forall i, j :: 0 <= i < j < |s| ==> s[i].element != s[j].element
  {
    StableExactly(s);
    hide KeepsOrder;
    hide Distinct;
    forall i, j | 0 <= i < j < |s|
      ensures s[i].value == s[j].value <==> s[i].element == s[j].element
    {
      ValueTellsApart(s[i].element.parts, s[j].element.parts);
    }
  }

  /* ---- The result is determined ---- */

  lemma {:induction false} FirstOfValue(s: seq<Node>)
    requires s != []
    ensures Of(s, s[0].value) != [] && Of(s, s[0].value)[0] == s[0]
  {
  }

  lemma {:induction false} FirstIsLeast(s: seq<Node>, v: int)
    requires InOrder(s) && s != [] && Of(s, v) != []
    ensures s[0].value <= v
  {
    OfMembers(s, v);
    hide Of;
    var i :| 0 <= i < |s| && s[i] == Of(s, v)[0];
    assert i == 0 || s[0].value <= s[i].value;
  }

  lemma {:induction false} FirstsAgree(s: seq<Node>, t: seq<Node>)
    requires InOrder(s) && InOrder(t) && s != [] && t != []
    requires Of(s, s[0].value) == Of(t, s[0].value) && Of(s, t[0].value) == Of(t, t[0].value)
    ensures s[0] == t[0]
  {
    FirstOfValue(s);
    FirstOfValue(t);
    hide Of;
    hide InOrder;
    FirstIsLeast(t, s[0].value);
    FirstIsLeast(s, t[0].value);
  }

  lemma {:induction false} RestsAgree(s: seq<Node>, t: seq<Node>, v: int)
    requires s != [] && t != [] && s[0] == t[0] && Of(s, v) == Of(t, v)
    ensures Of(s[1..], v) == Of(t[1..], v)
  {
    OfFirst(s, v);
    OfFirst(t, v);
    hide Of;
    assert Of(s[1..], v) == Of(s, v)[|One(s[0], v)|..];
  }

  lemma {:induction false} EmptyTogether(s: seq<Node>, t: seq<Node>)
    requires forall v: int :: Of(s, v) == Of(t, v)
    ensures s == [] <==> t == []
  {
    if s != [] {
      FirstOfValue(s);
      assert Of(t, s[0].value) != [];
    }
    if t != [] {
      FirstOfValue(t);
      assert Of(s, t[0].value) != [];
    }
  }

  lemma {:induction false} InOrderUnique(s: seq<Node>, t: seq<Node>)
    requires InOrder(s) && InOrder(t) && forall v: int :: Of(s, v) == Of(t, v)
    ensures s == t
  {
    EmptyTogether(s, t);
    if s != [] {
      hide Of;
      FirstsAgree(s, t);
      forall v: int
        ensures Of(s[1..], v) == Of(t[1..], v)
      {
        RestsAgree(s, t, v);
      }
      InOrderUnique(s[1..], t[1..]);
      assert s == [s[0]] + s[1..] && t == [t[0]] + t[1..];
    }
  }

  ghost predicate TurnsEqual(t: seq<Node>, s: seq<Node>)
  {
    forall v: int :: Of(t, v) == Backwards(Of(s, v))
  }

  /** Ordered, and equal elements the other way round: that is the result and no
      other sequence. */
  lemma {:induction false} SortedExactly(s: seq<Node>, t: seq<Node>)
    ensures t == Sorted(s) <==> InOrder(t) && TurnsEqual(t, s)
  {
    hide Sorted;
    hide Of;
    SortedInOrder(s);
    forall v: int
      ensures Of(Sorted(s), v) == Backwards(Of(s, v))
    {
      SortedOf(s, v);
    }
    if InOrder(t) && TurnsEqual(t, s) {
      InOrderUnique(t, Sorted(s));
    }
  }
}
