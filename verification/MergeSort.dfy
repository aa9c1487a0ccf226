/** list_expr_sort: merge sort of set elements by relinking list nodes. */
module MergeSort {
  import opened Lengths
  import opened ListHead
  import opened SortValue

  /* ---- The order the sort produces, on sequences ---- */

  /** list_splice_sorted: elements of l go before the first element of h that is greater. */
  function Merge(l: seq<Node>, h: seq<Node>): (m: seq<Node>)
    ensures |m| == |l| + |h|
  {
    if l == [] then h
    else if h == [] || l[0].value < h[0].value then [l[0]] + Merge(l[1..], h)
    else [h[0]] + Merge(l, h[1..])
  }

  /** Number of elements list_cut_middle moves to the temporary list. */
  function Half(n: nat): nat
  {
    (n + 1) / 2
  }

  function Sorted(s: seq<Node>): (t: seq<Node>)
    ensures |t| == |s|
  {
    if |s| <= 1 then s else Merge(Sorted(s[..Half(|s|)]), Sorted(s[Half(|s|)..]))
  }

  ghost predicate InOrder(s: seq<Node>)
  {
    forall i, j :: 0 <= i < j < |s| ==> s[i].value <= s[j].value
  }

  lemma {:induction false} ConsMultiset(s: seq<Node>)
    requires s != []
    ensures multiset(s) == multiset([s[0]]) + multiset(s[1..])
  {
    assert s == [s[0]] + s[1..];
  }

  lemma {:induction false} MergePermutes(l: seq<Node>, h: seq<Node>)
    ensures multiset(Merge(l, h)) == multiset(l) + multiset(h)
  {
    if l == [] {
    } else if h == [] || l[0].value < h[0].value {
      var m := Merge(l[1..], h);
      assert Merge(l, h) == [l[0]] + m;
      hide Merge;
      MergePermutes(l[1..], h);
      ConsMultiset(l);
    } else {
      var m := Merge(l, h[1..]);
      assert Merge(l, h) == [h[0]] + m;
      hide Merge;
      MergePermutes(l, h[1..]);
      ConsMultiset(h);
    }
  }

  lemma {:induction false} SplitMultiset(s: seq<Node>, k: nat)
    requires k <= |s|
    ensures multiset(s) == multiset(s[..k]) + multiset(s[k..])
  {
    assert s == s[..k] + s[k..];
  }

  lemma {:induction false} SortedPermutes(s: seq<Node>)
    ensures multiset(Sorted(s)) == multiset(s)
  {
    hide Merge;
    if |s| > 1 {
      var k := Half(|s|);
      var l, h := Sorted(s[..k]), Sorted(s[k..]);
      assert Sorted(s) == Merge(l, h);
      hide Sorted;
      SortedPermutes(s[..k]);
      SortedPermutes(s[k..]);
      MergePermutes(l, h);
      SplitMultiset(s, k);
    }
  }

  ghost predicate AtLeast(v: int, s: seq<Node>)
  {
    forall x :: x in s ==> v <= x.value
  }

  lemma {:induction false} ConsInOrder(x: Node, s: seq<Node>)
    requires InOrder(s) && AtLeast(x.value, s)
    ensures InOrder([x] + s)
  {
    forall j | 0 < j < |[x] + s|
      ensures x.value <= ([x] + s)[j].value
    {
      assert ([x] + s)[j] == s[j - 1] && s[j - 1] in s;
    }
  }

  lemma {:induction false} HeadAtLeast(s: seq<Node>)
    requires InOrder(s) && s != []
    ensures AtLeast(s[0].value, s[1..]) && InOrder(s[1..])
  {
  }

  lemma {:induction false} MergeMembers(v: int, l: seq<Node>, h: seq<Node>)
    requires AtLeast(v, l) && AtLeast(v, h)
    ensures AtLeast(v, Merge(l, h))
  {
    MergePermutes(l, h);
    forall x | x in Merge(l, h)
      ensures v <= x.value
    {
      assert x in multiset(Merge(l, h));
      assert x in multiset(l) || x in multiset(h);
    }
  }

  lemma {:induction false} MergeInOrder(l: seq<Node>, h: seq<Node>)
    requires InOrder(l) && InOrder(h)
    ensures InOrder(Merge(l, h))
  {
    if l == [] {
    } else if h == [] || l[0].value < h[0].value {
      HeadAtLeast(l);
      MergeInOrder(l[1..], h);
      if h != [] { HeadAtLeast(h); }
      MergeMembers(l[0].value, l[1..], h);
      ConsInOrder(l[0], Merge(l[1..], h));
    } else {
      HeadAtLeast(h);
      HeadAtLeast(l);
      MergeInOrder(l, h[1..]);
      MergeMembers(h[0].value, l, h[1..]);
      ConsInOrder(h[0], Merge(l, h[1..]));
    }
  }

  lemma {:induction false} SortedInOrder(s: seq<Node>)
    ensures InOrder(Sorted(s))
  {
    if |s| > 1 {
      SortedInOrder(s[..Half(|s|)]);
      SortedInOrder(s[Half(|s|)..]);
      MergeInOrder(Sorted(s[..Half(|s|)]), Sorted(s[Half(|s|)..]));
    }
  }

  /** The sort is not stable: two equal elements come out in the opposite order. */
  lemma {:induction false} EqualPairIsReversed(x: Node, y: Node)
    requires x.value == y.value
    ensures Sorted([x, y]) == [y, x]
  {
    assert [x, y][..1] == [x] && [x, y][1..] == [y];
    assert Merge([x], [y]) == [y] + Merge([x], []);
  }

  /* ---- The methods ---- */

  lemma {:induction false} StepLinks(head: Node, s: seq<Node>, i: nat, j: nat)
    requires IsList(head, s) && i <= j < |s|
    ensures head.next == s[0] && head.prev == s[|s| - 1]
    ensures (i + 1 < |s| ==> s[i].next == s[i + 1]) && (0 < j ==> s[j].prev == s[j - 1])
    ensures s[i] == s[j] <==> i == j
    ensures 0 < j ==> (s[i] == s[j - 1] <==> i == j - 1)
  {
  }

  /** list_cut_middle. */
  method ListCutMiddle(list: Node, head: Node, ghost s: seq<Node>, ghost fp: set<Node>)
    requires IsList(head, s) && 2 <= |s| && list !in s && list != head && Covers(fp, head, s)
    modifies list, fp
    ensures IsList(list, s[..Half(|s|)]) && IsList(head, s[Half(|s|)..])
  {
    hide IsList;
    ghost var i: nat, j: nat := 0, |s| - 1;
    StepLinks(head, s, i, j);
    var sn, e := head.next, head.prev;
    while e != sn
      invariant IsList(head, s) && 0 <= i <= j < |s| && sn == s[i] && e == s[j] && (i == j <==> e == sn)
      invariant i + j == |s| - 1 || (i == j && 2 * i == |s| - 2)
      decreases j - i
    {
      StepLinks(head, s, i, j);
      e := e.prev;
      j := j - 1;
      if e != sn {
        sn := sn.next;
        i := i + 1;
      }
      StepLinks(head, s, i, j);
    }
    ListCutPosition(list, head, sn, s, i + 1, fp);
  }

  /** The elements of the temporary list that are still to be moved, reachable from either side. */
  ghost predicate Pending(list: Node, c: seq<Node>)
    reads list, c
  {
    forall j {:trigger c[j]} :: 0 <= j < |c| ==> c[j].next == After(list, c, j) && After(list, c, j).prev == c[j]
  }

  ghost predicate Apart(list: Node, head: Node, c: seq<Node>, s: seq<Node>)
  {
    && Distinct(c) && list !in c && head !in c && list != head && list !in s
    && forall x :: x in c ==> x !in s
  }

  lemma {:induction false} PendingList(list: Node, c: seq<Node>)
    requires IsList(list, c)
    ensures Pending(list, c) && list.next == (if c == [] then list else c[0])
  {
    forall j {:trigger c[j]} | 0 <= j < |c|
      ensures c[j].next == After(list, c, j) && After(list, c, j).prev == c[j]
    {
      if j + 1 < |c| { assert c[j + 1].prev == Before(list, c, j + 1); }
    }
  }

  lemma {:induction false} PendingNext(list: Node, c: seq<Node>)
    requires Pending(list, c) && c != []
    ensures c[0].next == (if |c| > 1 then c[1] else list) && c[0].next.prev == c[0]
  {
  }

  /** Moving the first pending element leaves the others pending. */
  twostate lemma PendingRest(ring: seq<Node>)
    requires |ring| >= 2
    requires var list, c := ring[|ring| - 1], ring[..|ring| - 1];
      old(Pending(list, c)) && forall y :: y in c[1..] + [list] ==> y.next == old(y.next) && y.prev == old(y.prev)
    ensures Pending(ring[|ring| - 1], ring[1..|ring| - 1])
  {
    var list, c := ring[|ring| - 1], ring[..|ring| - 1];
    var d := c[1..];
    assert ring[1..|ring| - 1] == d;
    forall j {:trigger d[j]} | 0 <= j < |d|
      ensures d[j].next == After(list, d, j) && After(list, d, j).prev == d[j]
    {
      assert d[j] == c[j + 1];
      assert j + 1 < |d| ==> d[j + 1] == c[j + 2];
      assert After(list, d, j) in d + [list];
    }
  }

  /** Moving the first pending element before h. */
  method MoveFirst(list: Node, head: Node, h: Node, l: Node, ghost c: seq<Node>, ghost s: seq<Node>, ghost i: nat, ghost fp: set<Node>)
    returns (l': Node)
    requires IsList(head, s) && Pending(list, c) && Apart(list, head, c, s)
    requires c != [] && l == c[0] && i <= |s| && h == After(head, s, i - 1)
    requires Covers(fp, head, s) && l in fp
    modifies fp
    ensures Covers(fp, head, Inserted(s, i, l))
    ensures IsList(head, Inserted(s, i, l)) && Pending(list, c[1..]) && Apart(list, head, c[1..], Inserted(s, i, l))
    ensures l' == if |c| > 1 then c[1] else list
    ensures list.next == old(list.next) && list.prev == old(list.prev)
  {
    PendingNext(list, c);
    ApartRest(list, head, c, s, i);
    AfterIn(head, s, i);
    InsertedCovered(s, i, l, head, fp);
    hide IsList;
    hide Pending;
    hide Inserted;
    hide Apart;
    l' := l.next;
    ListAddTail(l'.prev, h, head, s, i);
    assert (c + [list])[..|c|] == c && (c + [list])[1..|c|] == c[1..];
    PendingRest(c + [list]);
  }

  lemma {:induction false} InsertedCovered(s: seq<Node>, i: nat, x: Node, head: Node, fp: set<Node>)
    requires i <= |s| && Covers(fp, head, s) && x in fp
    ensures Covers(fp, head, Inserted(s, i, x))
  {
  }

  lemma {:induction false} ApartRest(list: Node, head: Node, c: seq<Node>, s: seq<Node>, i: nat)
    requires Apart(list, head, c, s) && c != [] && i <= |s|
    ensures Apart(list, head, c[1..], Inserted(s, i, c[0]))
    ensures forall y :: y in c[1..] + [list] ==> y != c[0] && y != head && y !in s
    ensures c[0] != head && c[0] !in s
  {
    assert forall y :: y in c[1..] ==> y in c;
    assert forall y :: y in Inserted(s, i, c[0]) ==> y in s || y == c[0];
    forall y | y in c[1..]
      ensures y != c[0]
    {
      var k :| 0 <= k < |c| - 1 && c[1..][k] == y;
      assert c[k + 1] == y;
    }
  }

  lemma {:induction false} AfterIn(head: Node, s: seq<Node>, i: nat)
    requires i <= |s| && IsList(head, s)
    ensures After(head, s, i - 1) in s + [head] && Before(head, s, i) in s + [head]
    ensures After(head, s, i - 1).prev == Before(head, s, i)
  {
  }

  /** s[..i] is settled: the final order is reached from here. */
  ghost predicate OnTheWay(s: seq<Node>, i: nat, c: seq<Node>, m: seq<Node>)
  {
    i <= |s| && s[..i] + Merge(c, s[i..]) == m
  }

  lemma {:induction false} MergeTakes(c: seq<Node>, h: seq<Node>)
    requires c != [] && (h == [] || c[0].value < h[0].value)
    ensures Merge(c, h) == [c[0]] + Merge(c[1..], h)
  {
  }

  lemma {:induction false} MovedOn(s: seq<Node>, i: nat, c: seq<Node>, m: seq<Node>)
    requires OnTheWay(s, i, c, m) && c != [] && (i == |s| || c[0].value < s[i].value)
    ensures OnTheWay(Inserted(s, i, c[0]), i + 1, c[1..], m)
  {
    hide Merge;
    var a, h := s[..i], s[i..];
    assert i < |s| ==> h[0] == s[i];
    MergeTakes(c, h);
    InsertedParts(s, i, c[0]);
    hide Inserted;
    Regroup(a, [c[0]], Merge(c[1..], h));
  }

  lemma {:induction false} InsertedParts(s: seq<Node>, i: nat, x: Node)
    requires i <= |s|
    ensures |Inserted(s, i, x)| == |s| + 1
    ensures Inserted(s, i, x)[..i + 1] == s[..i] + [x] && Inserted(s, i, x)[i + 1..] == s[i..]
  {
  }

  lemma {:induction false} SkippedOn(s: seq<Node>, i: nat, c: seq<Node>, m: seq<Node>)
    requires OnTheWay(s, i, c, m) && c != [] && i < |s| && !(c[0].value < s[i].value)
    ensures OnTheWay(s, i + 1, c, m)
  {
    var rest := Merge(c, s[i + 1..]);
    assert s[i..][0] == s[i] && s[i..][1..] == s[i + 1..];
    assert Merge(c, s[i..]) == [s[i]] + rest;
    hide Merge;
    assert s[..i + 1] + rest == s[..i] + ([s[i]] + rest);
  }

  lemma {:induction false} WayEnds(s: seq<Node>, i: nat, m: seq<Node>)
    requires OnTheWay(s, i, [], m)
    ensures s == m
  {
    assert s == s[..i] + s[i..];
  }

  lemma {:induction false} PositionOf(head: Node, s: seq<Node>, i: nat)
    requires IsList(head, s) && i <= |s|
    ensures After(head, s, i - 1) == head <==> i == |s|
    ensures i < |s| ==> After(head, s, i - 1).next == After(head, s, i)
  {
  }

  /** list_splice_sorted: list keeps no elements of its own. */
  method ListSpliceSorted(list: Node, head: Node, ghost ls: seq<Node>, ghost hs: seq<Node>, ghost fp: set<Node>)
    requires IsList(list, ls) && IsList(head, hs) && Apart(list, head, ls, hs)
    requires Covers(fp, head, ls) && Covers(fp, head, hs)
    modifies fp
    ensures IsList(head, Merge(ls, hs))
  {
    hide Merge;
    hide Inserted;
    hide Pending;
    hide OnTheWay;
    PendingList(list, ls);
    ghost var s, i: nat, c := hs, 0, ls;
    assert OnTheWay(s, i, c, Merge(ls, hs)) by { WayStarts(ls, hs); }
    PositionOf(head, s, i);
    FirstOf(head, s);
    var h, l := head.next, list.next;
    hide IsList;
    while l != list
      invariant IsList(head, s) && Pending(list, c) && Apart(list, head, c, s)
      invariant Covers(fp, head, s) && Covers(fp, head, c)
      invariant i <= |s| && h == After(head, s, i - 1) && l == (if c == [] then list else c[0])
      invariant OnTheWay(s, i, c, Merge(ls, hs))
      decreases |c|, |s| - i
    {
      PositionOf(head, s, i);
      if h == head || l.value < h.value {
        MovedOn(s, i, c, Merge(ls, hs));
        l := MoveFirst(list, head, h, l, c, s, i, fp);
        s, i, c := Inserted(s, i, c[0]), i + 1, c[1..];
      } else {
        SkippedOn(s, i, c, Merge(ls, hs));
        h := h.next;
        i := i + 1;
      }
    }
    WayEnds(s, i, Merge(ls, hs));
  }

  lemma {:induction false} FirstOf(head: Node, s: seq<Node>)
    requires IsList(head, s)
    ensures head.next == After(head, s, -1)
  {
  }

  lemma {:induction false} WayStarts(ls: seq<Node>, hs: seq<Node>)
    ensures OnTheWay(hs, 0, ls, Merge(ls, hs))
  {
    hide Merge;
    assert hs[0..] == hs;
  }

  /** list_expr_sort: the same nodes, relinked in sorted order; fp is head and its elements. */
  method ListExprSort(head: Node, ghost s: seq<Node>, ghost fp: set<Node>)
    requires IsList(head, s) && Covers(fp, head, s)
    modifies fp
    ensures IsList(head, Sorted(s))
    decreases |s|
  {
    ListSizes(head, s);
    if ListEmpty(head) || ListIsSingular(head) {
      return;
    }
    hide IsList;
    hide Merge;
    var list := new Node(Element.Value(0));
    ghost var l, h := s[..Half(|s|)], s[Half(|s|)..];
    assert Sorted(s) == Merge(Sorted(l), Sorted(h));
    hide Sorted;
    ghost var sl, sh := Sorted(l), Sorted(h);
    HalvesApart(list, head, s, Half(|s|), fp);
    SortedApart(list, head, l, h, sl, sh, fp);
    hide Apart;
    hide Covers;
    ListCutMiddle(list, head, s, fp);
    SortHalves(list, head, l, h, fp);
    ListSpliceSorted(list, head, sl, sh, fp);
  }

  /** The two recursive calls, each within its own footprint. */
  method SortHalves(list: Node, head: Node, ghost l: seq<Node>, ghost h: seq<Node>, ghost fp: set<Node>)
    requires IsList(list, l) && IsList(head, h) && Apart(list, head, l, h) && l != [] && h != []
    requires Covers(fp, head, l) && Covers(fp, head, h)
    modifies fp, list
    ensures IsList(list, Sorted(l)) && IsList(head, Sorted(h))
    decreases |l| + |h|, 0
  {
    hide IsList;
    hide Sorted;
    ghost var fp', hs := ListNodes(list, l), Sorted(h);
    SortedMembers(h, hs);
    ListExprSort(head, h, ListNodes(head, h));
    assert IsList(head, hs);
    assert head !in fp';
    assert forall x :: x in hs ==> x !in fp';
    ListExprSort(list, l, fp');
    assert IsList(head, hs);
  }

  lemma {:induction false} HalvesApart(list: Node, head: Node, s: seq<Node>, k: nat, fp: set<Node>)
    requires IsList(head, s) && k <= |s| && list !in s && list != head && Covers(fp, head, s)
    ensures Apart(list, head, s[..k], s[k..]) && Covers(fp, head, s[..k]) && Covers(fp, head, s[k..])
  {
  }

  lemma {:induction false} SortedMembers(s: seq<Node>, t: seq<Node>)
    requires t == Sorted(s)
    ensures forall x :: x in t <==> x in s
  {
    hide Sorted;
    SortedPermutes(s);
    SameMembers(t, s);
  }

  lemma {:induction false} SameMembers(s: seq<Node>, t: seq<Node>)
    requires multiset(s) == multiset(t)
    ensures forall x :: x in s <==> x in t
  {
    forall x
      ensures x in s <==> x in t
    {
      assert x in s <==> x in multiset(s);
      assert x in t <==> x in multiset(t);
    }
  }

  lemma {:induction false} SortedApart(list: Node, head: Node, l: seq<Node>, h: seq<Node>, sl: seq<Node>, sh: seq<Node>, fp: set<Node>)
    requires Apart(list, head, l, h) && sl == Sorted(l) && sh == Sorted(h)
    requires Covers(fp, head, l) && Covers(fp, head, h)
    ensures Apart(list, head, sl, sh) && Covers(fp, head, sl) && Covers(fp, head, sh)
  {
    hide Sorted;
    SortedMembers(l, sl);
    SortedMembers(h, sh);
    SortedDistinct(l);
  }

  lemma {:induction false} SortedDistinct(s: seq<Node>)
    requires Distinct(s)
    ensures Distinct(Sorted(s))
  {
    SortedPermutes(s);
    OncePerNode(s);
    DistinctFromCounts(Sorted(s));
  }

  lemma {:induction false} OncePerNode(s: seq<Node>)
    requires Distinct(s)
    ensures forall x :: multiset(s)[x] <= 1
  {
    if s != [] {
      var t := s[1..];
      assert Distinct(t) && s[0] !in t by {
        forall k | 0 <= k < |t|
          ensures t[k] != s[0]
        {
          assert t[k] == s[k + 1];
        }
      }
      OncePerNode(t);
      ConsMultiset(s);
      forall x
        ensures multiset(s)[x] <= 1
      {
        assert x == s[0] ==> x !in multiset(t);
        assert multiset([s[0]])[x] == if x == s[0] then 1 else 0;
      }
    }
  }

  lemma {:induction false} DistinctFromCounts(s: seq<Node>)
    requires forall x :: multiset(s)[x] <= 1
    ensures Distinct(s)
  {
    forall i, j | 0 <= i < j < |s|
      ensures s[i] != s[j]
    {
      SplitMultiset(s, j);
      var a, b := s[..j], s[j..];
      assert a[i] == s[i] && b[0] == s[j];
      assert s[i] in multiset(a) && s[j] in multiset(b);
      assert multiset(s)[s[i]] == multiset(a)[s[i]] + multiset(b)[s[i]];
    }
  }
}
