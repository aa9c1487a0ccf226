/** Circular doubly linked lists of include/list.h, and the operations on
    them that the set-element sort uses. */
module ListHead {
  import opened SortValue

  /** An element of a set with the links it is embedded by, or a list head, whose
      element is not looked at. */
  class Node {
    var next: Node
    var prev: Node
    const element: Element
    const value: int := MsortValue(element)

    /** LIST_HEAD: a list without elements. */
    constructor (element: Element)
      ensures next == this && prev == this && this.element == element
    {
      this.element := element;
      next := this;
      prev := this;
    }
  }

  ghost predicate Distinct(s: seq<Node>)
  {
    forall i, j :: 0 <= i < j < |s| ==> s[i] != s[j]
  }

  /** The node after, and the node before, position i of the ring that head closes. */
  function After(head: Node, s: seq<Node>, i: int): Node
    requires -1 <= i < |s|
  {
    if i + 1 < |s| then s[i + 1] else head
  }

  function Before(head: Node, s: seq<Node>, i: int): Node
    requires 0 <= i <= |s|
  {
    if i > 0 then s[i - 1] else head
  }

  ghost predicate NextLinks(head: Node, s: seq<Node>)
    reads head, s
  {
    head.next == After(head, s, -1) && forall j {:trigger s[j]} :: 0 <= j < |s| ==> s[j].next == After(head, s, j)
  }

  ghost predicate PrevLinks(head: Node, s: seq<Node>)
    reads head, s
  {
    head.prev == Before(head, s, |s|) && forall j {:trigger s[j]} :: 0 <= j < |s| ==> s[j].prev == Before(head, s, j)
  }

  /** A well-formed list: head and the elements s in order, linked both ways in a ring. */
  ghost predicate IsList(head: Node, s: seq<Node>)
    reads head, s
  {
    Distinct(s) && head !in s && NextLinks(head, s) && PrevLinks(head, s)
  }

  /** The footprint of a list. */
  ghost predicate Covers(fp: set<Node>, head: Node, s: seq<Node>)
  {
    head in fp && forall x :: x in s ==> x in fp
  }

  ghost function ListNodes(head: Node, s: seq<Node>): (fp: set<Node>)
    ensures Covers(fp, head, s)
    ensures forall x :: x in fp ==> x == head || x in s
  {
    {head} + set x | x in s
  }

  /** list_empty. */
  predicate ListEmpty(head: Node)
    reads head
  {
    head.next == head
  }

  /** list_is_singular. */
  predicate ListIsSingular(head: Node)
    reads head
  {
    !ListEmpty(head) && head.next == head.prev
  }

  lemma {:induction false} ListSizes(head: Node, s: seq<Node>)
    requires IsList(head, s)
    ensures ListEmpty(head) <==> |s| == 0
    ensures ListIsSingular(head) <==> |s| == 1
  {
  }

  /** s with x put at position i. */
  function Inserted(s: seq<Node>, i: nat, x: Node): (t: seq<Node>)
    requires i <= |s|
    ensures |t| == |s| + 1 && t[i] == x
    ensures forall j {:trigger t[j]} :: 0 <= j < |t| ==> t[j] == if j < i then s[j] else if j == i then x else s[j - 1]
  {
    s[..i] + [x] + s[i..]
  }

  /** An element x that goes to position i of the list s behind head. */
  datatype Insertion = Insertion(head: Node, s: seq<Node>, i: nat, x: Node)
  {
    ghost predicate Fits()
    {
      i <= |s| && Distinct(s) && head !in s && x !in s && x != head
    }
  }

  twostate lemma InsertNext(p: Insertion)
    requires p.Fits()
    requires var Insertion(head, s, i, x) := p;
      && old(NextLinks(head, s)) && x.next == After(head, s, i - 1) && Before(head, s, i).next == x
      && forall y :: y in s + [head] && y != Before(head, s, i) ==> y.next == old(y.next)
    ensures NextLinks(p.head, Inserted(p.s, p.i, p.x))
  {
    var Insertion(head, s, i, x) := p;
    var t := Inserted(s, i, x);
    forall j {:trigger t[j]} | 0 <= j < |t|
      ensures t[j].next == After(head, t, j)
    {
      if j < i - 1 {
        assert s[j] != s[i - 1];
      } else if j > i {
        assert i > 0 ==> s[j - 1] != s[i - 1];
      }
    }
  }

  twostate lemma InsertPrev(p: Insertion)
    requires p.Fits()
    requires var Insertion(head, s, i, x) := p;
      && old(PrevLinks(head, s)) && x.prev == Before(head, s, i) && After(head, s, i - 1).prev == x
      && forall y :: y in s + [head] && y != After(head, s, i - 1) ==> y.prev == old(y.prev)
    ensures PrevLinks(p.head, Inserted(p.s, p.i, p.x))
  {
    var Insertion(head, s, i, x) := p;
    var t := Inserted(s, i, x);
    forall j {:trigger t[j]} | 0 <= j < |t|
      ensures t[j].prev == Before(head, t, j)
    {
      InsertPrevAt((p, j));
    }
    assert i < |s| ==> s[i] != head;
  }

  twostate lemma InsertPrevAt(at: (Insertion, nat))
    requires at.0.Fits() && at.1 <= |at.0.s|
    requires var Insertion(head, s, i, x) := at.0;
      && old(PrevLinks(head, s)) && x.prev == Before(head, s, i) && After(head, s, i - 1).prev == x
      && forall y :: y in s + [head] && y != After(head, s, i - 1) ==> y.prev == old(y.prev)
    ensures var (p, j) := at;
      var t := Inserted(p.s, p.i, p.x); t[j].prev == Before(p.head, t, j)
  {
    var (p, j) := at;
    var Insertion(head, s, i, x) := p;
    var t := Inserted(s, i, x);
    if j < i {
      assert t[j] == s[j] && (j > 0 ==> t[j - 1] == s[j - 1]);
      assert i < |s| ==> s[j] != s[i];
    } else if j > i + 1 {
      assert t[j] == s[j - 1] && t[j - 1] == s[j - 2];
      assert s[j - 1] != s[i];
    }
  }

  lemma {:induction false} PrevOf(head: Node, s: seq<Node>, i: nat)
    requires i <= |s| && PrevLinks(head, s)
    ensures After(head, s, i - 1).prev == Before(head, s, i)
  {
  }

  lemma {:induction false} DistinctInserted(s: seq<Node>, i: nat, x: Node)
    requires i <= |s| && Distinct(s) && x !in s
    ensures Distinct(Inserted(s, i, x))
    ensures forall y :: y in Inserted(s, i, x) <==> y in s || y == x
  {
  }

  /** list_add_tail before the element at position i (or before head): insertion at i. */
  method ListAddTail(x: Node, h: Node, ghost head: Node, ghost s: seq<Node>, ghost i: nat)
    requires IsList(head, s) && i <= |s| && h == After(head, s, i - 1) && x !in s && x != head
    modifies x, h`prev, h.prev`next
    ensures IsList(head, Inserted(s, i, x))
  {
    hide NextLinks;
    hide PrevLinks;
    hide Distinct;
    hide Inserted;
    PrevOf(head, s, i);
    DistinctInserted(s, i, x);
    var prev := h.prev;
    h.prev := x;
    x.next := h;
    x.prev := prev;
    prev.next := x;
    InsertNext(Insertion(head, s, i, x));
    InsertPrev(Insertion(head, s, i, x));
  }

  /** The first k elements of the list s behind head, which go behind list. */
  datatype Cut = Cut(list: Node, head: Node, s: seq<Node>, k: nat)
  {
    ghost predicate Fits()
    {
      1 <= k <= |s| && Distinct(s) && head !in s && list !in s && list != head
    }
  }

  twostate lemma CutNext(c: Cut)
    requires c.Fits()
    requires var Cut(list, head, s, k) := c;
      && old(NextLinks(head, s))
      && list.next == s[0] && s[k - 1].next == list && head.next == After(head, s, k - 1)
      && forall y :: y in s && y != s[k - 1] ==> y.next == old(y.next)
    ensures NextLinks(c.list, c.s[..c.k]) && NextLinks(c.head, c.s[c.k..])
  {
    var Cut(list, head, s, k) := c;
    var t, v := s[..k], s[k..];
    forall j {:trigger t[j]} | 0 <= j < |t|
      ensures t[j].next == After(list, t, j)
    {
      assert t[j] == s[j] && (j < k - 1 ==> s[j] != s[k - 1]);
    }
    forall j {:trigger v[j]} | 0 <= j < |v|
      ensures v[j].next == After(head, v, j)
    {
      assert v[j] == s[k + j] && s[k + j] != s[k - 1];
    }
  }

  /** What is known of the previous pointers after the cut. */
  twostate predicate CutPrevs(c: Cut)
    requires c.Fits()
    reads c.list, c.head, c.s
  {
    var Cut(list, head, s, k) := c;
    && old(PrevLinks(head, s))
    && s[0].prev == list && list.prev == s[k - 1] && After(head, s, k - 1).prev == head
    && forall y :: y in s + [head] && y != s[0] && y != After(head, s, k - 1) ==> y.prev == old(y.prev)
  }

  twostate lemma CutPrev(c: Cut)
    requires c.Fits() && CutPrevs(c)
    ensures PrevLinks(c.list, c.s[..c.k]) && PrevLinks(c.head, c.s[c.k..])
  {
    hide NextLinks;
    hide Distinct;
    var Cut(list, head, s, k) := c;
    CutPrevEnds(c);
    var t, v := s[..k], s[k..];
    forall j {:trigger t[j]} | 0 <= j < |t|
      ensures t[j].prev == Before(list, t, j)
    {
      CutPrevAt((c, j));
    }
    forall j {:trigger v[j]} | 0 <= j < |v|
      ensures v[j].prev == Before(head, v, j)
    {
      CutPrevAt((c, k + j));
    }
  }

  twostate lemma CutPrevEnds(c: Cut)
    requires c.Fits() && CutPrevs(c)
    ensures c.list.prev == Before(c.list, c.s[..c.k], c.k)
    ensures c.head.prev == Before(c.head, c.s[c.k..], |c.s| - c.k)
  {
    var Cut(list, head, s, k) := c;
    if k < |s| {
      assert s[k] != head && s[0] != head;
      assert s[k..][|s| - k - 1] == s[|s| - 1];
    }
  }

  twostate lemma CutPrevAt(at: (Cut, nat))
    requires at.0.Fits() && at.1 < |at.0.s| && CutPrevs(at.0)
    ensures var (c, j) := at;
      c.s[j].prev == if j == 0 then c.list else if j == c.k then c.head else c.s[j - 1]
  {
    var (c, j) := at;
    var Cut(list, head, s, k) := c;
    if j != 0 && j != k {
      assert s[j] != s[0] && (k < |s| ==> s[j] != s[k]) && s[j] != head;
    }
  }

  lemma {:induction false} DistinctParts(s: seq<Node>, k: nat)
    requires k <= |s| && Distinct(s)
    ensures Distinct(s[..k]) && Distinct(s[k..])
    ensures forall y :: y in s <==> y in s[..k] || y in s[k..]
  {
    assert s == s[..k] + s[k..];
  }

  lemma {:induction false} EndLinks(head: Node, s: seq<Node>, k: nat)
    requires 1 <= k <= |s| && NextLinks(head, s)
    ensures head.next == s[0] && s[k - 1].next == After(head, s, k - 1)
  {
  }

  /** __list_cut_position: the first k elements, up to entry, move to list. */
  method ListCutPosition(list: Node, head: Node, entry: Node, ghost s: seq<Node>, ghost k: nat, ghost fp: set<Node>)
    requires IsList(head, s) && 1 <= k <= |s| && entry == s[k - 1] && list !in s && list != head && Covers(fp, head, s)
    modifies list, fp
    ensures IsList(list, s[..k]) && IsList(head, s[k..])
  {
    hide NextLinks;
    hide PrevLinks;
    EndLinks(head, s, k);
    DistinctParts(s, k);
    DistinctEnds(s, k);
    hide Distinct;
    var newFirst := entry.next;
    list.next := head.next;
    list.next.prev := list;
    list.prev := entry;
    entry.next := list;
    head.next := newFirst;
    newFirst.prev := head;
    CutNext(Cut(list, head, s, k));
    CutPrev(Cut(list, head, s, k));
  }

  lemma {:induction false} DistinctEnds(s: seq<Node>, k: nat)
    requires 1 <= k <= |s| && Distinct(s)
    ensures k < |s| ==> s[0] != s[k]
  {
  }
}
