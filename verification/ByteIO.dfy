/** Numbers from and to byte strings: mpz_import and mpz_export of mini-gmp, and the
    functions of gmputil.c that use them. */
module ByteIO {
  import opened Arith
  import opened Limbs
  import opened PowerOfTwo
  import opened Bits
  import opened Bytes
  import opened Mpn
  import opened MpzObject

  const LIMB_BYTES: nat := 8

  /* ---- Limbs as groups of eight bytes ---- */

  /** The limbs that are complete, and the one that is being filled. */
  ghost predicate Grouped(ls: seq<Limb>, limb: nat, s: seq<Byte>)
  {
    && LIMB_BYTES * |ls| <= |s| < LIMB_BYTES * |ls| + LIMB_BYTES
    && Val(ls) == Le(s[..LIMB_BYTES * |ls|])
    && limb == Le(s[LIMB_BYTES * |ls|..])
  }

  lemma {:induction false} PowLimbs(n: nat)
    ensures Pow(n) == Pow2(8 * (LIMB_BYTES * n))
  {
    if n == 0 {
    } else {
      PowLimbs(n - 1);
      WordPowers();
      Pow2Add(64, 8 * (LIMB_BYTES * (n - 1)));
    }
  }

  lemma {:induction false} GroupedValue(ls: seq<Limb>, limb: nat, s: seq<Byte>)
    requires Grouped(ls, limb, s)
    ensures Le(s) == Val(ls) + Pow(|ls|) * limb && limb < B
  {
    hide Le;
    hide Val;
    hide Pow;
    hide Pow2;
    var m := LIMB_BYTES * |ls|;
    assert s == s[..m] + s[m..];
    LeAppend(s[..m], s[m..]);
    PowLimbs(|ls|);
    LeBound(s[m..]);
    Pow2Monotone(8 * |s[m..]|, 64);
    WordPowers();
  }

  /** limb |= byte << shift, on bits that are still clear. */
  function Placed(limb: nat, x: Byte, bytes: nat): (l: nat)
  {
    BitwiseSign(Or, limb, Shl(x, 8 * bytes));
    Bitwise(Or, limb, Shl(x, 8 * bytes))
  }

  lemma {:induction false} PlacedIsSum(s: seq<Byte>, x: Byte)
    requires |s| < LIMB_BYTES
    ensures Placed(Le(s), x, |s|) == Le(s + [x]) < B
  {
    hide Bitwise;
    hide Pow2;
    hide Le;
    var k := 8 * |s|;
    LeBound(s);
    BitwiseBlock(Or, Le(s), 0, 0, x, k);
    BitwiseConstant(Or, Le(s));
    BitwiseConstant(Or, x);
    BitwiseCommutes(Or, 0, x);
    LeAppend(s, [x]);
    OneByte(x);
    LeBound(s + [x]);
    Pow2Monotone(8 * |s + [x]|, 64);
    WordPowers();
    assert Le(s) + Pow2(k) * 0 == Le(s) && 0 + Pow2(k) * x == Shl(x, k);
  }

  lemma {:induction false} OneByte(x: Byte)
    ensures Le([x]) == x
  {
    assert [x][1..] == [];
    assert Le([]) == 0;
  }

  /** A further byte in the limb that is being filled. */
  lemma {:induction false} GroupedMore(ls: seq<Limb>, limb: nat, s: seq<Byte>, x: Byte)
    requires Grouped(ls, limb, s)
    ensures var l := Placed(limb, x, |s| - LIMB_BYTES * |ls|);
      l < B &&
      if |s| + 1 == LIMB_BYTES * (|ls| + 1) then Grouped(ls + [l], 0, s + [x]) else Grouped(ls, l, s + [x])
  {
    hide Le;
    hide Val;
    var m := LIMB_BYTES * |ls|;
    var l := Placed(limb, x, |s| - m);
    PlacedIsSum(s[m..], x);
    assert (s + [x])[m..] == s[m..] + [x];
    assert (s + [x])[..m] == s[..m];
    if |s| + 1 == LIMB_BYTES * (|ls| + 1) {
      CompleteLimb(ls, l, s + [x]);
    }
  }

  lemma {:induction false} CompleteLimb(ls: seq<Limb>, l: Limb, s: seq<Byte>)
    requires |s| == LIMB_BYTES * |ls| + LIMB_BYTES
    requires Val(ls) == Le(s[..LIMB_BYTES * |ls|]) && l == Le(s[LIMB_BYTES * |ls|..])
    ensures Grouped(ls + [l], 0, s)
  {
    hide Le;
    hide Val;
    hide Pow;
    hide Pow2;
    var m := LIMB_BYTES * |ls|;
    assert s == s[..m] + s[m..];
    LeAppend(s[..m], s[m..]);
    PowLimbs(|ls|);
    ValSnoc(ls, l);
    assert s[..LIMB_BYTES * |ls + [l]|] == s;
    NoneLeft(s[LIMB_BYTES * |ls + [l]|..]);
  }

  lemma {:induction false} NoneLeft(s: seq<Byte>)
    requires s == []
    ensures Le(s) == 0
  {
  }

  /* ---- Import ---- */

  /** The order of bytes that word order and byte order together mean. */
  function OrderOf(order: int): ByteOrder
  {
    if order == 1 then Big else Host
  }

  /* ---- Words in a buffer ---- */

  /** count words of size bytes: order is 1 if the most significant word comes first,
      endian is 1 if the most significant byte of a word does. */
  datatype Layout = Layout(count: nat, order: int, size: nat, endian: int)

  /** Where word w begins, counted from the least significant one. */
  function Base(w: int, l: Layout): (b: int)
  {
    l.size * (if l.order == 1 then l.count - 1 - w else w)
  }

  lemma {:induction false} WordInside(w: nat, l: Layout)
    requires w < l.count
    ensures 0 <= Base(w, l) && Base(w, l) + l.size <= l.size * l.count
  {
    var q := if l.order == 1 then l.count - 1 - w else w;
    MulLe(l.size, 0, q);
    MulLe(l.size, q + 1, l.count);
    Dist(l.size, q, 1);
  }

  lemma {:induction false} WordsApart(v: nat, w: nat, l: Layout)
    requires v < w < l.count
    ensures Base(v, l) + l.size <= Base(w, l) || Base(w, l) + l.size <= Base(v, l)
  {
    var p, q := if l.order == 1 then l.count - 1 - v else v, if l.order == 1 then l.count - 1 - w else w;
    if p < q {
      MulLe(l.size, p + 1, q);
      Dist(l.size, p, 1);
    } else {
      MulLe(l.size, q + 1, p);
      Dist(l.size, q, 1);
    }
  }

  lemma {:induction false} NextBase(w: int, l: Layout)
    ensures Base(w + 1, l) == if l.order == 1 then Base(w, l) - l.size else Base(w, l) + l.size
  {
    var q := if l.order == 1 then l.count - 1 - w else w;
    DistSub(l.size, q, 1);
    Dist(l.size, q, 1);
  }

  /** Of a word, where its byte at place j from the low end is. */
  function Place(j: int, size: nat, endian: int): (p: int)
  {
    if endian == 1 then size - 1 - j else j
  }

  /** The bytes of the k least significant words, from the low end on. */
  function WordBytes(s: seq<Byte>, k: nat, l: Layout): (r: seq<Byte>)
    requires k <= l.count && |s| == l.size * l.count
    ensures |r| == l.size * k
  {
    if k == 0 then []
    else
      WordInside(k - 1, l);
      DistSub(l.size, k, 1);
      WordBytes(s, k - 1, l) + Ordered(s[Base(k - 1, l)..Base(k - 1, l) + l.size], OrderOf(l.endian))
  }

  lemma {:induction false} NextWord(s: seq<Byte>, k: nat, l: Layout)
    requires k < l.count && |s| == l.size * l.count
    ensures 0 <= Base(k, l) && Base(k, l) + l.size <= |s|
    ensures WordBytes(s, k + 1, l) == WordBytes(s, k, l) + Ordered(s[Base(k, l)..Base(k, l) + l.size], OrderOf(l.endian))
  {
    hide Base;
    hide Ordered;
    WordInside(k, l);
  }

  lemma {:induction false} NoWords(s: seq<Byte>, l: Layout)
    requires |s| == l.size * l.count
    ensures WordBytes(s, 0, l) == []
  {
  }

  /** Words and bytes in the same order are the bytes of one number in that order. */
  lemma {:induction false} SameOrder(s: seq<Byte>, k: nat, l: Layout)
    requires k <= l.count && |s| == l.size * l.count && (l.order == 1) == (l.endian == 1)
    ensures l.size * k <= |s| && WordBytes(s, k, l) == Ordered(s, OrderOf(l.endian))[..l.size * k]
  {
    hide WordBytes;
    hide Base;
    hide Ordered;
    NoWords(s, l);
    if k > 0 {
      SameOrder(s, k - 1, l);
      NextWord(s, k - 1, l);
      BaseIs(k - 1, l);
      var a, t := l.size * (k - 1), Ordered(s, OrderOf(l.endian));
      OrderedPart(s, a, l.size, OrderOf(l.endian));
      assert WordBytes(s, k, l) == t[..a + l.size];
    }
  }

  lemma {:induction false} BaseIs(w: nat, l: Layout)
    requires w < l.count
    ensures 0 <= l.size * w && l.size * w + l.size == l.size * (w + 1) <= l.size * l.count
    ensures Base(w, l) == if l.order == 1 then l.size * l.count - (l.size * w + l.size) else l.size * w
  {
    MulLe(l.size, 0, w);
    MulLe(l.size, w + 1, l.count);
    Dist(l.size, w, 1);
    DistSub(l.size, l.count, w + 1);
  }

  lemma {:induction false} OrderedPart(s: seq<Byte>, a: nat, n: nat, order: ByteOrder)
    requires a + n <= |s|
    ensures var b := if order == Big then |s| - (a + n) else a;
      Ordered(s, order)[..a] + Ordered(s[b..b + n], order) == Ordered(s, order)[..a + n]
  {
    hide Reversed;
    var b, t := if order == Big then |s| - (a + n) else a, Ordered(s, order);
    var part := Ordered(s[b..b + n], order);
    forall q | 0 <= q < n
      ensures part[q] == t[a + q]
    {
    }
    assert part == t[a..a + n];
    assert t[..a] + t[a..a + n] == t[..a + n];
  }

  lemma {:induction false} SameOrderValue(s: seq<Byte>, l: Layout)
    requires |s| == l.size * l.count && (l.order == 1) == (l.endian == 1)
    ensures Le(WordBytes(s, l.count, l)) == Import(s, OrderOf(l.endian))
  {
    hide WordBytes;
    hide Ordered;
    hide Le;
    SameOrder(s, l.count, l);
    assert Ordered(s, OrderOf(l.endian))[..|s|] == Ordered(s, OrderOf(l.endian));
  }

  /** Another word does not matter. */
  lemma {:induction false} OtherWord(s: seq<Byte>, t: seq<Byte>, k: nat, w: nat, l: Layout)
    requires k <= w < l.count && |s| == |t| == l.size * l.count
    requires forall q :: 0 <= q < |s| && !(Base(w, l) <= q < Base(w, l) + l.size) ==> s[q] == t[q]
    ensures WordBytes(s, k, l) == WordBytes(t, k, l)
  {
    hide WordBytes;
    hide Base;
    hide Ordered;
    NoWords(s, l);
    NoWords(t, l);
    if k > 0 {
      OtherWord(s, t, k - 1, w, l);
      NextWord(s, k - 1, l);
      NextWord(t, k - 1, l);
      WordsApart(k - 1, w, l);
      var b := Base(k - 1, l);
      assert s[b..b + l.size] == t[b..b + l.size];
    }
  }

  /** One byte more: into the limb that is being filled, which is stored once it is
      complete. */
  method TakeByte(rp: array<Limb>, i0: nat, limb0: Limb, have0: nat, x: Byte, ghost s: seq<Byte>)
    returns (i: nat, limb: Limb, have: nat)
    requires i0 <= rp.Length && Grouped(rp[..i0], limb0, s) && have0 == |s| - LIMB_BYTES * i0
    requires LIMB_BYTES * (i0 + 1) == |s| + 1 ==> i0 < rp.Length
    modifies rp
    ensures i <= rp.Length && Grouped(rp[..i], limb, s + [x]) && have == |s| + 1 - LIMB_BYTES * i
  {
    hide Grouped;
    ghost var ls := rp[..i0];
    GroupedLimits(ls, limb0, s);
    GroupedMore(ls, limb0, s, x);
    i, limb, have := i0, Placed(limb0, x, have0), have0 + 1;
    if have == LIMB_BYTES {
      rp[i] := limb;
      assert rp[..i + 1] == ls + [limb];
      i := i + 1;
      have := 0;
      limb := 0;
    }
  }

  lemma {:induction false} GroupedLimits(ls: seq<Limb>, limb: nat, s: seq<Byte>)
    requires Grouped(ls, limb, s)
    ensures LIMB_BYTES * |ls| <= |s| < LIMB_BYTES * |ls| + LIMB_BYTES
  {
  }

  lemma {:induction false} GroupedNone()
    ensures Grouped([], 0, [])
  {
  }

  /** The inner loop: the bytes of one word. */
  method TakeWord(rp: array<Limb>, i0: nat, limb0: Limb, have0: nat, src: array<Byte>, p0: int, size: nat, endian: int,
      ghost b: nat, ghost done: seq<Byte>)
    returns (i: nat, limb: Limb, have: nat, p: int)
    requires (endian == 1 || endian == -1) && b + size <= src.Length
    requires p0 == b + Place(0, size, endian)
    requires i0 <= rp.Length && have0 == |done| - LIMB_BYTES * i0 && Grouped(rp[..i0], limb0, done)
    requires |done| + size <= LIMB_BYTES * rp.Length
    modifies rp
    ensures p == b + Place(size, size, endian) && src[..] == old(src[..])
    ensures i <= rp.Length && have == |done| + size - LIMB_BYTES * i
    ensures Grouped(rp[..i], limb, done + Ordered(src[b..b + size], OrderOf(endian)))
  {
    hide Grouped;
    ghost var word := Ordered(src[b..b + size], OrderOf(endian));
    i, limb, have, p := i0, limb0, have0, p0;
    var j := 0;
    assert done + word[..0] == done;
    while j < size
      invariant 0 <= j <= size && p == b + Place(j, size, endian)
      invariant i <= rp.Length && Grouped(rp[..i], limb, done + word[..j]) && have == |done| + j - LIMB_BYTES * i
      invariant src[..] == old(src[..])
    {
      assert word[j] == src[b..b + size][p - b] == src[p];
      assert done + word[..j + 1] == (done + word[..j]) + [src[p]];
      GroupedLimits(rp[..i], limb, done + word[..j]);
      i, limb, have := TakeByte(rp, i, limb, have, src[p], done + word[..j]);
      p := p - endian;
      j := j + 1;
    }
    assert word[..size] == word;
  }

  /** The last limb is stored if there is anything in it. */
  method StoreRest(rp: array<Limb>, i: nat, limb: Limb, ghost s: seq<Byte>) returns (n: nat)
    requires i <= rp.Length && Grouped(rp[..i], limb, s) && |s| <= LIMB_BYTES * rp.Length
    modifies rp
    ensures Stores(rp, n, Le(s))
  {
    hide Le;
    hide Val;
    hide Pow;
    GroupedValue(rp[..i], limb, s);
    if limb != 0 {
      assert i < rp.Length by { if i == rp.Length { NoneLeft(s[LIMB_BYTES * i..]); } }
      rp[i] := limb;
      ValPrefix(rp[..i + 1], i);
      assert rp[..i + 1][..i] == rp[..i];
      assert rp[..i + 1][..i + 1] == rp[..i + 1];
      n := i + 1;
    } else {
      n := NormalizedSize(rp, i);
    }
  }

  /** gmp_detect_endian, on a little-endian host */
  function Detected(endian: int): int
  {
    if endian == 0 then -1 else endian
  }

  /** What is added to the pointer between two words. */
  function WordStep(l: Layout): int
  {
    var step := if l.order != l.endian then 2 * l.size else 0;
    if l.order == 1 then -step else step
  }

  lemma {:induction false} StepToNext(w: int, l: Layout)
    requires (l.order == 1 || l.order == -1) && (l.endian == 1 || l.endian == -1)
    ensures Base(w, l) + Place(l.size, l.size, l.endian) + WordStep(l) == Base(w + 1, l) + Place(0, l.size, l.endian)
  {
    hide Base;
    NextBase(w, l);
  }

  lemma {:induction false} StartOfWords(l: Layout)
    ensures Base(0, l) == if l.order == 1 then l.size * (l.count - 1) else 0
  {
  }

  /** The outer loop. */
  method TakeWords(rp: array<Limb>, src: array<Byte>, p0: int, count: nat, size: nat, endian: int, step: int, ghost l: Layout)
    returns (i: nat, limb: Limb)
    requires count == l.count && size == l.size && endian == l.endian && step == WordStep(l)
    requires (l.order == 1 || l.order == -1) && (endian == 1 || endian == -1)
    requires src.Length == size * count <= LIMB_BYTES * rp.Length
    requires p0 == Base(0, l) + Place(0, size, endian)
    modifies rp
    ensures src[..] == old(src[..])
    ensures i <= rp.Length && Grouped(rp[..i], limb, WordBytes(src[..], count, l))
  {
    hide Grouped;
    hide Base;
    hide WordStep;
    hide Place;
    hide WordBytes;
    hide Ordered;
    ghost var source := src[..];
    var p, words, have := p0, count, 0;
    i, limb := 0, 0;
    ghost var k := 0;
    GroupedNone();
    assert rp[..0] == [];
    NoWords(source, l);
    while words > 0
      invariant 0 <= words && k + words == count && p == Base(k, l) + Place(0, size, endian)
      invariant i <= rp.Length && Grouped(rp[..i], limb, WordBytes(source, k, l)) && have == size * k - LIMB_BYTES * i
      invariant src[..] == source
    {
      BaseIs(k, l);
      NextWord(source, k, l);
      assert src[Base(k, l)..Base(k, l) + size] == source[Base(k, l)..Base(k, l) + size];
      i, limb, have, p := TakeWord(rp, i, limb, have, src, p, size, endian, Base(k, l), WordBytes(source, k, l));
      StepToNext(k, l);
      words := words - 1;
      p := p + step;
      k := k + 1;
    }
  }

  /** mpz_import: the number whose bytes from the low end on are those of the words
      from the least significant one on. */
  method MpzImport(r: Mpz, count: nat, order: int, size: nat, endian0: int, src: array<Byte>)
    requires r.Valid() && (order == 1 || order == -1) && -1 <= endian0 <= 1
    requires src.Length == size * count
    modifies r, r.d
    ensures r.Valid() && r.Int() == Le(WordBytes(src[..], count, Layout(count, order, size, Detected(endian0))))
    ensures order == Detected(endian0) ==> r.Int() == Import(src[..], OrderOf(order))
    ensures r.d == old(r.d) || fresh(r.d)
    ensures src[..] == old(src[..])
  {
    hide Val;
    hide Le;
    hide Grouped;
    hide Base;
    hide WordStep;
    hide WordBytes;
    hide Import;
    var endian := if endian0 == 0 then -1 else endian0;
    ghost var l := Layout(count, order, size, endian);
    ghost var source := src[..];
    var step: int := if order != endian then 2 * size else 0;
    var p: int := 0;
    if order == 1 {
      p := p + size * (count - 1);
      step := -step;
    }
    if endian == 1 {
      p := p + (size - 1);
    }
    StartOfWords(l);
    assert step == WordStep(l) by { StepIs(l); }
    Realloc(r, (size * count + 7) / 8);
    var rp := r.d;
    var i, limb := TakeWords(rp, src, p, count, size, endian, step, l);
    r.size := StoreRest(rp, i, limb, WordBytes(source, count, l));
    if order == endian {
      SameOrderValue(source, l);
    }
  }

  lemma {:induction false} StepIs(l: Layout)
    ensures WordStep(l) == if l.order != l.endian then (if l.order == 1 then -(2 * l.size) else 2 * l.size) else 0
  {
  }

  /* ---- Export ---- */

  /** What is still to be written: the rest of a limb of which have bytes are left,
      and the limbs after it. */
  ghost predicate Pending(rest: nat, limb: nat, have: nat, ls: seq<Limb>)
  {
    limb < Pow2(8 * have) && rest == limb + Pow2(8 * have) * Val(ls)
  }

  lemma {:induction false} PendingByte(rest: nat, limb: nat, have: nat, ls: seq<Limb>)
    requires Pending(rest, limb, have, ls) && have > 0
    ensures rest % 256 == limb % 256 && Pending(rest / 256, limb / 256, have - 1, ls)
  {
    PowByte(have - 1);
    hide Val;
    hide Pow2;
    var q, v := Pow2(8 * (have - 1)), Val(ls);
    Assoc(256, q, v);
    MulLe(q, 0, v);
    LowestByte(limb, q * v, q);
  }

  lemma {:induction false} LowestByte(l: nat, w: nat, q: nat)
    requires l < 256 * q
    ensures (l + 256 * w) % 256 == l % 256 && (l + 256 * w) / 256 == l / 256 + w && l / 256 < q
  {
  }

  lemma {:induction false} PendingNext(rest: nat, limb: nat, ls: seq<Limb>)
    requires Pending(rest, limb, 0, ls)
    ensures limb == 0
    ensures ls != [] ==> Pending(rest, ls[0], LIMB_BYTES, ls[1..])
    ensures ls == [] ==> Pending(rest, 0, LIMB_BYTES, ls)
  {
    WordPowers();
    assert Pow2(8 * 0) == 1;
    hide Pow2;
  }

  /** The bytes that are written, from the low end on, and the rest make up the number. */
  ghost predicate Splits(m: nat, s: seq<Byte>, rest: nat)
  {
    m == Le(s) + Pow2(8 * |s|) * rest
  }

  /** One byte more. */
  lemma {:induction false} WrittenMore(m: nat, s: seq<Byte>, rest: nat)
    requires Splits(m, s, rest)
    ensures Splits(m, s + [rest % 256], rest / 256)
  {
    hide Le;
    var x := rest % 256;
    LeAppend(s, [x]);
    OneByte(x);
    PowByte(|s|);
    hide Pow2;
    var p := Pow2(8 * |s|);
    Dist(p, x, 256 * (rest / 256));
    Assoc(p, 256, rest / 256);
  }

  /** The bytes of the top limb are counted by shifting it down until nothing is left. */
  method CountBytes(top: Limb) returns (k: nat)
    requires top != 0
    ensures 1 <= k <= LIMB_BYTES && Pow2(8 * (k - 1)) <= top < Pow2(8 * k)
  {
    hide Pow2;
    PowZero();
    k := 1;
    var limb := top / 256;
    ghost var p := Pow2(0);
    QuotientOne(top);
    while limb != 0
      invariant 1 <= k <= LIMB_BYTES && p == Pow2(8 * (k - 1)) && p <= top
      invariant limb == top / (256 * p)
      decreases limb
    {
      PowByte(k - 1);
      NextByte(top, p);
      if k == LIMB_BYTES {
        WordPowers();
        assert false;
      }
      p := 256 * p;
      k := k + 1;
      limb := limb / 256;
    }
    PowByte(k - 1);
    LastByteOf(top, p);
  }

  lemma {:induction false} QuotientOne(x: nat)
    ensures x / (256 * 1) == x / 256
  {
  }

  lemma {:induction false} NextByte(top: nat, p: nat)
    requires 0 < p && top / (256 * p) != 0
    ensures 256 * p <= top && (top / (256 * p)) / 256 == top / (256 * (256 * p))
  {
    DivDiv(top, 256 * p, 256);
    DivNonNegative(top, 256 * p);
    if top < 256 * p {
      DivUnique(top, 256 * p, 0, top);
    }
  }

  lemma {:induction false} LastByteOf(top: nat, p: nat)
    requires 0 < p && top / (256 * p) == 0
    ensures top < 256 * p
  {
  }

  /** The bytes of a number, and the words of so many bytes that they fill. */
  function ByteCount(v: nat): nat
  {
    if v == 0 then 0 else 1 + ByteCount(v / 256)
  }

  function WordCount(v: nat, size: nat): nat
    requires size > 0
  {
    (ByteCount(v) + size - 1) / size
  }

  lemma {:induction false} ByteCountIs(v: nat, n: nat)
    requires n > 0 && Pow2(8 * (n - 1)) <= v < Pow2(8 * n)
    ensures ByteCount(v) == n
  {
    PowByte(n - 1);
    if n == 1 {
      PowZero();
      assert v / 256 == 0;
    } else {
      PowByte(n - 2);
      hide Pow2;
      ByteCountIs(v / 256, n - 1);
    }
  }

  lemma {:induction false} ByteCountBounds(v: nat)
    ensures v < Pow2(8 * ByteCount(v))
    ensures v > 0 ==> ByteCount(v) > 0 && Pow2(8 * (ByteCount(v) - 1)) <= v
  {
    PowZero();
    if v > 0 {
      ByteCountBounds(v / 256);
      PowByte(ByteCount(v / 256));
      if v >= 256 {
        PowByte(ByteCount(v / 256) - 1);
      }
      hide Pow2;
    }
  }

  lemma {:induction false} WordCountBounds(v: nat, size: nat)
    requires size > 0
    ensures v < Pow2(8 * (size * WordCount(v, size)))
    ensures v > 0 ==> WordCount(v, size) > 0 && Pow2(8 * (size * (WordCount(v, size) - 1))) <= v
  {
    ByteCountBounds(v);
    var n, c := ByteCount(v), WordCount(v, size);
    SplitBy(n + size - 1, size);
    DistSub(size, c, 1);
    Pow2Monotone(8 * n, 8 * (size * c));
    if v > 0 {
      if c == 0 {
        assert false;
      }
      MulLe(size, 0, c - 1);
      Pow2Monotone(8 * (size * (c - 1)), 8 * (n - 1));
    }
  }

  lemma {:induction false} TopBounds(low: nat, top: nat, p: nat, x: nat, y: nat)
    requires low < p && x <= top < y
    ensures p * x <= low + p * top < p * y
  {
    MulLe(p, x, top);
    MulLe(p, top + 1, y);
    Dist(p, top, 1);
  }

  /** The top limb of so many bytes gives the bytes of the number. */
  lemma {:induction false} BytesOfLimbs(ls: seq<Limb>, k: nat)
    requires ls != [] && 1 <= k <= LIMB_BYTES && Pow2(8 * (k - 1)) <= ls[|ls| - 1] < Pow2(8 * k)
    ensures ByteCount(Val(ls)) == k + (|ls| - 1) * LIMB_BYTES
  {
    hide Val;
    hide Pow;
    hide ByteCount;
    var n, top := |ls| - 1, ls[|ls| - 1];
    ValTop(ls);
    PowLimbs(n);
    Pow2Add(8 * (LIMB_BYTES * n), 8 * (k - 1));
    Pow2Add(8 * (LIMB_BYTES * n), 8 * k);
    hide Pow2;
    TopBounds(Val(ls[..n]), top, Pow(n), Pow2(8 * (k - 1)), Pow2(8 * k));
    assert 8 * (LIMB_BYTES * n) + 8 * (k - 1) == 8 * (k + n * LIMB_BYTES - 1);
    ByteCountIs(Val(ls), k + n * LIMB_BYTES);
  }

  /** The inner loop: the bytes of one word. */
  method PutWord(r: array<Byte>, p0: int, size: nat, endian: int, u: array<Limb>, un: nat, i0: nat, limb0: nat, have0: nat,
      ghost ls: seq<Limb>, ghost rest0: nat, ghost b: nat)
    returns (p: int, i: nat, limb: nat, have: nat, ghost s: seq<Byte>, ghost rest: nat)
    requires (endian == 1 || endian == -1) && b + size <= r.Length && p0 == b + Place(0, size, endian)
    requires un <= u.Length && ls == u[..un] && i0 <= un && have0 <= LIMB_BYTES && Pending(rest0, limb0, have0, ls[i0..])
    modifies r
    ensures p == b + Place(size, size, endian)
    ensures u[..un] == ls && i <= un && have <= LIMB_BYTES && Pending(rest, limb, have, ls[i..])
    ensures |s| == size && Splits(rest0, s, rest)
    ensures Ordered(r[b..b + size], OrderOf(endian)) == s
    ensures forall q :: 0 <= q < r.Length && !(b <= q < b + size) ==> r[q] == old(r[q])
  {
    hide Le;
    hide Splits;
    hide Pending;
    hide Pow2;
    p, i, limb, have := p0, i0, limb0, have0;
    var j := 0;
    s, rest := [], rest0;
    NothingWritten(rest0);
    while j < size
      invariant 0 <= j <= size && |s| == j && p == b + Place(j, size, endian)
      invariant i <= un && have <= LIMB_BYTES && u[..un] == ls
      invariant Pending(rest, limb, have, ls[i..])
      invariant Splits(rest0, s, rest)
      invariant forall q :: 0 <= q < j ==> r[b + Place(q, size, endian)] == s[q]
      invariant forall q :: 0 <= q < r.Length && !(b <= q < b + size) ==> r[q] == old(r[q])
    {
      if have == 0 {
        PendingNext(rest, limb, ls[i..]);
        if i < un {
          assert ls[i..][1..] == ls[i + 1..] && ls[i..][0] == u[i];
          limb := u[i];
          i := i + 1;
        }
        have := LIMB_BYTES;
      }
      PendingByte(rest, limb, have, ls[i..]);
      WrittenMore(rest0, s, rest);
      r[p] := limb % 256;
      s, rest := s + [rest % 256], rest / 256;
      limb := limb / 256;
      have := have - 1;
      p := p - endian;
      j := j + 1;
    }
    PlacedInOrder(r[b..b + size], s, endian);
  }

  lemma {:induction false} PlacedInOrder(w: seq<Byte>, s: seq<Byte>, endian: int)
    requires |w| == |s| && forall q :: 0 <= q < |s| ==> w[Place(q, |s|, endian)] == s[q]
    ensures Ordered(w, OrderOf(endian)) == s
  {
  }

  lemma {:induction false} NothingWritten(m: nat)
    ensures Splits(m, [], m)
  {
    PowZero();
  }

  /** The written words and one more. */
  lemma {:induction false} WrittenWord(m: nat, t: seq<Byte>, rest0: nat, s: seq<Byte>, rest: nat)
    requires Splits(m, t, rest0) && Splits(rest0, s, rest)
    ensures Splits(m, t + s, rest)
  {
    hide Le;
    LeAppend(t, s);
    Pow2Add(8 * |t|, 8 * |s|);
    hide Pow2;
    Dist(Pow2(8 * |t|), Le(s), Pow2(8 * |s|) * rest);
    Assoc(Pow2(8 * |t|), Pow2(8 * |s|), rest);
  }

  lemma {:induction false} PendingStart(ls: seq<Limb>)
    ensures Pending(Val(ls), 0, 0, ls[0..])
  {
    assert ls[0..] == ls && Pow2(8 * 0) == 1;
  }

  lemma {:induction false} AllWritten(m: nat, s: seq<Byte>, rest: nat)
    requires Splits(m, s, rest) && m < Pow2(8 * |s|)
    ensures s == LeBytes(m, |s|)
  {
    hide Le;
    hide Pow2;
    if rest > 0 {
      MulLe(Pow2(8 * |s|), 1, rest);
    }
    LeBytesLe(s);
  }

  lemma {:induction false} OneMoreWord(before: seq<Byte>, after: seq<Byte>, k: nat, l: Layout)
    requires k < l.count && |before| == |after| == l.size * l.count
    requires 0 <= Base(k, l) && Base(k, l) + l.size <= |after|
    requires forall q :: 0 <= q < |before| && !(Base(k, l) <= q < Base(k, l) + l.size) ==> before[q] == after[q]
    ensures WordBytes(after, k + 1, l)
      == WordBytes(before, k, l) + Ordered(after[Base(k, l)..Base(k, l) + l.size], OrderOf(l.endian))
  {
    hide WordBytes;
    hide Base;
    hide Ordered;
    OtherWord(before, after, k, k, l);
    NextWord(after, k, l);
  }

  /** The outer loop. */
  method PutWords(r: array<Byte>, p0: int, count: nat, size: nat, endian: int, step: int, u: array<Limb>, un: nat,
      ghost l: Layout, ghost ls: seq<Limb>)
    requires count == l.count && size == l.size && endian == l.endian && step == WordStep(l)
    requires (l.order == 1 || l.order == -1) && (endian == 1 || endian == -1)
    requires 0 <= size * count <= r.Length && p0 == Base(0, l) + Place(0, size, endian)
    requires un <= u.Length && ls == u[..un] && Val(ls) < Pow2(8 * (size * count))
    modifies r
    ensures WordBytes(r[..size * count], count, l) == LeBytes(Val(ls), size * count)
    ensures r[size * count..] == old(r[size * count..])
  {
    hide Val;
    hide Le;
    hide Splits;
    hide Pending;
    hide Pow2;
    hide Base;
    hide WordStep;
    hide WordBytes;
    hide Place;
    hide LeBytes;
    hide Ordered;
    ghost var n := size * count;
    var p, i: nat, limb: nat, have: nat := p0, 0, 0, 0;
    ghost var t: seq<Byte>, rest: nat := [], Val(ls);
    PendingStart(ls);
    NothingWritten(Val(ls));
    NoWords(r[..n], l);
    var k := 0;
    while k < count
      invariant 0 <= k <= count && p == Base(k, l) + Place(0, size, endian)
      invariant i <= un && have <= LIMB_BYTES && u[..un] == ls && Pending(rest, limb, have, ls[i..])
      invariant Splits(Val(ls), t, rest)
      invariant WordBytes(r[..n], k, l) == t && r[n..] == old(r[n..])
    {
      ghost var before, s: seq<Byte>, rest': nat := r[..n], [], 0;
      WordInside(k, l);
      p, i, limb, have, s, rest' := PutWord(r, p, size, endian, u, un, i, limb, have, ls, rest, Base(k, l));
      assert r[..n][Base(k, l)..Base(k, l) + size] == r[Base(k, l)..Base(k, l) + size];
      OneMoreWord(before, r[..n], k, l);
      WrittenWord(Val(ls), t, rest, s, rest');
      StepToNext(k, l);
      t, rest := t + s, rest';
      p := p + step;
      k := k + 1;
    }
    WordBytesSize(r[..n], l);
    AllWritten(Val(ls), t, rest);
  }

  lemma {:induction false} WordBytesSize(s: seq<Byte>, l: Layout)
    requires |s| == l.size * l.count
    ensures |WordBytes(s, l.count, l)| == |s|
  {
  }

  /** mpz_export: the words of the number, in a new buffer if there is none. */
  method MpzExport(r0: array?<Byte>, order: int, size: nat, endian0: int, u: Mpz) returns (r: array?<Byte>, count: nat)
    requires u.Valid() && (order == 1 || order == -1) && -1 <= endian0 <= 1 && size > 0
    requires r0 != null ==> size * WordCount(u.Magnitude(), size) <= r0.Length
    modifies r0
    ensures r0 != null ==> r == r0
    ensures u.size == 0 ==> count == 0 && r == r0 && (r0 != null ==> r0[..] == old(r0[..]))
    ensures u.size != 0 ==> r != null && (r0 == null ==> fresh(r)) && count == WordCount(u.Magnitude(), size)
    ensures u.size != 0 ==> size * count <= r.Length
    ensures u.size != 0 ==>
      WordBytes(r[..size * count], count, Layout(count, order, size, Detected(endian0))) == LeBytes(u.Magnitude(), size * count)
    ensures u.size != 0 && order == Detected(endian0) ==> r[..size * count] == Export(u.Magnitude(), OrderOf(order), size * count)
    ensures u.size != 0 && r0 != null ==> r[size * count..] == old(r0[size * count..])
  {
    hide Val;
    hide Base;
    hide WordStep;
    hide WordBytes;
    hide LeBytes;
    hide Export;
    hide Pow2;
    hide ByteCount;
    var un := Abs(u.size);
    count := 0;
    r := r0;
    if un != 0 {
      ghost var ls := u.d[..un];
      var k := CountBytes(u.d[un - 1]);
      BytesOfLimbs(ls, k);
      count := (k + (un - 1) * LIMB_BYTES + size - 1) / size;
      WordCountBounds(Val(ls), size);
      if r == null {
        r := new Byte[size * count](i => 0);
      }
      var endian := if endian0 == 0 then -1 else endian0;
      ghost var l := Layout(count, order, size, endian);
      var step: int := if order != endian then 2 * size else 0;
      var p: int := 0;
      if order == 1 {
        p := p + size * (count - 1);
        step := -step;
      }
      if endian == 1 {
        p := p + (size - 1);
      }
      StartOfWords(l);
      StepIs(l);
      PutWords(r, p, count, size, endian, step, u.d, un, l, ls);
      if order == endian {
        SameOrderBytes(r[..size * count], Val(ls), l);
      }
    }
  }

  lemma {:induction false} SameOrderBytes(s: seq<Byte>, v: nat, l: Layout)
    requires |s| == l.size * l.count && (l.order == 1) == (l.endian == 1) && WordBytes(s, l.count, l) == LeBytes(v, |s|)
    ensures s == Export(v, OrderOf(l.endian), |s|)
  {
    hide WordBytes;
    hide LeBytes;
    SameOrder(s, l.count, l);
    var t := Ordered(s, OrderOf(l.endian));
    assert t[..|s|] == t;
    ReversedTwice(s);
  }

  /* ---- gmputil.c on a little-endian host ---- */

  function Endian(order: ByteOrder): int
  {
    if order == Big then 1 else -1
  }

  /** How many bytes are written: len, or full words of len bytes for a longer number. */
  function Written(v: nat, len: nat): nat
    requires len > 0
  {
    if v == 0 then len else len * WordCount(v, len)
  }

  lemma {:induction false} WrittenIfFits(v: nat, len: nat)
    requires len > 0 && v < Pow2(8 * len)
    ensures Written(v, len) == len
  {
    WordCountBounds(v, len);
    var c := WordCount(v, len);
    if v > 0 && c > 1 {
      MulLe(len, 1, c - 1);
      Pow2Monotone(8 * len, 8 * (len * (c - 1)));
    }
  }

  lemma {:induction false} WrittenAtLeast(v: nat, len: nat)
    requires len > 0
    ensures len <= Written(v, len) && len * WordCount(v, len) <= Written(v, len)
  {
    WordCountBounds(v, len);
    assert v == 0 ==> WordCount(v, len) == 0 by { DivUnique(len - 1, len, 0, len - 1); }
    if v > 0 {
      MulLe(len, 1, WordCount(v, len));
    }
  }

  /** __mpz_export_data: the bytes of the number in that order, in len bytes, or in
      as many full words of len bytes as it needs. */
  method ExportData(data: array<Byte>, op: Mpz, order: ByteOrder, len: nat)
    requires op.Valid() && 0 < len && Written(op.Magnitude(), len) <= data.Length
    modifies data
    ensures var n := Written(op.Magnitude(), len);
      data[..n] == Export(op.Magnitude(), order, n) && data[n..] == old(data[n..])
  {
    hide Pow2;
    hide Val;
    hide Export;
    hide WordCount;
    WrittenAtLeast(op.Magnitude(), len);
    forall i | 0 <= i < len {
      data[i] := 0;
    }
    var r, count := MpzExport(data, Endian(order), len, Endian(order), op);
    if op.size == 0 {
      assert op.d[..0] == [];
      EmptyIsZero();
      ExportZero(order, len);
      assert data[..len] == Zeros(len);
    } else {
      NotZero(op);
    }
  }

  lemma {:induction false} NotZero(x: Mpz)
    requires x.Valid() && x.size != 0
    ensures x.Magnitude() > 0
  {
    ValTop(x.d[..Abs(x.size)]);
    MulLe(Pow(Abs(x.size) - 1), 1, x.d[Abs(x.size) - 1]);
  }

  /** __mpz_import_data */
  method ImportData(rop: Mpz, data: array<Byte>, order: ByteOrder)
    requires rop.Valid()
    modifies rop, rop.d
    ensures rop.Valid() && rop.Int() == Import(old(data[..]), order)
    ensures data[..] == old(data[..])
    ensures rop.d == old(rop.d) || fresh(rop.d)
  {
    MpzImport(rop, data.Length, Endian(order), 1, Endian(order), data);
  }

  /** __mpz_switch_byteorder: the bytes of the number, reversed. */
  method SwitchByteorder(rop: Mpz, len: nat)
    requires rop.Valid() && len > 0 && rop.Magnitude() < Pow2(8 * len)
    modifies rop, rop.d
    ensures rop.Valid() && rop.Int() == Import(Reversed(Export(old(rop.Magnitude()), Host, len)), Host)
    ensures 0 <= rop.Int() < Pow2(8 * len) && Export(rop.Int(), Host, len) == Reversed(Export(old(rop.Magnitude()), Host, len))
  {
    hide Pow2;
    hide Val;
    ghost var m := rop.Magnitude();
    var data := new Byte[len];
    WrittenIfFits(m, len);
    ExportData(data, rop, Big, len);
    assert data[..len] == data[..];
    ImportData(rop, data, Host);
    ExportOtherOrder(m, len);
    ExportImport(Export(m, Big, len), Host);
  }

  /** Switching twice gives the number back. */
  lemma {:induction false} SwitchTwice(m: nat, len: nat)
    requires m < Pow2(8 * len)
    ensures var once := Import(Reversed(Export(m, Host, len)), Host);
      Import(Reversed(Export(once, Host, len)), Host) == m
  {
    hide Pow2;
    var s := Export(m, Host, len);
    ExportImport(Reversed(s), Host);
    ReversedTwice(s);
    ImportExport(m, Host, len);
  }
}
