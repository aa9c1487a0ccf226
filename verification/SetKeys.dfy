/** Keys of several components: how they are laid out as bytes for the kernel, and
    how the components are cut out of what the kernel returns (src/netlink.c). */
module SetKeys {
  import opened Lengths
  import opened Arith
  import opened Bits
  import opened PowerOfTwo
  import opened BinopFold
  import opened Bytes
  import opened PacketBits
  import PayloadBits
  import Machine

  /** A component as an expression: a value, a prefix or a range, perhaps wrapped. */
  datatype Component =
    | Value(value: nat)
    | Prefix(base: Component, prefixLen: nat)
    | Range(low: Component, high: Component)
    | Mapping(from: Component)
    | Elem(key: Component)

  /** What the type of a set says of a component. */
  datatype Subtype = Subtype(size: nat, order: ByteOrder)

  /* ---- Ends of a component ---- */

  /** range_expr_value_low */
  function Low(c: Component): nat
  {
    match c
    case Value(v) => v
    case Prefix(base, _) => Low(base)
    case Range(low, _) => Low(low)
    case Mapping(from) => Low(from)
    case Elem(key) => Low(key)
  }

  /** range_expr_value_high, for components of so many bits. */
  function High(c: Component, size: nat): nat
  {
    match c
    case Value(v) => v
    case Prefix(base, n) => if n <= size then Low(base) + Ones(size - n) else Low(base)
    case Range(_, high) => High(high, size)
    case Mapping(from) => High(from, size)
    case Elem(key) => High(key, size)
  }

  /** What a set key may consist of. */
  predicate IsPlain(c: Component, size: nat)
  {
    match c
    case Value(v) => v < Pow2(size)
    case Prefix(Value(v), n) => n <= size && v < Pow2(size) && v % Pow2(size - n) == 0
    case Range(Value(a), Value(b)) => a < Pow2(size) && b < Pow2(size)
    case _ => false
  }

  function EndOf(c: Component, size: nat, end: bool): nat
  {
    if end then High(c, size) else Low(c)
  }

  /** The last number of an aligned block is still of the width. */
  lemma {:induction false} BlockEnd(v: nat, size: nat, k: nat)
    requires k <= size && v < Pow2(size) && v % Pow2(k) == 0
    ensures v + Ones(k) < Pow2(size)
  {
    Pow2Add(k, size - k);
    hide Pow2;
    var p, q, h := Pow2(k), Pow2(size - k), v / Pow2(k);
    assert v == p * h;
    if h >= q {
      MulLe(p, q, h);
    }
    MulLe(p, h + 1, q);
    Dist(p, h, 1);
  }

  /** The values that a plain component stands for: one number, those whose first
      bits are those of the base, or those between two numbers. */
  predicate Contains(c: Component, size: nat, y: nat)
    requires IsPlain(c, size)
  {
    match c
    case Value(v) => y == v
    case Prefix(base, n) => Shr(y, size - n) == Shr(base.value, size - n)
    case Range(low, high) => low.value <= y <= high.value
  }

  lemma {:induction false} SameQuotient(v: nat, y: nat, p: nat)
    requires 0 < p && v % p == 0
    ensures y / p == v / p <==> v <= y <= v + (p - 1)
  {
    SplitBy(v, p);
    SplitBy(y, p);
    if v <= y <= v + (p - 1) {
      DivUnique(y, p, v / p, y - v);
    }
  }

  /** The two ends that a key is made of bound exactly what the component contains. */
  lemma {:induction false} PlainEnds(c: Component, size: nat, y: nat)
    requires IsPlain(c, size)
    ensures Contains(c, size, y) <==> Low(c) <= y <= High(c, size)
  {
    hide Pow2;
    match c
    case Value(_) =>
    case Prefix(base, n) =>
      assert Low(base) == base.value;
      SameQuotient(base.value, y, Pow2(size - n));
    case Range(low, high) => assert Low(low) == low.value && High(high, size) == high.value;
  }

  lemma {:induction false} EndFits(c: Component, size: nat, end: bool)
    requires IsPlain(c, size)
    ensures EndOf(c, size, end) < Pow2(size)
  {
    if c.Prefix? {
      BlockEnd(c.base.value, size, size - c.prefixLen);
      assert Low(c.base) == c.base.value;
    } else if c.Range? {
      assert Low(c.low) == c.low.value && High(c.high, size) == c.high.value;
    }
  }

  /* ---- The bytes of a key ---- */

  /** A key of these types. */
  predicate KeyTyped(parts: seq<Component>, types: seq<Subtype>)
  {
    |parts| == |types| && forall i :: 0 <= i < |parts| ==> IsPlain(parts[i], types[i].size)
  }

  /** Values of variable length are not components of keys. */
  predicate Sized(types: seq<Subtype>)
  {
    forall i :: 0 <= i < |types| ==> types[i].size > 0
  }

  predicate WholeBytes(types: seq<Subtype>)
  {
    forall i :: 0 <= i < |types| ==> types[i].size % 8 == 0
  }

  function PartImage(c: Component, t: Subtype, end: bool): (s: seq<Byte>)
    ensures |s| == ByteLen(t.size)
  {
    Export(EndOf(c, t.size, end), t.order, ByteLen(t.size))
  }

  function KeyImage(parts: seq<Component>, types: seq<Subtype>, end: bool): (s: seq<Byte>)
    requires |parts| == |types|
    ensures |s| == KeyBytes(types)
  {
    if parts == [] then []
    else Machine.Padded(PartImage(parts[0], types[0], end)) + KeyImage(parts[1..], types[1..], end)
  }

  /** The bytes of a concatenated type: those of its padded components. */
  function KeyBytes(types: seq<Subtype>): nat
  {
    if types == [] then 0 else Machine.PadLength(ByteLen(types[0].size)) + KeyBytes(types[1..])
  }

  lemma {:induction false} PaddedBytes(size: nat)
    ensures PaddedLen(size) == 8 * Machine.PadLength(ByteLen(size))
    ensures ByteLen(size) <= Machine.PadLength(ByteLen(size))
  {
  }

  /** netlink_export_pad: the bytes are written, and as many are skipped as the
      padded component takes. */
  method ExportPad(data: array<Byte>, offset: nat, v: nat, t: Subtype) returns (count: nat)
    requires offset + ByteLen(t.size) <= data.Length
    modifies data
    ensures count == Machine.PadLength(ByteLen(t.size))
    ensures data[..] == Patch(old(data[..]), offset, Export(v, t.order, ByteLen(t.size)))
  {
    hide Export;
    PaddedBytes(t.size);
    var s := Export(v, t.order, ByteLen(t.size));
    forall k | 0 <= k < |s| {
      data[offset + k] := s[k];
    }
    count := PaddedLen(t.size) / 8;
  }

  /** netlink_gen_concat_data_expr */
  method GenPart(end: bool, c: Component, t: Subtype, data: array<Byte>, offset: nat) returns (count: nat)
    requires offset + ByteLen(t.size) <= data.Length && IsPlain(c, t.size)
    modifies data
    ensures count == Machine.PadLength(ByteLen(t.size))
    ensures data[..] == Patch(old(data[..]), offset, PartImage(c, t, end))
  {
    hide Export;
    hide ByteLen;
    hide Machine.PadLength;
    hide EndOf;
    hide Patch;
    PlainEnd(c, t.size, end);
    hide IsPlain;
    var v;
    match c {
      case Value(x) => v := x;
      case Prefix(base, n) => v := if end then base.value + Ones(t.size - n) else base.value;
      case Range(low, high) => v := if end then high.value else low.value;
    }
    count := ExportPad(data, offset, v, t);
  }

  lemma {:induction false} PlainEnd(c: Component, size: nat, end: bool)
    requires IsPlain(c, size)
    ensures c.Prefix? ==> c.base.Value? && c.prefixLen <= size
    ensures c.Range? ==> c.low.Value? && c.high.Value?
    ensures EndOf(c, size, end) == match c
      case Value(v) => v
      case Prefix(base, n) => if end then base.value + Ones(size - n) else base.value
      case Range(low, high) => if end then high.value else low.value
  {
    match c
    case Value(_) =>
    case Prefix(base, _) => assert Low(base) == base.value;
    case Range(low, high) => assert Low(low) == low.value && High(high, size) == high.value;
  }

  /** One component more behind the bytes that are done. */
  method PlacePart(end: bool, c: Component, t: Subtype, data: array<Byte>, offset: nat, ghost done: seq<Byte>)
    returns (count: nat)
    requires |done| == offset && offset + Machine.PadLength(ByteLen(t.size)) <= data.Length && IsPlain(c, t.size)
    requires data[..] == done + Zeros(data.Length - offset)
    modifies data
    ensures count == Machine.PadLength(ByteLen(t.size))
    ensures data[..] == (done + Machine.Padded(PartImage(c, t, end))) + Zeros(data.Length - offset - count)
  {
    hide PartImage;
    hide IsPlain;
    hide ByteLen;
    hide Patch;
    hide Machine.Padded;
    count := GenPart(end, c, t, data, offset);
    PadStep(done, PartImage(c, t, end), data.Length - offset);
  }

  /** netlink_gen_concat_data: the bytes of a key are those of its components, each
      padded with zero bytes to full slots. */
  method GenConcatData(parts: seq<Component>, types: seq<Subtype>, end: bool) returns (data: array<Byte>)
    requires KeyTyped(parts, types)
    ensures data[..] == KeyImage(parts, types, end)
  {
    hide PartImage;
    hide IsPlain;
    hide KeyImage;
    hide KeyBytes;
    hide ByteLen;
    hide Patch;
    hide Machine.PadLength;
    hide Machine.Padded;
    var len := KeyBytes(types);
    data := new Byte[len](i => 0);
    var i, offset := 0, 0;
    ghost var done: seq<Byte> := [];
    assert data[..] == Zeros(len) && parts[0..] == parts && types[0..] == types;
    while i < |parts|
      invariant 0 <= i <= |parts| && |done| == offset <= len
      invariant offset + KeyBytes(types[i..]) == len
      invariant data[..] == done + Zeros(len - offset)
      invariant done + KeyImage(parts[i..], types[i..], end) == KeyImage(parts, types, end)
    {
      FirstPart(parts[i..], types[i..], end);
      assert parts[i..][1..] == parts[i + 1..] && types[i..][1..] == types[i + 1..];
      var count := PlacePart(end, parts[i], types[i], data, offset, done);
      Regroup(done, Machine.Padded(PartImage(parts[i], types[i], end)), KeyImage(parts[i + 1..], types[i + 1..], end));
      done := done + Machine.Padded(PartImage(parts[i], types[i], end));
      offset := offset + count;
      i := i + 1;
    }
    assert parts[i..] == [] && types[i..] == [];
    NoParts(end);
  }

  lemma {:induction false} NoParts(end: bool)
    ensures KeyImage([], [], end) == [] && KeyBytes([]) == 0
  {
  }

  /** Bytes written into zeros are padded already. */
  lemma {:induction false} PadStep(done: seq<Byte>, s: seq<Byte>, n: nat)
    requires Machine.PadLength(|s|) <= n
    ensures var m := Machine.PadLength(|s|);
      Patch(done + Zeros(n), |done|, s) == (done + Machine.Padded(s)) + Zeros(n - m)
  {
  }

  lemma {:induction false} FirstPart(parts: seq<Component>, types: seq<Subtype>, end: bool)
    requires |parts| == |types| && parts != []
    ensures KeyImage(parts, types, end)
      == Machine.Padded(PartImage(parts[0], types[0], end)) + KeyImage(parts[1..], types[1..], end)
    ensures KeyBytes(types) == Machine.PadLength(ByteLen(types[0].size)) + KeyBytes(types[1..])
    ensures ByteLen(types[0].size) <= Machine.PadLength(ByteLen(types[0].size))
  {
  }

  /* ---- Cutting components out of a constant ---- */

  lemma {:induction false} ImportAppend(s: seq<Byte>, t: seq<Byte>)
    ensures Import(s + t, Big) == Import(t, Big) + Pow2(8 * |t|) * Import(s, Big)
  {
    assert Reversed(s + t) == Reversed(t) + Reversed(s);
    LeAppend(Reversed(t), Reversed(s));
  }

  /** The constant that is cut: len is what is left of it, its value keeps the bits
      that have been cut off. */
  class ConstExpr {
    var value: nat
    var len: nat

    constructor (v: nat, l: nat)
      ensures value == v && len == l
    {
      value, len := v, l;
    }

    /** constant_expr_splice: the highest bits of what is left. */
    method Splice(n: nat) returns (slice: nat)
      requires n <= len
      modifies this`len
      ensures len == old(len) - n
      ensures slice == Shr(value, len) % Pow2(n)
    {
      var mask := Shl(Ones(n), len - n);
      slice := Shr(NatBits(And, value, mask), len - n);
      SpliceValue(value, len - n, n);
      len := len - n;
    }
  }

  lemma {:induction false} SpliceValue(value: nat, k: nat, n: nat)
    ensures Shr(NatBits(And, value, Shl(Ones(n), k)), k) == Shr(value, k) % Pow2(n)
  {
    hide Pow2;
    hide NatBits;
    hide Shl;
    var p, q := Pow2(k), Pow2(n);
    var h := value / p;
    PayloadBits.ReadMiddle(value % p, h % q, h / q, k, n);
    SplitTwice(value, p, q);
  }

  lemma {:induction false} SplitTwice(value: nat, p: nat, q: nat)
    requires 0 < p && 0 < q
    ensures value == value % p + p * ((value / p) % q + q * ((value / p) / q))
  {
    var h := value / p;
    assert h == h % q + q * (h / q);
    assert value == value % p + p * h;
  }

  /** mpz_switch_byteorder */
  function Switched(v: nat, n: nat): nat
  {
    Import(Export(v, Big, n), Host)
  }

  /** The assertion of mpz_switch_byteorder: no component in host order that is not
      even a byte. */
  predicate Switches(t: Subtype)
  {
    t.order == Host ==> t.size >= 8
  }

  function Cut(value: nat, len: nat, t: Subtype): nat
    requires t.size <= len
  {
    var v := Shr(value, len - t.size) % Pow2(t.size);
    if t.order == Host then Switched(v, t.size / 8) else v
  }

  /** One component: cut out, turned round if it is in host order, and its padding
      dropped. */
  method ParsePart(data: ConstExpr, t: Subtype) returns (v: nat)
    requires PaddedLen(t.size) <= data.len && Switches(t)
    modifies data`len
    ensures data.len == old(data.len) - PaddedLen(t.size)
    ensures v == Cut(data.value, old(data.len), t)
  {
    v := data.Splice(t.size);
    if t.order == Host {
      v := Switched(v, t.size / 8);
    }
    data.len := data.len - PaddingLen(t.size);
  }

  lemma {:induction false} FirstBytes(types: seq<Subtype>)
    requires types != []
    ensures 8 * KeyBytes(types) == PaddedLen(types[0].size) + 8 * KeyBytes(types[1..])
    ensures types[0].size <= PaddedLen(types[0].size)
  {
    PaddedBytes(types[0].size);
  }

  function Prepend(s: seq<nat>, rest: Option<seq<nat>>): Option<seq<nat>>
  {
    if rest.Some? then Some(s + rest.value) else None
  }

  /** The components of a constant of these types, or no result if an assertion fails. */
  function Parsed(types: seq<Subtype>, value: nat): Option<seq<nat>>
  {
    if types == [] then Some([])
    else
      FirstBytes(types);
      if Switches(types[0]) then Prepend([Cut(value, 8 * KeyBytes(types), types[0])], Parsed(types[1..], value)) else None
  }

  lemma {:induction false} PrependTwice(s: seq<nat>, v: nat, rest: Option<seq<nat>>)
    ensures Prepend(s, Prepend([v], rest)) == Prepend(s + [v], rest) && Prepend([], rest) == rest && Prepend(s, None) == None
  {
    if rest.Some? {
      assert s + ([v] + rest.value) == (s + [v]) + rest.value;
      assert [] + rest.value == rest.value;
    }
  }

  /** netlink_parse_concat_elem */
  method ParseConcatElem(types: seq<Subtype>, data: ConstExpr) returns (values: Option<seq<nat>>)
    requires data.len == 8 * KeyBytes(types)
    modifies data`len
    ensures values == Parsed(types, data.value)
  {
    hide PaddedLen;
    hide ByteLen;
    hide KeyBytes;
    hide Cut;
    hide Prepend;
    values := Some([]);
    var off := |types|;
    assert types[0..] == types;
    PrependTwice([], 0, Parsed(types, data.value));
    while off > 0
      invariant 0 <= off <= |types| && values.Some?
      invariant data.len == 8 * KeyBytes(types[|types| - off..])
      invariant Prepend(values.value, Parsed(types[|types| - off..], data.value)) == Parsed(types, data.value)
    {
      off := off - 1;
      var i := |types| - 1 - off;
      FirstBytes(types[i..]);
      assert types[i..][0] == types[i] && types[i..][1..] == types[i + 1..];
      PrependTwice(values.value, Cut(data.value, data.len, types[i]), Parsed(types[i + 1..], data.value));
      if !Switches(types[i]) {
        return None;
      }
      var v := ParsePart(data, types[i]);
      values := Some(values.value + [v]);
    }
    assert types[|types|..] == [];
    LastPrepend(values.value);
  }

  lemma {:induction false} LastPrepend(s: seq<nat>)
    ensures Prepend(s, Some([])) == Some(s)
  {
    assert s + [] == s;
  }

  /* ---- The round trip ---- */

  /** What comes back for a value of one component. */
  function Returned(v: nat, t: Subtype): nat
  {
    var n := ByteLen(t.size);
    var u := Shr(Import(Export(v, t.order, n), Big), 8 * n - t.size);
    if t.order == Host then Switched(u, t.size / 8) else u
  }

  /** What is cut off the front of a padded component: its leading bits. */
  lemma {:induction false} CutFirst(v: nat, t: Subtype, rest: seq<Byte>, hi: nat)
    ensures var s := Machine.Padded(Export(v, t.order, ByteLen(t.size))) + rest;
      t.size <= 8 * |s| &&
      Cut(Import(s, Big) + Shl(hi, 8 * |s|), 8 * |s|, t) == Returned(v, t)
  {
    hide Pow2;
    hide Export;
    hide Import;
    hide Switched;
    hide Shl;
    hide Shr;
    var e := Export(v, t.order, ByteLen(t.size));
    var pad := Machine.Padded(e)[|e|..] + rest;
    assert Machine.Padded(e) + rest == e + pad;
    ImportAppend(e, pad);
    ExportImport(e, Big);
    ExportImport(pad, Big);
    HighBits(Import(pad, Big), Import(e, Big), hi, 8 * |pad|, t.size, 8 * |e| - t.size);
  }

  /** Above d, in the middle of three parts. */
  lemma {:induction false} MiddleQuotient(lo: nat, mid: nat, hi: nat, p: nat, d: nat, q: nat)
    requires 0 < p && 0 < d && 0 < q && lo < p && mid < d * q
    ensures ((lo + p * (mid + d * (q * hi))) / (p * d)) % q == mid / d
  {
    var m := mid + d * (q * hi);
    DivUnique(lo + p * m, p, m, lo);
    DivDiv(lo + p * m, p, d);
    QuotientBelow(mid, d, q);
    Dist(d, mid / d, q * hi);
    DivUnique(m, d, mid / d + q * hi, mid % d);
    DivUnique(mid / d + q * hi, q, hi, mid / d);
  }

  /** The leading n bits of the middle of three parts. */
  lemma {:induction false} HighBits(lo: nat, mid: nat, hi: nat, k: nat, n: nat, r: nat)
    requires lo < Pow2(k) && mid < Pow2(r + n)
    ensures Shr((lo + Pow2(k) * mid) + Shl(hi, k + (r + n)), k + r) % Pow2(n) == Shr(mid, r)
  {
    Pow2Add(k, r + n);
    Pow2Add(r, n);
    Pow2Add(k, r);
    hide Pow2;
    var p, q, d := Pow2(k), Pow2(n), Pow2(r);
    Assoc(p, d * q, hi);
    Assoc(d, q, hi);
    Dist(p, mid, d * (q * hi));
    MiddleQuotient(lo, mid, hi, p, d, q);
  }

  /** The i-th component, however many are in front of it. */
  lemma {:induction false} CutIsPart(parts: seq<Component>, types: seq<Subtype>, end: bool, i: nat)
    requires |parts| == |types| && i < |parts|
    ensures types[i].size <= 8 * KeyBytes(types[i..])
    ensures Cut(Import(KeyImage(parts, types, end), Big), 8 * KeyBytes(types[i..]), types[i])
      == Returned(EndOf(parts[i], types[i].size, end), types[i])
  {
    hide Pow2;
    hide Import;
    hide Shl;
    hide Cut;
    hide Export;
    hide EndOf;
    hide Machine.Padded;
    hide Returned;
    var front := FrontPart(parts, types, end, i);
    var s := KeyImage(parts[i..], types[i..], end);
    ImportAppend(front, s);
    assert Shl(Import(front, Big), 8 * |s|) == Pow2(8 * |s|) * Import(front, Big) by { ShlIs(Import(front, Big), 8 * |s|); }
    FirstPart(parts[i..], types[i..], end);
    assert parts[i..][0] == parts[i] && types[i..][0] == types[i];
    CutFirst(EndOf(parts[i], types[i].size, end), types[i], KeyImage(parts[i..][1..], types[i..][1..], end), Import(front, Big));
  }

  /** The components in front are bytes in front. */
  lemma {:induction false} FrontPart(parts: seq<Component>, types: seq<Subtype>, end: bool, i: nat)
    returns (front: seq<Byte>)
    requires |parts| == |types| && i <= |parts|
    ensures KeyImage(parts, types, end) == front + KeyImage(parts[i..], types[i..], end)
    decreases i
  {
    hide KeyImage;
    hide PartImage;
    hide Machine.Padded;
    if i == 0 {
      front := [];
      assert parts[0..] == parts && types[0..] == types;
    } else {
      var rest := FrontPart(parts[1..], types[1..], end, i - 1);
      assert parts[1..][i - 1..] == parts[i..] && types[1..][i - 1..] == types[i..];
      FirstPart(parts, types, end);
      front := Machine.Padded(PartImage(parts[0], types[0], end)) + rest;
      Regroup(Machine.Padded(PartImage(parts[0], types[0], end)), rest, KeyImage(parts[i..], types[i..], end));
    }
  }

  predicate CutAt(parts: seq<Component>, types: seq<Subtype>, end: bool, value: nat, i: nat)
    requires |parts| == |types| && i < |types|
  {
    && types[i].size <= 8 * KeyBytes(types[i..])
    && Cut(value, 8 * KeyBytes(types[i..]), types[i]) == Returned(EndOf(parts[i], types[i].size, end), types[i])
  }

  /** All of them, one after the other. */
  lemma {:induction false} ParsedKey(parts: seq<Component>, types: seq<Subtype>, end: bool, value: nat)
    requires |parts| == |types|
    requires forall i :: 0 <= i < |types| ==> CutAt(parts, types, end, value, i)
    ensures var r := Parsed(types, value);
      && (r.Some? <==> forall i :: 0 <= i < |types| ==> Switches(types[i]))
      && (r.Some? ==> |r.value| == |types|)
      && (r.Some? ==> forall i :: 0 <= i < |types| ==> r.value[i] == Returned(EndOf(parts[i], types[i].size, end), types[i]))
  {
    hide Cut;
    hide KeyBytes;
    hide Returned;
    hide EndOf;
    hide Switches;
    hide Prepend;
    if types != [] {
      var rest := types[1..];
      assert types[0..] == types;
      forall i | 0 <= i < |rest|
        ensures CutAt(parts[1..], rest, end, value, i)
      {
        assert rest[i..] == types[i + 1..] && CutAt(parts, types, end, value, i + 1);
      }
      ParsedKey(parts[1..], rest, end, value);
      assert CutAt(parts, types, end, value, 0);
      var first := Returned(EndOf(parts[0], types[0].size, end), types[0]);
      PrependOne(first, Parsed(rest, value));
      assert forall i :: 0 < i < |types| ==> types[i] == rest[i - 1] && parts[i] == parts[1..][i - 1];
      assert forall i :: 0 <= i < |rest| ==> rest[i] == types[i + 1];
    }
  }

  lemma {:induction false} PrependOne(v: nat, rest: Option<seq<nat>>)
    ensures var r := Prepend([v], rest);
      && (r.Some? <==> rest.Some?)
      && (r.Some? ==> |r.value| == |rest.value| + 1 && r.value[0] == v)
      && (r.Some? ==> forall i :: 0 < i < |r.value| ==> r.value[i] == rest.value[i - 1])
  {
  }

  /** Whole bytes come back as they were. */
  lemma {:induction false} WholeComesBack(v: nat, t: Subtype)
    requires t.size % 8 == 0 && v < Pow2(t.size)
    ensures Returned(v, t) == v
  {
    hide Pow2;
    hide Export;
    hide Import;
    var n := ByteLen(t.size);
    assert 8 * n == t.size;
    ShrNothing(Import(Export(v, t.order, n), Big));
    ExportImport(Export(v, t.order, n), Big);
    ImportExport(v, t.order, n);
  }

  lemma {:induction false} ZeroBytes(order: ByteOrder, n: nat)
    ensures Import(Zeros(n), order) == 0
  {
    Pow2Monotone(0, 8 * n);
    ExportZero(order, n);
    ImportExport(0, order, n);
  }

  lemma {:induction false} OneByte(order: ByteOrder)
    ensures Import([1], order) == 1
  {
    assert [1 as Byte][1..] == [];
    assert Reversed([1]) == [1];
    assert Le([1]) == 1;
  }

  lemma {:induction false} OneShiftedOut(r: nat)
    requires r > 0
    ensures Shr(1, r) == 0
  {
    Pow2Strict(0, r);
  }

  /** The number whose highest byte, in host order the last one, is one. */
  lemma {:induction false} HighestOne(n: nat) returns (v: nat)
    requires n > 0
    ensures v == Pow2(8 * (n - 1)) && Import(Export(v, Host, n), Big) == 1
  {
    hide Pow2;
    hide Import;
    hide Export;
    var zeros := Zeros(n - 1);
    var s: seq<Byte> := zeros + [1];
    v := Import(s, Host);
    assert v == Pow2(8 * (n - 1)) by {
      LastByte(zeros, 1);
      ZeroBytes(Host, n - 1);
      OneByte(Host);
    }
    ExportImport(s, Host);
    ImportAppend(zeros, [1]);
    ZeroBytes(Big, n - 1);
    OneByte(Big);
  }

  lemma {:induction false} LastByte(s: seq<Byte>, b: Byte)
    ensures Import(s + [b], Host) == Import(s, Host) + Pow2(8 * |s|) * Import([b], Host)
  {
    LeAppend(s, [b]);
  }

  /** Of a number of another size a bit is lost: the lowest one in network order, the
      lowest one of the highest byte in host order. */
  lemma {:induction false} BitLost(t: Subtype) returns (v: nat)
    requires t.size % 8 != 0 && Switches(t)
    ensures v < Pow2(t.size) && Returned(v, t) != v
  {
    hide Import;
    hide Export;
    var n := ByteLen(t.size);
    OneShiftedOut(8 * n - t.size);
    if t.order == Big {
      v := 1;
      Pow2Strict(0, t.size);
      Pow2Monotone(t.size, 8 * n);
      ImportExport(1, Big, n);
    } else {
      v := HighestOne(n);
      Pow2Strict(8 * (n - 1), t.size);
      SwitchedZero(t.size / 8);
    }
  }

  lemma {:induction false} SwitchedZero(n: nat)
    ensures Switched(0, n) == 0
  {
    ExportZero(Big, n);
    ZeroBytes(Host, n);
  }

  /** The ends of a key that are written are what is read. */
  predicate KeyComesBack(parts: seq<Component>, types: seq<Subtype>, end: bool)
    requires |parts| == |types|
  {
    var r := Parsed(types, Import(KeyImage(parts, types, end), Big));
    && r.Some? && |r.value| == |types|
    && forall i :: 0 <= i < |types| ==> r.value[i] == EndOf(parts[i], types[i].size, end)
  }

  ghost predicate KeysComeBack(types: seq<Subtype>)
  {
    forall parts, end :: KeyTyped(parts, types) ==> KeyComesBack(parts, types, end)
  }

  lemma {:induction false} KeyReturned(parts: seq<Component>, types: seq<Subtype>, end: bool)
    requires |parts| == |types|
    ensures var r := Parsed(types, Import(KeyImage(parts, types, end), Big));
      && (r.Some? <==> forall i :: 0 <= i < |types| ==> Switches(types[i]))
      && (r.Some? ==> |r.value| == |types|)
      && (r.Some? ==> forall i :: 0 <= i < |types| ==> r.value[i] == Returned(EndOf(parts[i], types[i].size, end), types[i]))
  {
    hide Parsed;
    hide KeyImage;
    hide Cut;
    hide Returned;
    hide EndOf;
    hide Switches;
    hide Import;
    var value := Import(KeyImage(parts, types, end), Big);
    forall i | 0 <= i < |types|
      ensures CutAt(parts, types, end, value, i)
    {
      CutIsPart(parts, types, end, i);
    }
    ParsedKey(parts, types, end, value);
  }

  /** A key that is zero but for one component. */
  function OneValue(n: nat, i: nat, v: nat): (parts: seq<Component>)
    requires i < n
    ensures |parts| == n
  {
    seq(n, k => Value(if k == i then v else 0))
  }

  lemma {:induction false} PlainValue(v: nat, size: nat, end: bool)
    requires v < Pow2(size)
    ensures IsPlain(Value(v), size) && EndOf(Value(v), size, end) == v
  {
  }

  /** Every key comes back from its bytes if and only if all its components are whole
      bytes, in either order. */
  lemma {:induction false} ByteMultipleExact(types: seq<Subtype>)
    requires Sized(types)
    ensures KeysComeBack(types) <==> WholeBytes(types)
  {
    hide Pow2;
    hide Parsed;
    hide KeyImage;
    hide Returned;
    hide EndOf;
    hide IsPlain;
    hide Import;
    if WholeBytes(types) {
      forall parts, end | KeyTyped(parts, types)
        ensures KeyComesBack(parts, types, end)
      {
        KeyReturned(parts, types, end);
        forall i | 0 <= i < |types|
          ensures Returned(EndOf(parts[i], types[i].size, end), types[i]) == EndOf(parts[i], types[i].size, end)
        {
          EndFits(parts[i], types[i].size, end);
          WholeComesBack(EndOf(parts[i], types[i].size, end), types[i]);
        }
      }
    } else {
      var i :| 0 <= i < |types| && types[i].size % 8 != 0;
      var v: nat := 0;
      if Switches(types[i]) {
        v := BitLost(types[i]);
      }
      var parts := OneValue(|types|, i, v);
      assert KeyTyped(parts, types) by {
        forall k | 0 <= k < |parts|
          ensures IsPlain(parts[k], types[k].size)
        {
          PlainValue(parts[k].value, types[k].size, false);
        }
      }
      KeyReturned(parts, types, false);
      PlainValue(v, types[i].size, false);
      assert !KeyComesBack(parts, types, false);
    }
  }
}
