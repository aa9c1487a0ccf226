/** The number that a set element is sorted by: expr_msort_value (src/mergesort.c). */
module SortValue {
  import opened Lengths
  import opened PowerOfTwo
  import opened Bytes

  /** A component of a concatenation: a value of a length in bits and a byte order. */
  datatype Part = Part(value: nat, len: nat, order: ByteOrder)

  datatype Element =
    | Value(value: nat)
    | Concat(parts: seq<Part>)
    | SetElem(key: Element)
    | Binop(left: Element)
    | Mapping(from: Element)

  /** The components one after the other, without padding between them. */
  function Data(parts: seq<Part>): (s: seq<Byte>)
  {
    if parts == [] then []
    else Export(parts[0].value, parts[0].order, ByteLen(parts[0].len)) + Data(parts[1..])
  }

  /** expr_msort_value: the bytes of a concatenation are read back in host order. */
  function MsortValue(e: Element): nat
  {
    match e
    case Value(v) => v
    case Concat(parts) => Import(Data(parts), Host)
    case SetElem(key) => MsortValue(key)
    case Binop(left) => MsortValue(left)
    case Mapping(from) => MsortValue(from)
  }

  /** The same type, component by component, and values that fit it. */
  predicate SameType(a: seq<Part>, b: seq<Part>)
  {
    |a| == |b| &&
    forall i :: 0 <= i < |a| ==>
      && a[i].len == b[i].len && a[i].order == b[i].order
      && a[i].value < Pow2(a[i].len) && b[i].value < Pow2(b[i].len)
  }

  lemma {:induction false} DataEqual(a: seq<Part>, b: seq<Part>)
    requires SameType(a, b)
    ensures |Data(a)| == |Data(b)| && (Data(a) == Data(b) <==> a == b)
  {
    if a != [] {
      var n := ByteLen(a[0].len);
      DataEqual(a[1..], b[1..]);
      var x, y := Export(a[0].value, a[0].order, n), Export(b[0].value, b[0].order, n);
      Pow2Monotone(a[0].len, 8 * n);
      ExportInjective(a[0].value, b[0].value, a[0].order, n);
      assert Data(a) == x + Data(a[1..]) && Data(b) == y + Data(b[1..]);
      hide Data;
      hide Export;
      if Data(a) == Data(b) {
        assert Data(a)[..n] == x && Data(b)[..n] == y;
        assert Data(a)[n..] == Data(a[1..]) && Data(b)[n..] == Data(b[1..]);
      }
      assert a == [a[0]] + a[1..] && b == [b[0]] + b[1..];
    }
  }

  /** Keys of one type have the same number exactly when they are the same key. */
  lemma {:induction false} ValueTellsApart(a: seq<Part>, b: seq<Part>)
    requires SameType(a, b)
    ensures MsortValue(Concat(a)) == MsortValue(Concat(b)) <==> a == b
  {
    DataEqual(a, b);
    ExportImport(Data(a), Host);
    ExportImport(Data(b), Host);
  }
}
