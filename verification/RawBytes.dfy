/** netlink_gen_raw_data (src/netlink.c): the data of an instruction are the first
    bytes of what the export function writes. */
module RawBytes {
  import opened Arith
  import opened Bits
  import opened PowerOfTwo
  import opened Bytes
  import opened MpzObject
  import opened ByteIO
  import opened Shortened

  lemma {:induction false} ShrBounds(v: nat, a: nat, b: nat, c: nat)
    requires Pow2(a + b) <= v < Pow2(a + c)
    ensures Pow2(b) <= Shr(v, a) < Pow2(c)
  {
    Pow2Add(a, b);
    Pow2Add(a, c);
    hide Pow2;
    QuotientBelow(v, Pow2(a), Pow2(c));
    if Shr(v, a) < Pow2(b) {
      SplitBy(v, Pow2(a));
      MulLe(Pow2(a), Shr(v, a) + 1, Pow2(b));
      Dist(Pow2(a), Shr(v, a), 1);
    }
  }

  /** Of c words the most significant one. */
  lemma {:induction false} TopWordIs(v: nat, n: nat, c: nat)
    requires n > 0 && c > 0 && v < Pow2(8 * (n * c)) && (c > 1 ==> Pow2(8 * (n * (c - 1))) <= v)
    ensures 0 <= n * (c - 1) && TopWord(v, n) == Shr(v, 8 * (n * (c - 1)))
    decreases c
  {
    MulLe(n, 0, c - 1);
    if c == 1 {
      ShrNothing(v);
    } else {
      MulLe(n, 0, c - 2);
      DistSub(n, c - 1, 1);
      DistSub(n, c, 1);
      Pow2Monotone(8 * n, 8 * (n * (c - 1)));
      hide Pow2;
      ShrBounds(v, 8 * n, 8 * (n * (c - 2)), 8 * (n * (c - 1)));
      TopWordIs(Shr(v, 8 * n), n, c - 1);
      ShrTwice(v, 8 * n, 8 * (n * (c - 2)));
    }
  }

  /** The first word that is written: the most significant one in network order, the
      least significant one in host order. */
  lemma {:induction false} RawDataWritten(v: nat, order: ByteOrder, n: nat)
    requires n > 0
    ensures n <= Written(v, n) && Export(v, order, Written(v, n))[..n] == RawData(v, order, n)
  {
    hide Export;
    hide Pow2;
    hide TopWord;
    var total := Written(v, n);
    WrittenAtLeast(v, n);
    WordCountBounds(v, n);
    if v == 0 {
      ZeroFits(n);
      RawDataFits(0, order, n);
      assert Export(0, order, n)[..n] == Export(0, order, n);
    } else {
      var c := WordCount(v, n);
      DistSub(n, c, 1);
      TopWordIs(v, n, c);
      LeadBytes(v, order, n, total);
    }
  }

  lemma {:induction false} ZeroFits(n: nat)
    ensures 0 < Pow2(8 * n)
  {
  }

  /** netlink_gen_raw_data, into a buffer that is long enough for what is exported. */
  method GenRawData(value: Mpz, order: ByteOrder, len: nat, data: array<Byte>)
    requires value.Valid() && len > 0 && Written(value.Magnitude(), len) <= data.Length
    modifies data
    ensures data[..len] == RawData(value.Magnitude(), order, len)
  {
    hide Export;
    hide RawData;
    hide Written;
    ghost var v := value.Magnitude();
    ExportData(data, value, order, len);
    RawDataWritten(v, order, len);
    assert data[..Written(v, len)][..len] == data[..len];
  }
}
