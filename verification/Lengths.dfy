/** Lengths in bits, in bytes and in register slots (include/netlink.h and
    include/utils.h), the result of a partial operation, and sequences one after the
    other. */
module Lengths {

  datatype Option<T> = None | Some(value: T)

  /** div_round_up(bits, BITS_PER_BYTE) */
  function ByteLen(bits: nat): nat
  {
    (bits + 7) / 8
  }

  /** netlink_register_space: the slots of four bytes that so many bits take. */
  function Space(bits: nat): nat
  {
    (bits + 31) / 32
  }

  /** netlink_padded_len */
  function PaddedLen(bits: nat): (n: nat)
    ensures n % 32 == 0 && bits <= n < bits + 32
  {
    Space(bits) * 32
  }

  /** netlink_padding_len */
  function PaddingLen(bits: nat): nat
  {
    PaddedLen(bits) - bits
  }

  lemma {:induction false} Regroup<T>(a: seq<T>, b: seq<T>, c: seq<T>)
    ensures (a + b) + c == a + (b + c)
  {
  }
}
