/**
 * The packed body index IBODY of the distributed wrapper: bits 0..28 hold
 * the body's ordinal on the calling rank, bits 29..31 hold the 3-bit code
 * returned by the periodic `wrap`.  The C field is a signed 32-bit int; the
 * model keeps its bit pattern as a `bv32`, so `unsigned(IBODY)` is the
 * pattern itself.
 */
module BodyIndex {

  /** Number of ordinals the low field can hold: 2^29. */
  const IndexLimit: int := 0x2000_0000

  /** `~(0x7U << shift)` with `shift` = 29. */
  const Mask: bv32 := 0x1FFF_FFFF

  /** A periodic-wrap code as produced by `wrap`: three bits. */
  type WrapCode = bv3

  /** `i | (iwrap << shift)`, where `ordinal` is the bit pattern of `i`. */
  function Encode(ordinal: bv32, iwrap: WrapCode): bv32
  {
    ordinal | ((iwrap as bv32) << 29)
  }

  /** `unsigned(IBODY) >> shift`. */
  function DecodeWrap(b: bv32): WrapCode
  {
    (b >> 29) as bv3
  }

  /** `IBODY & mask`. */
  function DecodeIndex(b: bv32): bv32
  {
    b & Mask
  }

  /** The wrapper's mask constant is the complement of the shifted 3-bit field. */
  lemma MaskIsComplementOfWrapField()
    ensures Mask == !(7 << 29)
  {
  }

  /** Decoding recovers both fields of an encoded index whose ordinal fits in 29 bits. */
  lemma DecodeEncode(ordinal: bv32, iwrap: WrapCode)
    requires ordinal < 0x2000_0000
    ensures DecodeWrap(Encode(ordinal, iwrap)) == iwrap
    ensures DecodeIndex(Encode(ordinal, iwrap)) == ordinal
  {
  }

  /** The same round trip, starting from the C int ordinal the wrapper packs. */
  lemma DecodeEncodeOrdinal(i: int, iwrap: WrapCode)
    requires 0 <= i < IndexLimit
    ensures DecodeWrap(Encode(i as bv32, iwrap)) == iwrap
    ensures DecodeIndex(Encode(i as bv32, iwrap)) == i as bv32
  {
    assert i as bv32 < 0x2000_0000;
    DecodeEncode(i as bv32, iwrap);
  }

  /** Every 32-bit pattern is the encoding of its two decoded fields. */
  lemma EncodeDecode(b: bv32)
    ensures Encode(DecodeIndex(b), DecodeWrap(b)) == b
  {
  }

  /** A wrap code of 4 or more sets bit 31: the signed C int is negative and
      the code is recovered only because decoding shifts the unsigned value. */
  lemma HighWrapCodeSetsSignBit(ordinal: bv32, iwrap: WrapCode)
    requires ordinal < 0x2000_0000
    ensures iwrap >= 4 <==> Encode(ordinal, iwrap) >= 0x8000_0000
  {
  }

  /** An ordinal of 2^29 spills into the wrap-code field. */
  lemma OrdinalOverflowCorruptsWrap()
    ensures DecodeWrap(Encode(0x2000_0000, 0)) == 1
    ensures DecodeIndex(Encode(0x2000_0000, 0)) == 0
  {
  }
}
