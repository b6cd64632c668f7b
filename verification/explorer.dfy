/**
 * The difference analysis of the BF16 explorer (`updateExplorer`): two float bit
 * patterns are truncated to bfloat16 codes, XOR-ed, and the changed bits are counted
 * in total and per field (sign bit 15, exponent bits 14..7, mantissa bits 6..0).
 */
module Explorer {
  import opened Bits
  import opened Codec

  /** What the explorer displays about a pair of codes. */
  datatype DiffRecord = DiffRecord(
    xor: nat,        // the code XOR, `origBF16 ^ modBF16`
    hamming: nat,    // `hammingDistance(origBF16, modBF16)`
    sign: nat,       // `(xor >> 15) & 1`
    expBits: nat,    // `countBitsInRange(xor, 14, 7)`
    mantBits: nat    // `countBitsInRange(xor, 6, 0)`
  )

  /** The difference record of two codes, with the laws it obeys. */
  function Diff(a: Word16, b: Word16): (d: DiffRecord)
    ensures d.xor < 0x1_0000 && Xor(a, d.xor) == b
    ensures d.hamming == d.sign + d.expBits + d.mantBits
    ensures d.hamming <= 16 && d.sign <= 1 && d.expBits <= 8 && d.mantBits <= 7
    ensures d.hamming == 0 <==> a == b
    ensures d.sign == 1 <==> Bit(a, 15) != Bit(b, 15)
    ensures d.expBits == 0 <==> forall i :: 7 <= i <= 14 ==> Bit(a, i) == Bit(b, i)
    ensures d.mantBits == 0 <==> forall i :: 0 <= i <= 6 ==> Bit(a, i) == Bit(b, i)
  {
    var x := Xor(a, b);
    XorWord16(a, b);
    XorCancel(a, b);
    PopcountRegions(x);
    PopcountZero(x);
    XorZero(a, b);
    XorBits(a, b);
    CountRangeZero(x, 14, 7);
    CountRangeZero(x, 6, 0);
    DiffRecord(x, Popcount(x), Bit(x, 15), CountRange(x, 14, 7), CountRange(x, 6, 0))
  }

  /** A bit of the XOR is clear exactly when the operands agree there. */
  lemma XorBits(a: nat, b: nat)
    ensures forall i: nat :: Bit(Xor(a, b), i) == 0 <==> Bit(a, i) == Bit(b, i)
  {
    forall i: nat
      ensures Bit(Xor(a, b), i) == 0 <==> Bit(a, i) == Bit(b, i)
    {
      XorBit(a, b, i);
    }
  }

  /** Swapping the two codes changes nothing in the record. */
  lemma DiffSymmetric(a: Word16, b: Word16)
    ensures Diff(a, b) == Diff(b, a)
  {
    XorSymmetric(a, b);
  }

  /** A code compared with itself shows no change at all. */
  lemma DiffSelf(a: Word16)
    ensures Diff(a, a) == DiffRecord(0, 0, 0, 0, 0)
  {
    XorZero(a, a);
    ShrZero(15);
  }

  /** An XOR confined to the mantissa field changes neither the sign nor the exponent. */
  lemma MantissaOnly(x: Word16)
    requires x < 0x80
    ensures Bit(x, 15) == 0 && CountRange(x, 14, 7) == 0
    ensures CountRange(x, 6, 0) == Popcount(x)
  {
    Pow2Values();
    HighBitsClear(x, 7);
    PopcountRegions(x);
    CountRangeZero(x, 14, 7);
  }

  /**
   * The computation of `updateExplorer` once both values are known as bit patterns:
   * truncate both, XOR the codes, and count with `hammingDistance` and `countBitsInRange`.
   */
  method Explore(basePattern: Word32, modPattern: Word32) returns (d: DiffRecord)
    ensures d == Diff(FloatToBF16(basePattern), FloatToBF16(modPattern))
  {
    var origBF16 := FloatToBF16(basePattern);
    var modBF16 := FloatToBF16(modPattern);
    var xor := Xor(origBF16, modBF16);
    var hd := HammingDistance(origBF16, modBF16);
    var expChanged := CountBitsInRange(xor, 14, 7);
    var mantChanged := CountBitsInRange(xor, 6, 0);
    var signChanged := Bit(xor, 15);
    d := DiffRecord(xor, hd, signChanged, expChanged, mantChanged);
  }
}
