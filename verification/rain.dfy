/**
 * The "BitX Binary Rain" table: eight fixed pairs of a base weight and its fine-tuned
 * value, each turned into a row holding the two codes, their XOR, the two bytes the
 * BitX split makes of it, the bits of all of these and the Hamming distance.
 */
module Rain {
  import opened Bits
  import opened Codec
  import opened BitX
  import opened Explorer

  /**
   * `BITX_PAIRS`, each float given by its float32 bit pattern:
   * 1.0 / 1.0078125, 0.5 / 0.515625, -0.25 / -0.2578125, 2.0 / 2.0625,
   * 0.75 / 0.8125, 1.5 / 1.5625, 0.9375 / 1.0625, 3.0 / 3.25.
   */
  const Pairs: seq<(Word32, Word32)> := [
    (0x3F80_0000, 0x3F81_0000),
    (0x3F00_0000, 0x3F04_0000),
    (0xBE80_0000, 0xBE84_0000),
    (0x4000_0000, 0x4004_0000),
    (0x3F40_0000, 0x3F50_0000),
    (0x3FC0_0000, 0x3FC8_0000),
    (0x3F70_0000, 0x3F88_0000),
    (0x4040_0000, 0x4050_0000)
  ]

  /** One entry of the table `BW`, with the script's field names. */
  datatype Row = Row(
    bb: Word16, ff: Word16, x: Word16,          // base code, fine code, their XOR
    bB: seq<nat>, fB: seq<nat>, xB: seq<nat>,   // their 16 bits, most significant first
    eb: Byte, sb: Byte,                         // exponent byte, sign+mantissa byte
    eBits: seq<nat>, sBits: seq<nat>,           // the 8 bits of each byte
    h: nat,                                     // Hamming distance of the codes
    bF: Word32, fF: Word32                      // the codes widened back to float patterns
  )

  /** What a row built from the pair of patterns `(base, fine)` holds. */
  predicate RowOf(base: Word32, fine: Word32, row: Row)
  {
    && row.bb == FloatToBF16(base) && row.ff == FloatToBF16(fine)
    && Xor(row.bb, row.x) == row.ff
    && RegionSplit(row.eb, row.sb) == Split(row.x)
    && Unsplit(row.eb, row.sb) == row.x
    && BitsOf(row.bB, row.bb, 16) && BitsOf(row.fB, row.ff, 16) && BitsOf(row.xB, row.x, 16)
    && BitsOf(row.eBits, row.eb, 8) && BitsOf(row.sBits, row.sb, 8)
    && row.h == Popcount(row.x) == Popcount(row.eb) + Popcount(row.sb)
    && (row.h == 0 <==> row.bb == row.ff)
    && row.bF == row.bb * 0x1_0000 && row.fF == row.ff * 0x1_0000
  }

  /**
   * The callback of `BITX_PAIRS.map`: truncate both values, XOR the codes, split the
   * XOR, list the bits of everything and count the changed bits.
   */
  method MakeRow(base: Word32, fine: Word32) returns (row: Row)
    ensures RowOf(base, fine, row)
  {
    var bb := FloatToBF16(base);
    var ff := FloatToBF16(fine);
    var x := XorWord(bb, ff);
    var eb := (x / 0x80) % 0x100;                    // (x >> 7) & 0xFF
    var sb := (x / 0x8000) % 2 * 0x80 + x % 0x80;    // ((x >> 15) & 1) << 7 | (x & 0x7F)
    assert Split(x) == RegionSplit(eb, sb);
    Pow2Values();
    var eBits := BitsMsbFirst(eb, 8);
    var sBits := BitsMsbFirst(sb, 8);
    var bB := BitsMsbFirst(bb, 16);
    var fB := BitsMsbFirst(ff, 16);
    var xB := BitsMsbFirst(x, 16);
    var h := HammingDistance(bb, ff);
    UnsplitSplit(x);
    SplitKeepsChangedBits(x);
    row := Row(bb, ff, x, bB, fB, xB, eb, sb, eBits, sBits, h, BF16ToFloat(bb), BF16ToFloat(ff));
  }

  /** `BW`: one row per pair, in order. */
  method MakeRows(pairs: seq<(Word32, Word32)>) returns (rows: seq<Row>)
    ensures |rows| == |pairs|
    ensures forall k :: 0 <= k < |pairs| ==> RowOf(pairs[k].0, pairs[k].1, rows[k])
  {
    rows := [];
    for k := 0 to |pairs|
      invariant |rows| == k
      invariant forall j :: 0 <= j < k ==> RowOf(pairs[j].0, pairs[j].1, rows[j])
    {
      var row := MakeRow(pairs[k].0, pairs[k].1);
      rows := rows + [row];
    }
  }

  /**
   * The first pair, 1.0 against 1.0078125: the codes 0x3F80 and 0x3F81 differ in the
   * lowest mantissa bit only.
   */
  lemma FirstPair()
    ensures FloatToBF16(Pairs[0].0) == 0x3F80 && FloatToBF16(Pairs[0].1) == 0x3F81
    ensures Xor(0x3F80, 0x3F81) == 1
    ensures Diff(0x3F80, 0x3F81) == DiffRecord(1, 1, 0, 0, 1)
  {
    XorZero(0x1FC0, 0x1FC0);
    assert Xor(0x3F80, 0x3F81) == 2 * Xor(0x1FC0, 0x1FC0) + 1;
    MantissaOnly(1);
    assert Popcount(1) == 1;
  }

  /** The BitX bytes of the first pair's XOR: the exponent byte is 0 and the other byte is 1. */
  lemma FirstPairSplit()
    ensures Split(1) == RegionSplit(0, 1)
    ensures Unsplit(0, 1) == 1
  {
    assert Unsplit(0, 1) == 1;
    SplitUnsplit(0, 1);
  }

  /**
   * The third pair, -0.25 against -0.2578125: the codes 0xBE80 and 0xBE84 share sign and
   * exponent and differ in mantissa bit 2 only.
   */
  lemma ThirdPair()
    ensures FloatToBF16(Pairs[2].0) == 0xBE80 && FloatToBF16(Pairs[2].1) == 0xBE84
    ensures Xor(0xBE80, 0xBE84) == 4
    ensures Diff(0xBE80, 0xBE84) == DiffRecord(4, 1, 0, 0, 1)
  {
    XorZero(0x17D0, 0x17D0);
    assert Xor(0x2FA0, 0x2FA1) == 2 * Xor(0x17D0, 0x17D0) + 1;
    assert Xor(0x5F40, 0x5F42) == 2 * Xor(0x2FA0, 0x2FA1);
    assert Xor(0xBE80, 0xBE84) == 2 * Xor(0x5F40, 0x5F42);
    MantissaOnly(4);
    assert Popcount(4) == 1;
  }

  /** The BitX bytes of the third pair's XOR: the exponent byte is 0 and the other byte is 4. */
  lemma ThirdPairSplit()
    ensures Split(4) == RegionSplit(0, 4)
    ensures Unsplit(0, 4) == 4
  {
    assert Unsplit(0, 4) == 4;
    SplitUnsplit(0, 4);
  }

  /**
   * Every value of the table is exactly representable as a bfloat16: the lower half of
   * each pattern is zero, so truncating and expanding gives the pattern back, and the
   * row's `bF` and `fF` are the table's own values.
   */
  lemma PairsExact()
    ensures |Pairs| == 8
    ensures forall k :: 0 <= k < |Pairs| ==>
      BF16ToFloat(FloatToBF16(Pairs[k].0)) == Pairs[k].0 && BF16ToFloat(FloatToBF16(Pairs[k].1)) == Pairs[k].1
  {
    forall k | 0 <= k < |Pairs|
      ensures BF16ToFloat(FloatToBF16(Pairs[k].0)) == Pairs[k].0 && BF16ToFloat(FloatToBF16(Pairs[k].1)) == Pairs[k].1
    {
      var p := Pairs[k];
      assert p.0 % 0x1_0000 == 0 && p.1 % 0x1_0000 == 0 by {
        assert k == 0 || k == 1 || k == 2 || k == 3 || k == 4 || k == 5 || k == 6 || k == 7;
      }
      PatternTruncation(Pairs[k].0);
      PatternTruncation(Pairs[k].1);
    }
  }
}
