/**
 * The BitX transform. The XOR of a base code and a fine-tuned code is repacked into
 * an exponent byte (bits 14..7) and a sign+mantissa byte (bit 15 moved to bit 7,
 * bits 6..0 kept). Over whole tensors, `bitx_compress` fills one stream of each, and
 * `bitx_decompress` rebuilds every word and XORs it back onto the base.
 *
 * Bytes are numbers in 0..255. Shifts and masks by constants are written as division
 * and remainder by the matching power of two; `Bits.ShrIsDiv` and
 * `Bits.BitOfRemainder` relate them to single bits. An OR of two bit-disjoint parts is
 * their sum. `read_u16` and `write_u16` are taken as little-endian.
 */
module BitX {
  import opened Bits
  import opened Codec

  type Byte = x: nat | x < 0x100

  /** The two bytes of one XOR word. */
  datatype RegionSplit = RegionSplit(expByte: Byte, smByte: Byte)

  /**
   * `eb = (x >> 7) & 0xFF` and `sb = ((x >> 15) & 1) << 7 | (x & 0x7F)`. Both are
   * bytes. The exponent byte holds exactly the exponent bits of `x`. The other byte
   * holds the sign bit in bit 7 and the mantissa bits unchanged below it.
   */
  function Split(x: Word16): (r: RegionSplit)
    ensures forall i :: 0 <= i < 8 ==> Bit(r.expByte, i) == Bit(x, i + 7)
    ensures Bit(r.smByte, 7) == Bit(x, 15)
    ensures forall i :: 0 <= i < 7 ==> Bit(r.smByte, i) == Bit(x, i)
  {
    var eb := (x / 0x80) % 0x100;
    var sb := (x / 0x8000) % 2 * 0x80 + x % 0x80;
    SplitBits(x, eb, sb);
    RegionSplit(eb, sb)
  }

  lemma SplitBits(x: Word16, eb: nat, sb: nat)
    requires eb == (x / 0x80) % 0x100 && sb == (x / 0x8000) % 2 * 0x80 + x % 0x80
    ensures forall i :: 0 <= i < 8 ==> Bit(eb, i) == Bit(x, i + 7)
    ensures Bit(sb, 7) == Bit(x, 15)
    ensures forall i :: 0 <= i < 7 ==> Bit(sb, i) == Bit(x, i)
  {
    Pow2Values();
    ShrIsDiv(x, 7);
    ShrIsDiv(x, 15);
    ShrIsDiv(sb, 7);
    DivModUnique(sb, 0x80, (x / 0x8000) % 2, x % 0x80);
    assert eb == Shr(x, 7) % Pow2(8);
    assert sb % Pow2(7) == x % Pow2(7);
    forall i | 0 <= i < 8
      ensures Bit(eb, i) == Bit(x, i + 7)
    {
      BitOfRemainder(Shr(x, 7), 8, i);
      BitOfShift(x, 7, i);
    }
    BitOfShift(sb, 7, 0);
    BitOfShift(x, 15, 0);
    assert Shr(sb, 7) == Shr(x, 15) % 2;
    BitZero(Shr(sb, 7));
    BitZero(Shr(x, 15));
    forall i | 0 <= i < 7
      ensures Bit(sb, i) == Bit(x, i)
    {
      BitOfRemainder(sb, 7, i);
      BitOfRemainder(x, 7, i);
    }
  }

  /** The reassembly in `bitx_decompress`: `sign << 15 | exp << 7 | mant`, sign and mantissa taken from the second byte. */
  function Unsplit(expByte: Byte, smByte: Byte): (x: Word16)
    ensures x / 0x80 % 0x100 == expByte
    ensures x / 0x8000 == smByte / 0x80 && x % 0x80 == smByte % 0x80
  {
    var sign := (smByte / 0x80) % 2;
    var mant := smByte % 0x80;
    SignMant(smByte);
    Fields(sign, expByte, mant);
    sign * 0x8000 + expByte * 0x80 + mant
  }

  /** A byte is its bit 7 (`b >> 7`, which is 0 or 1) above its low seven bits. */
  lemma SignMant(b: Byte)
    ensures b / 0x80 < 2 && b == (b / 0x80) * 0x80 + b % 0x80
  {
  }

  /** Packing a sign bit, an exponent byte and seven mantissa bits, and reading each field back. */
  lemma Fields(sign: nat, e: nat, mant: nat)
    requires sign < 2 && e < 0x100 && mant < 0x80
    ensures sign * 0x8000 + e * 0x80 + mant < 0x1_0000
    ensures (sign * 0x8000 + e * 0x80 + mant) / 0x80 % 0x100 == e
    ensures (sign * 0x8000 + e * 0x80 + mant) / 0x8000 == sign
    ensures (sign * 0x8000 + e * 0x80 + mant) % 0x80 == mant
  {
    var x := sign * 0x8000 + e * 0x80 + mant;
    DivModUnique(x, 0x80, sign * 0x100 + e, mant);
    DivModUnique(sign * 0x100 + e, 0x100, sign, e);
    DivModUnique(x, 0x8000, sign, e * 0x80 + mant);
  }

  /** A 16-bit word is determined by its three fields. */
  lemma WordFields(x: Word16)
    ensures x / 0x8000 < 2
    ensures x == (x / 0x8000) * 0x8000 + (x / 0x80 % 0x100) * 0x80 + x % 0x80
  {
    var q := x / 0x80;
    DivModUnique(x, 0x8000, q / 0x100, (q % 0x100) * 0x80 + x % 0x80);
  }

  /** Reassembling the two bytes gives back the XOR word exactly. */
  lemma UnsplitSplit(x: Word16)
    ensures Unsplit(Split(x).expByte, Split(x).smByte) == x
  {
    var eb, sb := (x / 0x80) % 0x100, (x / 0x8000) % 2 * 0x80 + x % 0x80;
    assert Split(x) == RegionSplit(eb, sb);
    WordFields(x);
    DivModUnique(sb, 0x80, x / 0x8000, x % 0x80);
    var y := Unsplit(eb, sb);
    WordFields(y);
  }

  /** Every pair of bytes is the split of exactly one word: the split is a bijection. */
  lemma SplitUnsplit(expByte: Byte, smByte: Byte)
    ensures Split(Unsplit(expByte, smByte)) == RegionSplit(expByte, smByte)
  {
    var x := Unsplit(expByte, smByte);
    SignMant(smByte);
    WordFields(x);
    assert Split(x) == RegionSplit((x / 0x80) % 0x100, (x / 0x8000) % 2 * 0x80 + x % 0x80);
  }

  /** The fine code is recovered from the base code and the split of their XOR: `bb ^ (bb ^ ff) == ff`. */
  lemma ReconstructThroughBase(bb: Word16, ff: Word16)
    ensures XorWord(bb, ff) < 0x1_0000
    ensures Xor(bb, Unsplit(Split(XorWord(bb, ff)).expByte, Split(XorWord(bb, ff)).smByte)) == ff
  {
    UnsplitSplit(XorWord(bb, ff));
    XorCancel(bb, ff);
  }

  /** The two bytes carry exactly the changed bits of the word: none lost, none added. */
  lemma SplitKeepsChangedBits(x: Word16)
    ensures Popcount(Split(x).expByte) == CountRange(x, 14, 7)
    ensures Popcount(Split(x).smByte) == Bit(x, 15) + CountRange(x, 6, 0)
    ensures Popcount(Split(x).expByte) + Popcount(Split(x).smByte) == Popcount(x)
  {
    var r := Split(x);
    Pow2Values();
    PopcountIsCountRange(r.expByte, 8);
    PopcountIsCountRange(r.smByte, 8);
    CountRangeOffset(r.expByte, x, 7, 7, 0);
    CountRangeSplit(r.smByte, 7, 6, 0);
    CountRangeOffset(r.smByte, x, 0, 6, 0);
    PopcountRegions(x);
  }

  /** `a ^ b` of two codes, as a 16-bit value. */
  function XorWord(a: Word16, b: Word16): (x: Word16)
    ensures Xor(a, x) == b
  {
    XorWord16(a, b);
    XorCancel(a, b);
    Xor(a, b)
  }

  // ---------------------------------------------------------------- byte streams

  /** `read_u16(s, at)`: the little-endian 16-bit word at byte offset `at`. */
  function ReadU16(s: seq<Byte>, at: nat): (w: Word16)
    requires at + 1 < |s|
    ensures w % 0x100 == s[at] && w / 0x100 == s[at + 1]
  {
    DivModUnique(s[at] as nat + 0x100 * (s[at + 1] as nat), 0x100, s[at + 1], s[at]);
    s[at] as nat + 0x100 * (s[at + 1] as nat)
  }

  /** The XOR of the `i`-th words of the base and fine tensors. */
  function WordXor(base: seq<Byte>, fine: seq<Byte>, i: nat): Word16
    requires 2 * i + 1 < |base| && 2 * i + 1 < |fine|
  {
    XorWord(ReadU16(base, 2 * i), ReadU16(fine, 2 * i))
  }

  /** The exponent stream and the sign+mantissa stream, before byte-stream compression. */
  datatype Streams = Streams(exp: seq<Byte>, sm: seq<Byte>)

  /**
   * What `bitx_compress` hands to the compressor: for each of the `|base| / 2` word
   * positions, the split of the XOR of the two words.
   */
  function SplitStreams(base: seq<Byte>, fine: seq<Byte>): (st: Streams)
    requires |fine| >= |base| / 2 * 2
    ensures |st.exp| == |st.sm| == |base| / 2
    ensures forall i :: 0 <= i < |base| / 2 ==>
      Unsplit(st.exp[i], st.sm[i]) == Xor(ReadU16(base, 2 * i), ReadU16(fine, 2 * i))
  {
    var n := |base| / 2;
    var st := Streams(seq(n, i requires 0 <= i < n => Split(WordXor(base, fine, i)).expByte),
                      seq(n, i requires 0 <= i < n => Split(WordXor(base, fine, i)).smByte));
    assert forall i :: 0 <= i < n ==> Unsplit(st.exp[i], st.sm[i]) == WordXor(base, fine, i) by {
      forall i | 0 <= i < n {
        UnsplitSplit(WordXor(base, fine, i));
      }
    }
    st
  }

  /** The word `bitx_decompress` writes at position `i`: `orig ^ xor`. */
  function RebuiltWord(base: seq<Byte>, exp: seq<Byte>, sm: seq<Byte>, i: nat): Word16
    requires i < |exp| && i < |sm| && 2 * i + 1 < |base|
  {
    XorWord(ReadU16(base, 2 * i), Unsplit(exp[i], sm[i]))
  }

  /** The output of `bitx_decompress` once the two streams are decompressed: `2 * |exp|` bytes. */
  function Reassemble(base: seq<Byte>, exp: seq<Byte>, sm: seq<Byte>): (out: seq<Byte>)
    requires |sm| >= |exp| && |base| >= 2 * |exp|
    ensures |out| == 2 * |exp|
  {
    seq(2 * |exp|, j requires 0 <= j < 2 * |exp| => OutByte(base, exp, sm, j))
  }

  /** Each output word XOR-ed with its base word gives back the word the two stream bytes encode. */
  lemma ReassembleXor(base: seq<Byte>, exp: seq<Byte>, sm: seq<Byte>)
    requires |sm| >= |exp| && |base| >= 2 * |exp|
    ensures forall i :: 0 <= i < |exp| ==>
      Xor(ReadU16(base, 2 * i), ReadU16(Reassemble(base, exp, sm), 2 * i)) == Unsplit(exp[i], sm[i])
  {
    var out := Reassemble(base, exp, sm);
    forall i | 0 <= i < |exp|
      ensures Xor(ReadU16(base, 2 * i), ReadU16(out, 2 * i)) == Unsplit(exp[i], sm[i])
    {
      var w := RebuiltWord(base, exp, sm, i);
      ReassembleAt(base, exp, sm, i);
      assert out[2 * i] == OutByte(base, exp, sm, 2 * i);
      assert out[2 * i + 1] == OutByte(base, exp, sm, 2 * i + 1);
      ReadBack(out, 2 * i, w);
    }
  }

  /** `write_u16` then `read_u16` at the same offset gives back the word. */
  lemma ReadBack(s: seq<Byte>, at: nat, w: Word16)
    requires at + 1 < |s| && s[at] == w % 0x100 && s[at + 1] == w / 0x100
    ensures ReadU16(s, at) == w
  {
  }

  /** Byte `j` of the output: the low byte of word `j / 2` at even `j`, its high byte at odd `j`. */
  function OutByte(base: seq<Byte>, exp: seq<Byte>, sm: seq<Byte>, j: nat): Byte
    requires |sm| >= |exp| && |base| >= 2 * |exp| && j < 2 * |exp|
  {
    var w := RebuiltWord(base, exp, sm, j / 2);
    if j % 2 == 0 then w % 0x100 else w / 0x100
  }

  /** The two bytes written for word `i` are its little-endian encoding. */
  lemma ReassembleAt(base: seq<Byte>, exp: seq<Byte>, sm: seq<Byte>, i: nat)
    requires |sm| >= |exp| && |base| >= 2 * |exp| && i < |exp|
    ensures OutByte(base, exp, sm, 2 * i) == RebuiltWord(base, exp, sm, i) % 0x100
    ensures OutByte(base, exp, sm, 2 * i + 1) == RebuiltWord(base, exp, sm, i) / 0x100
  {
    DivModUnique(2 * i, 2, i, 0);
    DivModUnique(2 * i + 1, 2, i, 1);
  }

  /**
   * Decompressing what was compressed against the same base gives back the fine
   * tensor: all of it when its length is even, all but the last byte otherwise.
   */
  lemma BitXRoundTrip(base: seq<Byte>, fine: seq<Byte>)
    requires |fine| >= |base| / 2 * 2
    ensures |SplitStreams(base, fine).exp| <= |SplitStreams(base, fine).sm|
    ensures |base| >= 2 * |SplitStreams(base, fine).exp|
    ensures Reassemble(base, SplitStreams(base, fine).exp, SplitStreams(base, fine).sm) == fine[..|base| / 2 * 2]
  {
    var st := SplitStreams(base, fine);
    ReassembleXor(base, st.exp, st.sm);
    RebuiltBytes(base, fine, st.exp, st.sm, Reassemble(base, st.exp, st.sm));
  }

  /** Any output whose words XOR with the base to the split words is the fine tensor's prefix, byte for byte. */
  lemma RebuiltBytes(base: seq<Byte>, fine: seq<Byte>, exp: seq<Byte>, sm: seq<Byte>, out: seq<Byte>)
    requires |exp| == |sm| == |base| / 2 && |fine| >= 2 * |exp| && |out| == 2 * |exp|
    requires forall i :: 0 <= i < |exp| ==>
      Unsplit(exp[i], sm[i]) == Xor(ReadU16(base, 2 * i), ReadU16(fine, 2 * i))
    requires forall i :: 0 <= i < |exp| ==>
      Xor(ReadU16(base, 2 * i), ReadU16(out, 2 * i)) == Unsplit(exp[i], sm[i])
    ensures out == fine[..2 * |exp|]
  {
    forall j | 0 <= j < |out|
      ensures out[j] == fine[j]
    {
      WordRoundTrip(base, fine, out, exp[j / 2], sm[j / 2], j / 2);
      assert j == 2 * (j / 2) || j == 2 * (j / 2) + 1;
    }
  }

  /** One word of the round trip: both bytes of the rebuilt word are those of the fine word. */
  lemma WordRoundTrip(base: seq<Byte>, fine: seq<Byte>, out: seq<Byte>, e: Byte, m: Byte, i: nat)
    requires 2 * i + 1 < |base| && 2 * i + 1 < |fine| && 2 * i + 1 < |out|
    requires Unsplit(e, m) == Xor(ReadU16(base, 2 * i), ReadU16(fine, 2 * i))
    requires Xor(ReadU16(base, 2 * i), ReadU16(out, 2 * i)) == Unsplit(e, m)
    ensures out[2 * i] == fine[2 * i] && out[2 * i + 1] == fine[2 * i + 1]
  {
    var b, f, o := ReadU16(base, 2 * i), ReadU16(fine, 2 * i), ReadU16(out, 2 * i);
    XorCancel(b, f);
    XorCancel(b, o);
  }

  // ---------------------------------------------------------------- the listed loops

  /**
   * `bitx_compress` without the final compression step: split the XOR of every
   * word pair into the two freshly allocated streams.
   */
  method Compress(base: array<Byte>, fine: array<Byte>) returns (expS: array<Byte>, smS: array<Byte>)
    requires fine.Length >= base.Length / 2 * 2
    ensures fresh(expS) && fresh(smS)
    ensures Streams(expS[..], smS[..]) == SplitStreams(base[..], fine[..])
  {
    var n := base.Length / 2;
    expS := new Byte[n](_ => 0);
    smS := new Byte[n](_ => 0);
    ghost var b, f := base[..], fine[..];
    for i := 0 to n
      invariant forall k :: 0 <= k < i ==>
        expS[k] == Split(WordXor(b, f, k)).expByte && smS[k] == Split(WordXor(b, f, k)).smByte
    {
      var bb := ReadU16(base[..], i * 2);
      var ff := ReadU16(fine[..], i * 2);
      var xor := XorWord(bb, ff);
      var sign := (xor / 0x8000) % 2;   // (xor >> 15) & 0x1
      var exp := (xor / 0x80) % 0x100;  // (xor >> 7) & 0xFF
      var mant := xor % 0x80;           // xor & 0x7F
      assert xor == WordXor(b, f, i);
      assert Split(xor) == RegionSplit(exp, sign * 0x80 + mant);
      expS[i] := exp;
      smS[i] := sign * 0x80 + mant;     // (sign << 7) | mant
    }
    assert expS[..] == SplitStreams(b, f).exp;
  }

  /**
   * `bitx_decompress` given the two streams already decompressed: rebuild each XOR
   * word, XOR it onto the base word and write the result as two bytes.
   */
  method Decompress(base: array<Byte>, exp: array<Byte>, sm: array<Byte>) returns (out: array<Byte>)
    requires sm.Length >= exp.Length && base.Length >= 2 * exp.Length
    ensures fresh(out)
    ensures out[..] == Reassemble(base[..], exp[..], sm[..])
  {
    out := new Byte[exp.Length * 2](_ => 0);
    ghost var b, e, m := base[..], exp[..], sm[..];
    for i := 0 to exp.Length
      invariant forall k :: 0 <= k < i ==>
        out[2 * k] == RebuiltWord(b, e, m, k) % 0x100 && out[2 * k + 1] == RebuiltWord(b, e, m, k) / 0x100
    {
      var sign: nat := (sm[i] / 0x80) % 2;        // (sm[i] >> 7) & 1
      var mant: nat := sm[i] % 0x80;              // sm[i] & 0x7F
      var xor := sign * 0x8000 + exp[i] as nat * 0x80 + mant;
      var orig := ReadU16(base[..], 2 * i);
      assert xor == Unsplit(e[i], m[i]) && orig == ReadU16(b, 2 * i);
      var word := XorWord(orig, xor);
      assert word == RebuiltWord(b, e, m, i);
      out[2 * i] := word % 0x100;                 // write_u16: low byte first
      out[2 * i + 1] := word / 0x100;
    }
    WordsToBytes(b, e, m, out[..]);
  }

  /** A byte sequence holding every rebuilt word, low byte first, is the output of `Reassemble`. */
  lemma WordsToBytes(base: seq<Byte>, exp: seq<Byte>, sm: seq<Byte>, out: seq<Byte>)
    requires |sm| >= |exp| && |base| >= 2 * |exp| && |out| == 2 * |exp|
    requires forall k :: 0 <= k < |exp| ==>
      out[2 * k] == RebuiltWord(base, exp, sm, k) % 0x100 && out[2 * k + 1] == RebuiltWord(base, exp, sm, k) / 0x100
    ensures out == Reassemble(base, exp, sm)
  {
    var want := Reassemble(base, exp, sm);
    forall j | 0 <= j < |out|
      ensures out[j] == want[j]
    {
      var k := j / 2;
      ReassembleAt(base, exp, sm, k);
      assert want[j] == OutByte(base, exp, sm, j);
      if j == 2 * k {
        assert out[j] == OutByte(base, exp, sm, j);
      } else {
        assert j == 2 * k + 1;
        assert out[j] == OutByte(base, exp, sm, j);
      }
    }
  }
}
