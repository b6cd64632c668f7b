/**
 * The float <-> bfloat16 conversions `floatToBF16` and `bf16ToFloat` of the page script.
 *
 * A float32 is handled as its 32-bit IEEE 754 bit pattern. The script stores a
 * Number into a `Float32Array` and reads the bits through a `Uint32Array` over the
 * same buffer, and the reverse on the way back; the model starts at the float32
 * pattern after the store and ends at the pattern before the final read as a Number.
 * Layout of a code, most significant first: bit 15 sign, bits 14..7 exponent,
 * bits 6..0 mantissa, that is the upper half of the float's pattern.
 */
module Codec {
  import opened Bits

  /** The unsigned 32-bit bit pattern of a float32, as a `Uint32Array` element holds it. */
  type Word32 = x: nat | x < 0x1_0000_0000

  /** ECMAScript ToInt32: the integer congruent to `n` modulo 2^32 in -2^31 .. 2^31 - 1. */
  function ToInt32(n: int): (r: int)
    ensures -0x8000_0000 <= r < 0x8000_0000
    ensures (n - r) % 0x1_0000_0000 == 0
  {
    var m := n % 0x1_0000_0000;
    if m >= 0x8000_0000 then m - 0x1_0000_0000 else m
  }

  /** ECMAScript ToUint32, which a store into a `Uint32Array` applies: `n` reduced modulo 2^32. */
  function ToUint32(n: int): (r: Word32)
    ensures (n - r) % 0x1_0000_0000 == 0
  {
    n % 0x1_0000_0000
  }

  /**
   * The script's `v << 16`: a shift of the signed 32-bit integer ToInt32(v), with a
   * signed 32-bit result, which is the 32-bit signed integer congruent to `v * 2^16`.
   */
  function ShiftLeft16(v: int): (r: int)
    ensures -0x8000_0000 <= r < 0x8000_0000
    ensures (v * 0x1_0000 - r) % 0x1_0000_0000 == 0
  {
    var a := ToInt32(v);
    var r := ToInt32(a * 0x1_0000);
    ScaleCongruent(v, a);
    SumCongruent(v * 0x1_0000 - a * 0x1_0000, a * 0x1_0000 - r);
    r
  }

  /** Numbers congruent modulo 2^32 stay congruent when both are multiplied by 2^16. */
  lemma ScaleCongruent(v: int, a: int)
    requires (v - a) % 0x1_0000_0000 == 0
    ensures (v * 0x1_0000 - a * 0x1_0000) % 0x1_0000_0000 == 0
  {
    var q := (v - a) / 0x1_0000_0000;
    DivMod(v - a, 0x1_0000_0000);
    assert v * 0x1_0000 - a * 0x1_0000 == (q * 0x1_0000) * 0x1_0000_0000;
    DivModUnique(v * 0x1_0000 - a * 0x1_0000, 0x1_0000_0000, q * 0x1_0000, 0);
  }

  /** The sum of two multiples of 2^32 is a multiple of 2^32. */
  lemma SumCongruent(x: int, y: int)
    requires x % 0x1_0000_0000 == 0 && y % 0x1_0000_0000 == 0
    ensures (x + y) % 0x1_0000_0000 == 0
  {
    DivMod(x, 0x1_0000_0000);
    DivMod(y, 0x1_0000_0000);
    DivModUnique(x + y, 0x1_0000_0000, x / 0x1_0000_0000 + y / 0x1_0000_0000, 0);
  }

  /**
   * `floatToBF16`: `(u >>> 16) & 0xffff` of the pattern `u`. The code is the upper
   * half of the pattern; the lower 16 bits are dropped without rounding.
   */
  function FloatToBF16(pattern: Word32): (code: Word16)
    ensures code == pattern / 0x1_0000
    ensures 0 <= pattern - code * 0x1_0000 < 0x1_0000
  {
    (pattern / 0x1_0000) % 0x1_0000
  }

  /**
   * `bf16ToFloat`: the pattern `code << 16` stored in a `Uint32Array`. For a code of
   * 0x8000 or more the signed shift is negative, and the store wraps it back to
   * `code * 2^16`, so the code always lands in the upper half with a zero lower half.
   */
  function BF16ToFloat(code: Word16): (pattern: Word32)
    ensures pattern == code * 0x1_0000
    ensures pattern % 0x1_0000 == 0
  {
    SignedShift(code);
    ToUint32(ShiftLeft16(code))
  }

  /**
   * The signed shift alone: `code * 2^16` for codes below 0x8000, and that value less
   * 2^32, a negative number, for codes with the sign bit set (the store repairs it).
   */
  lemma SignedShift(code: Word16)
    ensures code < 0x8000 ==> ShiftLeft16(code) == code * 0x1_0000
    ensures code >= 0x8000 ==> ShiftLeft16(code) == code * 0x1_0000 - 0x1_0000_0000 < 0
  {
    var p := code * 0x1_0000;
    assert ToInt32(code) == code;
    DivModUnique(p, 0x1_0000_0000, 0, p);
  }

  /** Expanding a code and truncating again gives back the same code. */
  lemma CodeRoundTrip(code: Word16)
    ensures FloatToBF16(BF16ToFloat(code)) == code
  {
  }

  /**
   * Truncating then expanding keeps the upper 16 bits of the pattern and clears the
   * lower 16: the result is the largest multiple of 2^16 not above the pattern, and it
   * equals the pattern exactly when the pattern's lower half is already zero.
   */
  lemma PatternTruncation(pattern: Word32)
    ensures BF16ToFloat(FloatToBF16(pattern)) == pattern - pattern % 0x1_0000
    ensures BF16ToFloat(FloatToBF16(pattern)) == pattern <==> pattern % 0x1_0000 == 0
  {
  }

  /** Truncation, not round-to-nearest: the pattern just below 0x3F81_0000 still maps to 0x3F80. */
  lemma TruncatesRatherThanRounds()
    ensures FloatToBF16(0x3F80_FFFF) == 0x3F80
    ensures FloatToBF16(0x3F81_0000) == 0x3F81
  {
  }
}
