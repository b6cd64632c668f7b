/**
 * Bit views and bit counts of 16-bit bfloat16 codes: the helpers `bf16ToBits`,
 * `hammingDistance` and `countBitsInRange` of the page script, and the bitwise
 * exclusive-or they are applied to.
 *
 * The script keeps every code in an ordinary JavaScript number in 0 .. 2^16 - 1,
 * so its bit operators act on non-negative integers: `x >> k` is `x` halved `k`
 * times (rounding down), `x & 1` is `x % 2`, and `x & (2^k - 1)` is `x % 2^k`.
 * The model states them that way on `nat`.
 */
module Bits {

  /** A JavaScript number holding a 16-bit unsigned value (a bfloat16 code or an XOR of two). */
  type Word16 = x: nat | x < 0x1_0000

  function Pow2(n: nat): (r: nat)
    ensures r >= 1
  {
    if n == 0 then 1 else 2 * Pow2(n - 1)
  }

  /** `x >> k` for a non-negative `x`: `k` halvings, each rounding down. */
  function Shr(x: nat, k: nat): nat
  {
    if k == 0 then x else Shr(x / 2, k - 1)
  }

  /** Bit `i` of `x`, the value of `(x >> i) & 1`. */
  function Bit(x: nat, i: nat): nat
  {
    Shr(x, i) % 2
  }

  /** Bitwise exclusive-or of two non-negative integers, the script's `a ^ b`. */
  function Xor(a: nat, b: nat): nat
    decreases a + b
  {
    if a == 0 && b == 0 then 0 else 2 * Xor(a / 2, b / 2) + (if a % 2 == b % 2 then 0 else 1)
  }

  /** Number of set bits of `x` at positions `lo..hi` (both inclusive); zero when the range is empty. */
  function CountRange(x: nat, hi: int, lo: nat): (r: nat)
    ensures r <= if hi < lo then 0 else hi - lo + 1
    decreases hi - lo + 1
  {
    if hi < lo then 0 else Bit(x, lo) + CountRange(x, hi, lo + 1)
  }

  /** Number of set bits of `x`, counted the way `hammingDistance` does: bit 0, then the rest. */
  function Popcount(x: nat): nat
  {
    if x == 0 then 0 else x % 2 + Popcount(x / 2)
  }

  /** `bits` lists bits `width - 1` down to 0 of `v`, and they spell `v`. */
  predicate BitsOf(bits: seq<nat>, v: nat, width: nat)
  {
    && |bits| == width
    && (forall k :: 0 <= k < width ==> bits[k] == Bit(v, width - 1 - k))
    && Weighted(bits) == v
  }

  /** The number whose binary digits, most significant first, are `bits`: `Σ bits[i] * 2^(|bits|-1-i)`. */
  function Weighted(bits: seq<nat>): nat
  {
    if |bits| == 0 then 0 else 2 * Weighted(bits[..|bits| - 1]) + bits[|bits| - 1]
  }

  // ---------------------------------------------------------------- shifts

  /** One more shift halves the previous result. */
  lemma {:induction false} ShrStep(x: nat, k: nat)
    ensures Shr(x, k + 1) == Shr(x, k) / 2
  {
    if k > 0 {
      ShrStep(x / 2, k - 1);
    }
  }

  /** Shifting a value below `2^n` right by `n` leaves nothing. */
  lemma {:induction false} ShrBelow(x: nat, n: nat)
    requires x < Pow2(n)
    ensures Shr(x, n) == 0
  {
    if n > 0 {
      ShrBelow(x / 2, n - 1);
    }
  }

  lemma {:induction false} ShrZero(k: nat)
    ensures Shr(0, k) == 0
  {
    if k > 0 {
      ShrZero(k - 1);
    }
  }

  /** The powers of two behind the script's shift and mask constants. */
  lemma Pow2Values()
    ensures Pow2(7) == 0x80 && Pow2(8) == 0x100 && Pow2(15) == 0x8000 && Pow2(16) == 0x1_0000
  {
    assert Pow2(8) == 0x100;
  }

  // ---------------------------------------------------------------- division by powers of two

  lemma MulStep(a: int, b: int, d: nat)
    requires a < b
    ensures a * d + d <= b * d
  {
    assert b * d == a * d + d + (b - a - 1) * d;
  }

  /** Quotient and remainder are determined by `x == q * d + r` with `0 <= r < d`. */
  lemma DivModUnique(x: int, d: int, q: int, r: int)
    requires d > 0 && x == q * d + r && 0 <= r < d
    ensures x / d == q && x % d == r
  {
    var q', r' := x / d, x % d;
    assert x == q' * d + r';
    if q' < q {
      MulStep(q', q, d);
    } else if q' > q {
      MulStep(q, q', d);
    }
  }

  lemma DivHalf(x: nat, p: nat)
    requires p > 0
    ensures (x / p) / 2 == x / (2 * p)
  {
    var q, r := x / p, x % p;
    assert x == (q / 2) * (2 * p) + ((q % 2) * p + r);
    DivModUnique(x, 2 * p, q / 2, (q % 2) * p + r);
  }

  lemma ModHalf(y: nat, p: nat)
    requires p > 0
    ensures (y % (2 * p)) / 2 == (y / 2) % p
  {
    var h: nat := y / 2;
    var q, r := y / (2 * p), y % (2 * p);
    DivMod(y, 2 * p);
    HalfOf(y, p, q, r);
    DivModUnique(h, p, q, r / 2);
  }

  /** Euclidean division: `x == (x / d) * d + x % d` with the remainder below `d`. */
  lemma DivMod(x: int, d: int)
    requires d > 0
    ensures x == (x / d) * d + x % d && x % d < d
  {
  }

  lemma HalfOf(y: int, p: int, q: int, r: int)
    requires y == q * (2 * p) + r
    ensures y / 2 == q * p + r / 2
  {
    DivModUnique(y, 2, q * p + r / 2, r % 2);
  }

  /** `x >> k` is floor division by `2^k`, so a shift by a constant is a division by a constant. */
  lemma {:induction false} ShrIsDiv(x: nat, k: nat)
    ensures Shr(x, k) == x / Pow2(k)
  {
    if k > 0 {
      ShrIsDiv(x, k - 1);
      ShrStep(x, k - 1);
      DivHalf(x, Pow2(k - 1));
    }
  }

  lemma {:induction false} ShrAdd(x: nat, a: nat, b: nat)
    ensures Shr(Shr(x, a), b) == Shr(x, a + b)
    decreases a
  {
    if a > 0 {
      ShrAdd(x / 2, a - 1, b);
    }
  }

  /** Bit 0 is the parity. */
  lemma BitZero(x: nat)
    ensures Bit(x, 0) == x % 2
  {
  }

  /** Bit `i` of `x >> k` is bit `i + k` of `x`. */
  lemma BitOfShift(x: nat, k: nat, i: nat)
    ensures Bit(Shr(x, k), i) == Bit(x, i + k)
  {
    ShrAdd(x, k, i);
  }

  /** Every bit at or above position `k` of a value below `2^k` is clear. */
  lemma HighBitsClear(x: nat, k: nat)
    requires x < Pow2(k)
    ensures forall i: nat :: k <= i ==> Bit(x, i) == 0
  {
    forall i: nat | k <= i
      ensures Bit(x, i) == 0
    {
      ShrBelow(x, k);
      BitOfShift(x, k, i - k);
      ShrZero(i - k);
    }
  }

  /** Reducing modulo `2^k` (the mask `& (2^k - 1)`) keeps bits `0..k-1`. */
  lemma {:induction false} BitOfRemainder(y: nat, k: nat, i: nat)
    requires i < k
    ensures Bit(y % Pow2(k), i) == Bit(y, i)
    decreases i
  {
    var h: nat, vh: nat := y / 2, (y % Pow2(k)) / 2;
    var p := Pow2(k - 1);
    assert Pow2(k) == 2 * p;
    if i == 0 {
      DivMod(y, 2 * p);
      ParityOf(y, (y / (2 * p)) * p, y % (2 * p));
      BitZero(y % (2 * p));
      BitZero(y);
    } else {
      ModHalf(y, p);
      BitOfRemainder(h, k - 1, i - 1);
      assert Bit(y % Pow2(k), i) == Bit(vh, i - 1);
      assert Bit(y, i) == Bit(h, i - 1);
    }
  }

  /** Adding an even number keeps the parity. */
  lemma ParityOf(y: int, m: int, v: int)
    requires y == 2 * m + v
    ensures y % 2 == v % 2
  {
  }

  // ---------------------------------------------------------------- exclusive-or

  /** `Xor` is bitwise: bit `i` of `a ^ b` is set exactly when bit `i` of `a` and of `b` differ. */
  lemma {:induction false} XorBit(a: nat, b: nat, i: nat)
    ensures Bit(Xor(a, b), i) == if Bit(a, i) == Bit(b, i) then 0 else 1
    decreases i
  {
    if a == 0 && b == 0 {
      ShrZero(i);
    } else {
      var x, h := Xor(a, b), Xor(a / 2, b / 2);
      assert x == 2 * h + (if a % 2 == b % 2 then 0 else 1);
      if i == 0 {
        assert Bit(x, 0) == x % 2 && Bit(a, 0) == a % 2 && Bit(b, 0) == b % 2;
      } else {
        assert x / 2 == h;
        assert Bit(x, i) == Bit(h, i - 1);
        assert Bit(a, i) == Bit(a / 2, i - 1) && Bit(b, i) == Bit(b / 2, i - 1);
        XorBit(a / 2, b / 2, i - 1);
      }
    }
  }

  /** XOR of two values below `2^n` stays below `2^n`. */
  lemma {:induction false} XorBound(a: nat, b: nat, n: nat)
    requires a < Pow2(n) && b < Pow2(n)
    ensures Xor(a, b) < Pow2(n)
    decreases a + b
  {
    if !(a == 0 && b == 0) {
      if n == 0 {
        assert false;
      }
      XorBound(a / 2, b / 2, n - 1);
    }
  }

  /** XOR of two 16-bit values is a 16-bit value. */
  lemma XorWord16(a: Word16, b: Word16)
    ensures Xor(a, b) < 0x1_0000
  {
    Pow2Values();
    XorBound(a, b, 16);
  }

  lemma {:induction false} XorZeroLeft(b: nat)
    ensures Xor(0, b) == b
    decreases b
  {
    if b != 0 {
      XorZeroLeft(b / 2);
    }
  }

  lemma {:induction false} XorSymmetric(a: nat, b: nat)
    ensures Xor(a, b) == Xor(b, a)
    decreases a + b
  {
    if !(a == 0 && b == 0) {
      XorSymmetric(a / 2, b / 2);
    }
  }

  /** XOR-ing with the same value twice gives back the original: `b ^ (b ^ f) == f`. */
  lemma {:induction false} XorCancel(b: nat, f: nat)
    ensures Xor(b, Xor(b, f)) == f
    decreases b + f
  {
    var x := Xor(b, f);
    if b == 0 && f == 0 {
    } else if b == 0 {
      XorZeroLeft(x);
      XorZeroLeft(f);
    } else {
      var h := Xor(b / 2, f / 2);
      assert x == 2 * h + (if b % 2 == f % 2 then 0 else 1);
      assert x / 2 == h;
      XorCancel(b / 2, f / 2);
      assert Xor(b, x) == 2 * Xor(b / 2, x / 2) + (if b % 2 == x % 2 then 0 else 1);
    }
  }

  /** The XOR is zero exactly when the two operands are equal. */
  lemma {:induction false} XorZero(a: nat, b: nat)
    ensures Xor(a, b) == 0 <==> a == b
    decreases a + b
  {
    if !(a == 0 && b == 0) {
      XorZero(a / 2, b / 2);
    }
  }

  // ---------------------------------------------------------------- counts

  /** A range count splits at any point `mid` inside (or at the edge of) the range. */
  lemma {:induction false} CountRangeSplit(x: nat, hi: int, mid: int, lo: nat)
    requires lo <= mid + 1 && mid <= hi
    ensures CountRange(x, hi, lo) == CountRange(x, mid, lo) + CountRange(x, hi, mid + 1)
    decreases mid - lo + 1
  {
    if lo <= mid {
      CountRangeSplit(x, hi, mid, lo + 1);
    }
  }

  /** Counting the bits of `x >> 1` is counting the bits of `x` one position higher. */
  lemma {:induction false} CountRangeHalf(x: nat, hi: int, lo: nat)
    ensures CountRange(x / 2, hi, lo) == CountRange(x, hi + 1, lo + 1)
    decreases hi - lo + 1
  {
    if lo <= hi {
      CountRangeHalf(x, hi, lo + 1);
    }
  }

  /** Two values whose bits agree up to an offset `k` have equal counts over the matching ranges. */
  lemma {:induction false} CountRangeOffset(y: nat, x: nat, k: nat, hi: int, lo: nat)
    requires forall i :: lo <= i <= hi ==> Bit(y, i) == Bit(x, i + k)
    ensures CountRange(y, hi, lo) == CountRange(x, hi + k, lo + k)
    decreases hi - lo + 1
  {
    if lo <= hi {
      CountRangeOffset(y, x, k, hi, lo + 1);
    }
  }

  /** A range count is zero exactly when every bit of the range is clear. */
  lemma {:induction false} CountRangeZero(x: nat, hi: int, lo: nat)
    ensures CountRange(x, hi, lo) == 0 <==> forall i :: lo <= i <= hi ==> Bit(x, i) == 0
    decreases hi - lo + 1
  {
    if lo <= hi {
      CountRangeZero(x, hi, lo + 1);
    }
  }

  /** For a value below `2^n`, the loop count equals the count over positions `0..n-1`. */
  lemma {:induction false} PopcountIsCountRange(x: nat, n: nat)
    requires x < Pow2(n)
    ensures Popcount(x) == CountRange(x, n - 1, 0)
  {
    if x == 0 {
      CountRangeZero(0, n - 1, 0);
      forall i | 0 <= i <= n - 1
        ensures Bit(0, i) == 0
      {
        ShrZero(i);
      }
    } else {
      assert n > 0;
      PopcountIsCountRange(x / 2, n - 1);
      CountRangeHalf(x, n - 2, 0);
    }
  }

  /** No bit is set exactly when the value is zero. */
  lemma {:induction false} PopcountZero(x: nat)
    ensures Popcount(x) == 0 <==> x == 0
    decreases x
  {
    if x != 0 && x % 2 == 0 {
      PopcountZero(x / 2);
    }
  }

  /** A 16-bit value has at most 16 set bits, and they are exactly those counted over positions 0..15. */
  lemma PopcountWord16(x: Word16)
    ensures Popcount(x) == CountRange(x, 15, 0)
    ensures Popcount(x) <= 16
  {
    Pow2Values();
    PopcountIsCountRange(x, 16);
  }

  /** The count over all 16 bits is the sign bit plus the exponent-field and mantissa-field counts. */
  lemma PopcountRegions(x: Word16)
    ensures Popcount(x) == Bit(x, 15) + CountRange(x, 14, 7) + CountRange(x, 6, 0)
  {
    PopcountWord16(x);
    CountRangeSplit(x, 15, 6, 0);
    CountRangeSplit(x, 15, 14, 7);
  }

  // ---------------------------------------------------------------- the script's loops

  /** `hammingDistance(a, b)`: count the set bits of `a ^ b` by testing bit 0 and shifting right. */
  method HammingDistance(a: Word16, b: Word16) returns (count: nat)
    ensures count == Popcount(Xor(a, b))
    ensures count <= 16
    ensures count == 0 <==> a == b
  {
    var xor := Xor(a, b);
    count := 0;
    while xor != 0
      invariant count + Popcount(xor) == Popcount(Xor(a, b))
      decreases xor
    {
      count := count + xor % 2;
      xor := xor / 2;
    }
    XorWord16(a, b);
    PopcountWord16(Xor(a, b));
    PopcountZero(Xor(a, b));
    XorZero(a, b);
  }

  /** `countBitsInRange(x, hi, lo)`: add up bits `hi` down to `lo`. */
  method CountBitsInRange(x: nat, hi: int, lo: nat) returns (count: nat)
    ensures count == CountRange(x, hi, lo)
    ensures count <= if hi < lo then 0 else hi - lo + 1
  {
    count := 0;
    var i := hi;
    while i >= lo
      invariant i <= hi && (i >= lo - 1 || i == hi)
      invariant count == CountRange(x, hi, if i + 1 < lo then lo else i + 1)
      decreases i
    {
      count := count + Bit(x, i);
      i := i - 1;
    }
  }

  /**
   * `bf16ToBits`, and the two byte loops beside the BitX split: push `(v >> i) & 1`
   * for `i` from `width - 1` down to 0, so the most significant bit comes first.
   */
  method BitsMsbFirst(v: nat, width: nat) returns (bits: seq<nat>)
    requires v < Pow2(width)
    ensures BitsOf(bits, v, width)
    ensures forall k :: 0 <= k < width ==> bits[k] <= 1
  {
    bits := [];
    var i: int := width - 1;
    ShrBelow(v, width);
    while i >= 0
      invariant -1 <= i < width && |bits| == width - 1 - i
      invariant forall k :: 0 <= k < |bits| ==> bits[k] == Bit(v, width - 1 - k) && bits[k] <= 1
      invariant Weighted(bits) == Shr(v, i + 1)
    {
      ShrStep(v, i);
      bits := bits + [Bit(v, i)];
      i := i - 1;
    }
  }
}
