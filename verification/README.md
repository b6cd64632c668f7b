# ZipLLM bfloat16 kernel in Dafny

This project models the bit-level core of the ZipLLM page script (`app.js`). That core covers four things:

- **Conversion.** A float32 is converted to a bfloat16 code and back.
- **Change counts.** The XOR of two codes is analysed: its Hamming distance, whether the sign changed, and how many exponent and mantissa bits changed.
- **BitX split.** The XOR is repacked into an exponent byte and a sign+mantissa byte, and unpacked again.
- **Streams.** The `bitx_compress` / `bitx_decompress` loops, which the page lists as Rust-like pseudocode, apply that split to two whole tensors of little-endian 16-bit words.

A code has the sign in bit 15, the exponent in bits 14..7 and the mantissa in bits 6..0.

The model works on unbounded naturals restricted to their widths: `Word16`, `Word32` and `Byte`.

- A float is represented by its 32-bit IEEE 754 pattern. `floatToBF16` stores a JavaScript Number into a `Float32Array` and reads the bits back through a `Uint32Array` over the same buffer. `bf16ToFloat` does the reverse. The model starts from the float32 pattern after that store and ends at the pattern before the final read as a Number, so no floating point is needed. What the two conversions between Number and float32 add is listed under "## Left out".
- A shift right by `k` is `k` halvings, and a mask by `2^k - 1` is a remainder.
- An OR of parts whose bits do not overlap is their sum.
- `Xor` is defined bit by bit. `Bit(x, i)` is `(x >> i) & 1`.

The files are:

- `bits.dfy`: bit arithmetic, together with the script's `hammingDistance`, `countBitsInRange` and `bf16ToBits` loops as methods.
- `codec.dfy`: `floatToBF16` and `bf16ToFloat`, including ECMAScript's ToInt32/ToUint32 wrap-around for `code << 16`.
- `explorer.dfy`: the difference record that `updateExplorer` displays.
- `bitx.dfy`: the split and its inverse, the two stream functions, and `Compress` / `Decompress` as loops over arrays that are proved equal to those functions.
- `rain.dfy`: the eight pairs of the "BitX Binary Rain" table and the rows built from them.

Stream lengths follow the listed code exactly:

- `n = base.len() / 2` words are split. For a tensor of odd length, the last byte is therefore not carried, and `BitXRoundTrip` states the round trip for the first `|base| / 2 * 2` bytes.
- The listing indexes `fine`, `sm` and `base` without bounds checks, and an out-of-range index would panic. The `requires` clauses of `Compress`, `Decompress` and the stream functions state the lengths under which no index is out of range.

`bf16ToFloat` computes the signed `code << 16`, which is negative for codes of 0x8000 and above, and stores it into a `Uint32Array`. The model follows these two steps, and `Codec.SignedShift` together with `Codec.BF16ToFloat` show that the store restores exactly `code * 2^16`.

## Model

| member | source | states |
|---|---|---|
| Bits.HammingDistance | app.js:27-32 | The shift-and-count loop returns the number of set bits of `a ^ b`. That count is at most 16, and it is 0 exactly when `a == b`. |
| Bits.CountBitsInRange | app.js:34-38 | The loop from `hi` down to `lo` returns the number of set bits of `x` in positions `lo..hi`. That is at most `hi - lo + 1`, and 0 for an empty range. |
| Bits.BitsMsbFirst | app.js:21-25 | `bf16ToBits` (width 16) and the byte loops (width 8) return exactly `width` elements (`BitsOf`). Element `k` is bit `width-1-k` of `v` and is 0 or 1, and the binary number the list spells is `v`. |
| Bits.XorBit | app.js:28 | Bit `i` of `a ^ b` is set exactly when bit `i` of `a` and bit `i` of `b` differ. |
| Bits.XorBound | app.js:28 | The XOR of two values below `2^n` is below `2^n`. |
| Bits.XorSymmetric | app.js:28 | `a ^ b == b ^ a`, so the Hamming distance is symmetric. |
| Bits.XorZero | app.js:28-30 | `a ^ b` is 0 exactly when `a == b`. |
| Bits.XorCancel | app.js:419 | `b ^ (b ^ f) == f`: XOR-ing the base with the XOR of base and fine (`x = bb ^ ff`, app.js line 157) restores the fine value, which is the `orig ^ xor` of the decompressor. |
| Bits.PopcountZero | app.js:30 | The loop's count is 0 exactly when the XOR is 0. |
| Bits.PopcountIsCountRange | app.js:27-38 | For a value below `2^n`, the shift-and-count result equals the range count over positions `0..n-1`. |
| Bits.CountRangeZero | app.js:34-38 | A range count is 0 exactly when every bit in the range is clear. |
| Bits.PopcountRegions | app.js:321-328 | The Hamming count of a 16-bit XOR is the sign bit, plus the count over 14..7, plus the count over 6..0. |
| Codec.ToInt32 | app.js:17 | The result lies in `-2^31 .. 2^31-1` and is congruent to the input modulo 2^32. |
| Codec.ToUint32 | app.js:17 | The result lies in `0 .. 2^32-1` and is congruent to the input modulo 2^32. |
| Codec.FloatToBF16 | app.js:9-13 | The code is `pattern / 2^16`. The pattern minus `code * 2^16` lies in `0 .. 2^16-1`, so the low half is dropped by truncation. |
| Codec.BF16ToFloat | app.js:15-19 | The stored pattern is `code * 2^16`, with the low 16 bits zero, for every code including those with the sign bit set. |
| Codec.ShiftLeft16 | app.js:17 | `v << 16` lies in `-2^31 .. 2^31-1` and is congruent to `v * 2^16` modulo 2^32. |
| Codec.SignedShift | app.js:17 | `code << 16` equals `code * 2^16` below 0x8000. From 0x8000 on it is that value minus 2^32, which is negative. |
| Codec.CodeRoundTrip | app.js:9-19 | On 32-bit patterns, expanding a code and truncating again gives back the same code. |
| Codec.PatternTruncation | app.js:9-19 | Truncating and then expanding clears exactly the low 16 bits. The result equals the pattern exactly when those bits were already zero. |
| Codec.TruncatesRatherThanRounds | app.js:12 | 0x3F80FFFF truncates to 0x3F80, not the nearer 0x3F81, and 0x3F810000 gives 0x3F81. |
| Explorer.Diff | app.js:306-328 | The record's `xor` satisfies `a ^ xor == b`. Hamming equals sign plus exponent count plus mantissa count, with the bounds 16, 1, 8 and 7. Hamming is 0 exactly when `a == b`. Each field is zero exactly when the codes agree on that field's bits. |
| Explorer.XorBits | app.js:308 | A bit of the XOR is clear exactly when the two codes agree in that bit. |
| Explorer.DiffSymmetric | app.js:306-328 | Swapping the two codes leaves the record unchanged. |
| Explorer.DiffSelf | app.js:306-328 | A code compared with itself gives an all-zero record. |
| Explorer.MantissaOnly | app.js:325-328 | An XOR below 0x80 shows sign 0 and exponent count 0, and its mantissa count is its whole set-bit count. |
| Explorer.Explore | app.js:306-328 | Truncating both patterns and calling `hammingDistance`, `countBitsInRange(xor, 14, 7)`, `countBitsInRange(xor, 6, 0)` and `(xor >> 15) & 1` gives exactly `Diff` of the two codes. |
| BitX.Split | app.js:158 | Bit `i` of the exponent byte is bit `i+7` of `x`. Bit 7 of the other byte is bit 15 of `x`, and its bits 0..6 are bits 0..6 of `x`. |
| BitX.Unsplit | app.js:413-417 | The reassembled word's exponent field is the exponent byte. Its sign bit is bit 7 of the other byte, and its low 7 bits are that byte's low 7 bits. |
| BitX.UnsplitSplit | app.js:413-417 | Reassembling the two bytes of a split gives back the XOR word exactly. |
| BitX.SplitUnsplit | app.js:158 | Splitting a reassembled word gives back the two bytes, so the split is a bijection between words and byte pairs. |
| BitX.ReconstructThroughBase | app.js:419 | XOR-ing the base code with the reassembled split of `bb ^ ff` (formed at app.js line 157) gives `ff`, as the decompressor's `orig ^ xor` does. |
| BitX.SplitKeepsChangedBits | app.js:158-166 | The exponent byte has as many set bits as exponent bits changed. The other byte has the sign change plus the mantissa changes. Together they hold exactly `h`, the Hamming distance. |
| BitX.ReadU16 | app.js:387-388 | `read_u16` taken as little-endian: the low byte of the word is the byte at the offset, and the high byte is the next one. |
| BitX.XorWord | app.js:389 | The 16-bit XOR `x` of the codes satisfies `a ^ x == b`. |
| BitX.SplitStreams | app.js:382-398 | Both streams have `|base| / 2` bytes. Reassembling byte `i` of the two streams gives the XOR of the `i`-th base and fine words. |
| BitX.Reassemble | app.js:410 | The output has `2 * exp.len()` bytes. |
| BitX.ReassembleXor | app.js:412-420 | Each output word XOR-ed with its base word gives the word that the two stream bytes encode. Bytes `2i` and `2i+1` of the output are the low and high byte of that word. |
| BitX.ReadBack | app.js:418-419 | Reading a word back at the offset where its two bytes were written gives that word. |
| BitX.BitXRoundTrip | app.js:379-421 | Decompressing the streams made from `base` and `fine` against the same base gives back the first `|base| / 2 * 2` bytes of `fine`. |
| BitX.Compress | app.js:379-398 | The loop fills two new arrays, and they hold exactly `SplitStreams` of the two tensors. |
| BitX.Decompress | app.js:405-421 | The loop fills a new array of `2 * exp.len()` bytes, and it holds exactly `Reassemble` of the base and the two streams. |
| Rain.MakeRow | app.js:156-168 | A row's `bb` and `ff` are the truncated codes, and `bb ^ x == ff`. `eb` and `sb` are the split of `x` and reassemble to `x`. `bB`, `fB` and `xB` list the 16 bits of `bb`, `ff` and `x`, most significant first. `eBits` and `sBits` list the 8 bits of `eb` and `sb` in the same order. Each list spells its value. `h` is the number of set bits of `x`, equals the set bits of `eb` and `sb` together, and is 0 exactly when `bb == ff`. `bF` and `fF` are the codes times 2^16. |
| Rain.MakeRows | app.js:156-169 | There is one row per pair, in order, and each row meets the row description. |
| Rain.Pairs | app.js:145-154 | `BITX_PAIRS`, each float written as its float32 bit pattern. |
| Rain.PairsExact | app.js:145-154 | There are eight pairs. Each pattern has a zero low half, so truncating and expanding it gives it back and the row's `bF` and `fF` are the table's own values. |
| Rain.FirstPair | app.js:146 | 1.0 and 1.0078125 truncate to 0x3F80 and 0x3F81. Their XOR is 1, and the record is Hamming 1, sign 0, exponent 0, mantissa 1. |
| Rain.FirstPairSplit | app.js:158 | The XOR 1 splits into exponent byte 0 and sign+mantissa byte 1, which reassemble to 1. |
| Rain.ThirdPair | app.js:148 | -0.25 and -0.2578125 truncate to 0xBE80 and 0xBE84. Their XOR is 4, and the record is Hamming 1, sign 0, exponent 0, mantissa 1. |
| Rain.ThirdPairSplit | app.js:158 | The XOR 4 splits into exponent byte 0 and sign+mantissa byte 4, which reassemble to 4. |

## Left out

- Page rendering is not modelled. That covers the DOM helpers, the bit-cell markup, the pipeline accordion, the rain and pipeline animations with their timers, and the demo video and event wiring. These are presentation only and carry no state the kernel reads.
- The explorer's slider mapping (`t * t * t` with its sign fix), the `parseFloat(...) || 0` default and `toFixed` are not modelled. They are JavaScript double arithmetic, so the explorer is modelled from the two float patterns onwards (`Explorer.Explore`).
- The float reinterpretation through `Float32Array` is taken as given. A float is represented by its 32-bit pattern, and the table's floats are written as hex constants in `Rain.Pairs`.
- `zstd`, `zstd_d` and the xxhash deduplication listing are external compressors and hashers that the page names but does not implement. The streams are modelled before compression and after decompression, which amounts to assuming `zstd_d(zstd(b)) == b`.
- Codec.CodeRoundTrip: the round trip holds for 32-bit patterns. For the script's JavaScript Numbers it does not hold when the code is a NaN (0x7F81-0x7FFF, 0xFF81-0xFFFF). Reading a float32 NaN gives the single NaN Number, and storing a NaN may write any NaN encoding, so `floatToBF16(bf16ToFloat(c))` need not return `c`. Number-level behaviour is not modelled.
- Codec.FloatToBF16: the input is the float32 pattern. The script's Number input is first rounded to float32 (round to nearest, ties to even) by the `Float32Array` store, and only then truncated. That rounding is double arithmetic and is not modelled.
- `read_u16` and `write_u16` are not defined in the listing and are taken as little-endian.
- Bits.HammingDistance: only 16-bit inputs. The script only passes codes, and for a negative `a ^ b` the JavaScript loop would never end, because `>>=` keeps the sign.
- Bits.CountBitsInRange: positions are unbounded naturals. JavaScript takes shift counts modulo 32, which makes no difference for the ranges 14..7 and 6..0 the script uses.
- BitX.Compress: `fine` must be at least as long as the words read from it. The listing's `read_u16(fine, i*2)` would panic otherwise, and that panic is not modelled as a result value.
- BitX.Decompress: `sm` must be at least as long as `exp`, and `base` at least twice as long. The listing's indexing would panic otherwise, and that panic is not modelled as a result value.
