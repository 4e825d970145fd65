# Fixed-width big-endian packing codec

A Dafny model of the `pack` crate's codec (`pack/src/lib.rs`). It covers:

- The `Pack` trait: the per-type constant `SIZE`; `pack`, which writes a value into the caller's byte buffer; `unpack`, which reads one back; and two cursor readers. `unpack_it` checks that enough bytes remain. `unpack_it_unchecked` does not.
- The instances for `u8`, `i8` and `bool`.
- The `u16`–`u128` and `i16`–`i128` instances generated by the two integer macros.
- The tuple instances of arity 1 to 7.
- The 48-bit signed integer `special::I48`.

The model is split into modules:

- `Arith` (`arith.dfy`): powers of two and 256, plus division and modulus facts.
- `Wire` (`wire.dfy`):
  - `BE` is the value of a big-endian byte string.
  - `BEBytes` is what the pack loop produces.
  - The two's-complement casts are Rust's `as uN` and `as iN`.
- `Bits` (`bits.dfy`):
  - Rust's `&`, `|`, `<<` and `>>`, defined bit by bit on naturals.
  - The 64-bit two's-complement view (`AsU64`, `AsI64`, `Shl64`, `Sar8`) used by the `i64` arithmetic of `I48`.
- `Kinds` (`kinds.dfy`):
  - `Kind` describes each type that implements `Pack`. `Value` is a value of such a type.
  - `Width` is `SIZE`.
  - `Encode`/`EncodeAll` and `Decode`/`DecodeAll` are the specification functions for what `pack` writes and what `unpack` reads.
  - The lemmas relating them: round trips both ways, member offsets, prefix reading, and reference vectors.
- `Special` (`special.dfy`):
  - `I48`'s pack loop.
  - Its unpack loop as the source writes it, which is what `Pack::unpack` runs for `I48` throughout the model, together with lemmas pinning down what that loop computes.
  - The corrected unpack loop, with its round trip proved.
- `Codec` (`codec.dfy`): the trait's methods for every kind, as loops over arrays and sequences, each proved against `Kinds`.

The source's data becomes the following Dafny:

- A `&mut [u8]` destination is an `array<byte>` together with the offset where the slice starts. The tuple impl packs each member into `&mut buf[i..]`, which is the same array at a larger offset.
- A `&mut &[u8]` cursor is an in/out parameter. The reader takes the current view and returns the view that the caller's slice variable holds afterwards.
- Rust's generic trait and its macro expansions are replaced by one method per trait operation that dispatches on a `Kind`. Tuples recurse over the member kinds.
- Integers are unbounded. Each fixed width is written out:
  - `(x * 256) % 256^n` for `<<` on an n-byte unsigned integer;
  - `ToUnsigned`/`ToSigned` for `as` casts;
  - the `u64` bit pattern for `i64` bitwise operators.

## Model

| member | source | states |
|---|---|---|
| Codec.PackUnsigned | pack/src/lib.rs:83-90 | Integer `pack` writes the `size` bytes of x most significant first: byte `SIZE-i` gets byte `i-1` of x. Every other byte of the buffer is unchanged. The `iN` impl (lines 111-118) calls it on `x as uN`. |
| Codec.LowByte | pack/src/lib.rs:87-88 | At step i of the pack loop, `this & 0xFF` is the encoding's byte `size-i`, and `this >> 8` is `x >> 8i`. |
| Codec.ShlByte | pack/src/lib.rs:96 | `this << 8` on an n-byte unsigned integer stays inside the type's range. |
| Codec.UnpackUnsigned | pack/src/lib.rs:92-101 | Integer `unpack` returns the big-endian value of the first `size` bytes. The `iN` impl (lines 120-129) casts that value with `as iN`. |
| Codec.UnsignedStep | pack/src/lib.rs:96-97 | Shifting the accumulator left by 8 and OR-ing in byte i extends the big-endian value by that byte, with no bit lost. |
| Codec.Pack | pack/src/lib.rs:8-10 | `pack` writes exactly `Encode(k, v)` into `buf[0..SIZE]` of the destination slice and leaves every other byte unchanged, for every kind. |
| Codec.PackTuple | pack/src/lib.rs:152-162 | Tuple `pack` writes the members' encodings one after another, with no padding, into the first `SIZE` bytes. Nothing outside them changes. |
| Codec.PackMember | pack/src/lib.rs:159-160 | One member step writes member j's bytes at the running offset `i`. That offset then moves past `Width(ms[j])`, and the rest of the encoding continues there. |
| Codec.Unpack | pack/src/lib.rs:12-13 | `unpack` returns `Decode(k, buf)` for every kind, a function of the first `SIZE` bytes only. For `I48` it runs the source's decoder loop. |
| Codec.UnpackTuple | pack/src/lib.rs:164-171 | Tuple `unpack` does one unchecked cursor read per member, in declaration order. The result is `DecodeAll` of the members. |
| Codec.UnpackItUnchecked | pack/src/lib.rs:29-36 | Given at least `SIZE` bytes, this returns `unpack` of the view and advances the cursor by exactly `SIZE`. A shorter view panics in the source, so it is a precondition here. |
| Codec.CursorVectors | pack/src/lib.rs:15-27 | `unpack_it` of a `u16` on one byte `[07]` gives `None` and leaves `[07]`. On `[01 02 09]` it gives `Some(0x0102)` and leaves `[09]`. |
| Codec.UnpackIt | pack/src/lib.rs:15-27 | With fewer than `SIZE` bytes this gives `None` and leaves the cursor exactly as it was. Otherwise it gives `Some(unpack(view))` and the cursor becomes `view[SIZE..]`, so its length drops by exactly `SIZE`. |
| Kinds.WidthPositive | pack/src/lib.rs:40-81 | `Width(k)` models `SIZE`. Every `SIZE` is at least one byte, and outside tuples it is 1, 2, 4, 8 or 16 (lines 40, 53, 66, 134-141) or 6 for `I48` (line 217). |
| Kinds.SumWidthsAtLeast | pack/src/lib.rs:149 | `SumWidths` models the tuple `SIZE`, `A::SIZE + B::SIZE + ... + 0`. It is at least the tuple's arity, since each member takes at least one byte. |
| Kinds.Encode | pack/src/lib.rs:5-10 | `pack` of any value of kind k produces exactly `Width(k)` (= `SIZE`) bytes. |
| Kinds.EncodeAll | pack/src/lib.rs:149-162 | The tuple encoding's length is the sum of the member widths, which is the tuple's `SIZE`. |
| Kinds.Decode | pack/src/lib.rs:12-13 | `unpack` always yields a value of the type. An `I48` read back by the source's decoder is an `i64`, but it can lie outside the 48-bit range. |
| Kinds.DecodeAll | pack/src/lib.rs:164-171 | The tuple decoding has one value of the right kind per member. |
| Kinds.DecodeReadsPrefix | pack/src/lib.rs:12-13 | `unpack` reads nothing past `SIZE`: two buffers that agree on their first `SIZE` bytes decode to the same value. |
| Kinds.RoundTrip | pack/src/lib.rs:39-129 | `unpack(pack(v)) == v` for every kind without an `I48` inside, and every value of it. This includes every `i8`–`i128`, via the two's-complement cast, and every tuple of such kinds. |
| Kinds.I48Scales | pack/src/lib.rs:219-243 | For a bare `I48`, `unpack(pack(x))` is `256 * x` on the 40-bit signed range, so every nonzero x there fails to round-trip. |
| Kinds.UnsignedBytesRoundTrip | pack/src/lib.rs:83-101 | An n-byte unsigned value read back from the n bytes `pack` wrote is the same value. |
| Kinds.TupleRoundTrip | pack/src/lib.rs:149-171 | If every member round-trips, the tuple round-trips. |
| Kinds.DecodeAllEncodeAll | pack/src/lib.rs:152-171 | Decoding the concatenated member encodings in declaration order gives back the members, whenever each member round-trips. |
| Kinds.I48NotOnto | pack/src/lib.rs:229-243 | For a bare `I48`, unpacking `[80 00 00 00 00 00]` gives 2^55, and packing that gives six zero bytes, not the input. |
| Kinds.EncodeDecode | pack/src/lib.rs:39-129 | For kinds without `bool` or `I48`, `pack(unpack(b))` gives back the first `SIZE` bytes of b. Every byte pattern is the encoding of some value. |
| Kinds.EncodeAllDecodeAll | pack/src/lib.rs:149-171 | For tuples without `bool` or `I48` members, packing what was unpacked reproduces the first `SIZE` bytes. |
| Kinds.NextMember | pack/src/lib.rs:157-161 | Packing advances through the members. The encoding from member j on is member j's bytes at the current offset, followed by the encoding from member j+1 on. |
| Kinds.EncodeAllAt | pack/src/lib.rs:157-161 | Tuple `pack` puts byte q of member j at offset q past the sum of the widths of the members before j. |
| Kinds.DecodeAllAt | pack/src/lib.rs:164-168 | Tuple `unpack` reads member j from the offset given by the sum of the widths of the members before j. |
| Kinds.WireVectors | pack/src/lib.rs:65-75 | `bool` packs as 1 or 0. Any nonzero byte, such as `0x05` or `0xFF`, unpacks as true. `u16` 0x0102 packs as `[01 02]` and `i16` -1 as `[FF FF]`. A `(u8, u16)` tuple has `SIZE` 3 and its members appear in order. |
| Special.Encode | pack/src/lib.rs:219-227 | The 6 bytes packed for an `i64` x hold x mod 2^48. Bits 48–63 are dropped. |
| Special.Pack | pack/src/lib.rs:219-227 | `I48::pack` writes the low 48 bits of the `i64` as 6 big-endian bytes at the slice start and changes nothing else. |
| Special.Decode | pack/src/lib.rs:229-243 | The intended decoding always lies in the 48-bit signed range. |
| Special.DecodeAsWritten | pack/src/lib.rs:229-243 | The closed form of what the source's `I48::unpack` returns: `BE(bytes) * 256`, or that value's low 48 bits with bits 48–63 set when bit 39 of the 48-bit value is set. The result is always an `i64`. |
| Special.UnpackAsWritten | pack/src/lib.rs:229-243 | The source's loop, which ORs then shifts, returns `BE(bytes) * 256`. Bits 48–63 are then forced to one when bit 47 of that shifted value (bit 39 of the 48-bit value) is set. |
| Special.Unpack | pack/src/lib.rs:229-243 | The corrected loop, which shifts then ORs, followed by the source's sign extension, returns the 48-bit two's-complement value of the 6 bytes. |
| Special.RoundTrip | pack/src/lib.rs:219-243 | With the corrected decoder, unpacking what `pack` wrote gives x back if and only if x lies in the 48-bit signed range. |
| Special.EncodeDecode | pack/src/lib.rs:219-243 | With the corrected decoder, re-packing what was unpacked reproduces the 6 bytes. |
| Special.AsWrittenScales | pack/src/lib.rs:232-235 | With the source's decoder, unpacking what `pack` wrote for any x in the 40-bit signed range gives 256 * x. |
| Special.AsWrittenBoundaries | pack/src/lib.rs:229-243 | The source's decoder on 0, 1, -1, 2^47-1 and -2^47 gives 0, 256, -256, -256 and 2^55. Only 0 round-trips. |
| Special.CorrectedBoundaries | pack/src/lib.rs:229-243 | The corrected decoder round-trips all five of those values. |
| Special.PackStep | pack/src/lib.rs:224-225 | On `i64`, `(this & 0xFF) as u8` is the next encoded byte, and the arithmetic `this >> 8` divides by 256. |
| Special.SignTest | pack/src/lib.rs:238 | In the corrected loop, `this & (1 << 47) != 0` holds exactly when the 48-bit value is at least 2^47. |
| Special.OrHigh | pack/src/lib.rs:239 | `this \|= 0xFFFF << 48` on a 48-bit pattern w yields the `i64` w - 2^48, the negative value the pattern stands for when bit 47 is set. |
| Special.SignTestScaled | pack/src/lib.rs:238 | After the source's loop, `this & (1 << 47) != 0` tests bit 39 of the 48-bit value, not bit 47. |
| Wire.BEOfBEBytes | pack/src/lib.rs:86-89 | The bytes the pack loop writes have the big-endian value x mod 256^n. |
| Wire.BEBytesOfBE | pack/src/lib.rs:95-98 | Every byte string is the pack loop's encoding of its own big-endian value. |
| Wire.BEBytesAt | pack/src/lib.rs:86-88 | Byte j of an n-byte encoding is byte n-1-j of the value, counting from the low end. |
| Wire.ToUnsigned | pack/src/lib.rs:112 | `x as uN` lies in the unsigned range and is congruent to x mod 256^n. |
| Wire.ToSigned | pack/src/lib.rs:128 | `u as iN` lies in the signed range and equals u or u - 256^n. |
| Wire.SignedRoundTrip | pack/src/lib.rs:111-129 | Signed to unsigned to signed is the identity on the signed range. |
| Wire.UnsignedRoundTrip | pack/src/lib.rs:120-129 | Unsigned to signed to unsigned is the identity on n-byte patterns. |
| Bits.And | pack/src/lib.rs:87 | Rust's `&` on non-negative values, bit by bit. The result is never more than either operand. |
| Bits.Or | pack/src/lib.rs:97 | Rust's `\|` on non-negative values, bit by bit. The result is at least either operand and at most their sum. |
| Bits.AndLowMask | pack/src/lib.rs:87 | `x & (2^n - 1)` keeps the low n bits: `this & 0xFF == this % 256`. |
| Bits.OrDisjoint | pack/src/lib.rs:97 | OR-ing a value below 2^n into a multiple of 2^n is addition. |
| Bits.OrHigh16 | pack/src/lib.rs:239 | OR-ing `0xFFFF << 48` into a value below 2^56 keeps its low 48 bits and sets bits 48–63. |
| Bits.Shl64 | pack/src/lib.rs:234 | `<<` on `i64` always yields an `i64`, because bits shifted past bit 63 are lost. |
| Bits.Sar8 | pack/src/lib.rs:225 | The arithmetic `>> 8` on `i64` stays in the `i64` range. |

## Left out

- `Deref` and `AsRef` for `I48` (pack/src/lib.rs:202-214) only expose the inner `i64` by reference. `From<i64>` and `into_inner` (pack/src/lib.rs:189-200) are the `I48Val` constructor and its `inner` field.
- Panics on out-of-bounds indexing and slicing are not modelled as faults. Every buffer must hold at least `SIZE` bytes, stated as a `requires`.
- Rust's generic trait dispatch and macro expansion are not modelled as such. They are replaced by the `Kind` descriptor, and tuple members by recursion over `seq<Kind>`. The seven tuple arities are the sequences of 1 to 7 member kinds.
- The error-formatting proc-macro crates (`thisdefmterror`, `thisdefmterror-macros`) are compile-time code generation with no runtime behaviour in the codec. They are not part of this model.
- Kinds.RoundTrip: stated only for kinds with no `I48` inside. The source's `I48` decoder does not undo `I48::pack` (see Findings), so a bare `I48` or a tuple holding one does not round-trip. `Kinds.I48Scales` states what happens instead. The corrected decoder's round trip is `Special.RoundTrip`.
- Kinds.EncodeDecode: stated only for kinds without `bool` or `I48`. The `bool` unpack is not injective, since every nonzero byte reads as true, so re-packing does not reproduce the byte. The source's `I48` decoder maps `[80 00 00 00 00 00]` to 2^55, which packs back to six zero bytes (`Kinds.I48NotOnto`). The corrected decoder's version is `Special.EncodeDecode`.
- Kinds.EncodeAllDecodeAll: stated only for tuples without `bool` or `I48` members, for the same two reasons.

## Findings

| source | as written | input that shows it | evidently intended | confidence | as-written member | corrected member |
|---|---|---|---|---|---|---|
| pack/src/lib.rs:232-235 | `I48::unpack` ORs each byte into the accumulator and then shifts left by 8. After six bytes the value carries one extra `<< 8`, and the sign test at line 238 examines bit 39 of the 48-bit value instead of bit 47. | `I48::from(1)` packs to `[00 00 00 00 00 01]`, which unpacks to 256. Also -1 unpacks to -256, 2^47-1 to -256, and -2^47 to 2^55. | Shift first, then OR in the byte, as the integer macros do (lines 96-97 and 124-125), so that the sign extension at lines 238-240 reads bit 47. `unpack(pack(x)) == x` for every x in the 48-bit signed range. | high (proved, not executed) | Special.UnpackAsWritten, Special.AsWrittenScales, Special.AsWrittenBoundaries | Special.Unpack, Special.RoundTrip, Special.CorrectedBoundaries |

The intent is read from the source itself. The comment at pack/src/lib.rs:237 calls the step two's-complement extension of the 48-bit value, which makes sense only for bit 47 of the unshifted value. The integer decoders at lines 96-97 and 124-125 shift before they OR.
