/**
 * The 48-bit signed integer `I48`: an `i64` packed into 6 big-endian bytes,
 * with no range check on construction or on packing, and sign extension from
 * bit 47 on unpacking.
 *
 * `UnpackAsWritten` keeps the source's loop, which ORs in the byte before
 * shifting and so ends with one shift too many; it is the decoder `Pack::unpack`
 * runs for `I48`, and the lemmas at the end of the module pin down what it
 * computes. `Unpack` is the corrected decoder (shift, then OR in the next
 * byte, as the other integer decoders do), proved to round-trip on the 48-bit
 * range.
 */
module Special {
  import opened Arith
  import opened Wire
  import opened Bits

  /** `I48::SIZE` */
  const SIZE: nat := 6

  /** The 6 bytes `I48::pack` writes for the `i64` x. */
  function Encode(x: int): (r: seq<byte>)
    ensures |r| == SIZE
    ensures BE(r) == x % 0x1_0000_0000_0000
  {
    BEOfBEBytes(x, SIZE);
    Powers();
    BEBytes(x, SIZE)
  }

  /** The intended decoding: the 48-bit two's-complement value of the first 6 bytes. */
  function Decode(b: seq<byte>): (r: int)
    requires |b| >= SIZE
    ensures InSignedRange(r, SIZE)
  {
    ToSigned(BE(b[..SIZE]), SIZE)
  }

  /**
   * What the source's `I48::unpack` returns: the 48-bit value w shifted left
   * by 8, with bits 48..63 then forced to one when bit 47 of the shifted value
   * (bit 39 of w) is set.
   */
  function DecodeAsWritten(b: seq<byte>): (r: int)
    requires |b| >= SIZE
    ensures InI64(r)
  {
    var w := BE(b[..SIZE]);
    if (w / 0x80_0000_0000) % 2 == 1 then (w % 0x100_0000_0000) * 256 - 0x1_0000_0000_0000
    else w * 256
  }

  /** `I48::pack`: writes the low 48 bits of x into buf[off..off+6], most significant byte first. */
  method Pack(x: int, buf: array<byte>, off: nat)
    requires InI64(x) && off + SIZE <= buf.Length
    modifies buf
    ensures forall p :: off <= p < off + SIZE ==> buf[p] == Encode(x)[p - off]
    ensures forall p :: 0 <= p < buf.Length && !(off <= p < off + SIZE) ==> buf[p] == old(buf[p])
  {
    var acc := x;
    for i := 1 to SIZE + 1
      invariant acc == x / Pow256(i - 1)
      invariant forall p :: off + SIZE - (i - 1) <= p < off + SIZE ==> buf[p] == BEBytes(x, SIZE)[p - off]
      invariant forall p :: 0 <= p < buf.Length && !(off + SIZE - (i - 1) <= p < off + SIZE) ==> buf[p] == old(buf[p])
    {
      PackStep(x, i, acc);
      buf[off + SIZE - i] := And(AsU64(acc), 0xFF);  // (this & 0xFF) as u8
      acc := Sar8(acc);                             // this >> 8
    }
    assert Encode(x) == BEBytes(x, SIZE);
  }

  /** `I48::unpack` as the source writes it: OR in the byte, then shift. */
  method UnpackAsWritten(buf: seq<byte>) returns (r: int)
    requires |buf| >= SIZE
    ensures r == DecodeAsWritten(buf)
  {
    var acc: int := 0;
    for i := 0 to SIZE
      invariant acc == BE(buf[..i]) * 256
    {
      AsWrittenStep(buf, i);
      acc := AsI64(Or(AsU64(acc), buf[i]));   // this |= buf[i] as i64
      acc := Shl64(acc, 8);                   // this = this << 8
    }
    ghost var w := BE(buf[..SIZE]);
    SignTestScaled(w);
    if And(AsU64(acc), AsU64(Shl64(1, 47))) != 0 {
      OrHighScaled(w);
      acc := AsI64(Or(AsU64(acc), AsU64(Shl64(0xFFFF, 48))));  // this |= 0xFFFF << 48
    }
    r := acc;
  }

  /** `I48::unpack` corrected: shift, then OR in the byte. */
  method Unpack(buf: seq<byte>) returns (r: int)
    requires |buf| >= SIZE
    ensures r == Decode(buf)
  {
    var acc: int := 0;
    for i := 0 to SIZE
      invariant acc == BE(buf[..i])
    {
      CorrectedStep(buf, i);
      acc := Shl64(acc, 8);                   // this = this << 8
      acc := AsI64(Or(AsU64(acc), buf[i]));   // this |= buf[i] as i64
    }
    ghost var w := BE(buf[..SIZE]);
    SignTest(w);
    if And(AsU64(acc), AsU64(Shl64(1, 47))) != 0 {
      OrHigh(w);
      acc := AsI64(Or(AsU64(acc), AsU64(Shl64(0xFFFF, 48))));  // this |= 0xFFFF << 48
    }
    r := acc;
  }

  /** Packing then unpacking returns x exactly when x fits in 48 bits; above that the high bits are lost. */
  lemma RoundTrip(x: int)
    ensures Decode(Encode(x)) == x <==> InSignedRange(x, SIZE)
  {
    var e := Encode(x);
    assert e[..SIZE] == e;
    Powers();
    assert BE(e) == ToUnsigned(x, SIZE);
    if InSignedRange(x, SIZE) {
      SignedRoundTrip(x, SIZE);
    }
  }

  /** Every 6-byte pattern is the encoding of its decoding: unpacking loses nothing. */
  lemma EncodeDecode(b: seq<byte>)
    requires |b| >= SIZE
    ensures Encode(Decode(b)) == b[..SIZE]
  {
    var u := BE(b[..SIZE]);
    UnsignedRoundTrip(u, SIZE);
    BEBytesTruncates(Decode(b), SIZE);
    BEBytesOfBE(b[..SIZE]);
  }

  /**
   * The source's decoder multiplies by 256: on the 40-bit signed range,
   * unpacking what `pack` wrote gives 256 * x instead of x.
   */
  lemma AsWrittenScales(x: int)
    requires -0x80_0000_0000 <= x < 0x80_0000_0000
    ensures DecodeAsWritten(Encode(x)) == 256 * x
  {
    var e := Encode(x);
    assert e[..SIZE] == e;
    var w := BE(e);
    if x >= 0 {
      DivModUnique(x, 0x1_0000_0000_0000, 0, x);
      DivModUnique(w, 0x80_0000_0000, 0, w);
    } else {
      DivModUnique(x, 0x1_0000_0000_0000, -1, x + 0x1_0000_0000_0000);
      DivModUnique(w, 0x80_0000_0000, 0x1FF, w - 0x1FF * 0x80_0000_0000);
      DivModUnique(w, 0x100_0000_0000, 0xFF, x + 0x100_0000_0000);
    }
  }

  /**
   * The source's decoder on the five boundary values of the 48-bit range:
   * only 0 survives the round trip.
   */
  lemma AsWrittenBoundaries()
    ensures DecodeAsWritten(Encode(0)) == 0
    ensures DecodeAsWritten(Encode(1)) == 256
    ensures DecodeAsWritten(Encode(-1)) == -256
    ensures DecodeAsWritten(Encode(0x7FFF_FFFF_FFFF)) == -256
    ensures DecodeAsWritten(Encode(-0x8000_0000_0000)) == 0x80_0000_0000_0000
  {
    AsWrittenScales(0);
    AsWrittenScales(1);
    AsWrittenScales(-1);
    var e := Encode(0x7FFF_FFFF_FFFF);
    assert e[..SIZE] == e;
    DivModUnique(0x7FFF_FFFF_FFFF, 0x1_0000_0000_0000, 0, 0x7FFF_FFFF_FFFF);
    var f := Encode(-0x8000_0000_0000);
    assert f[..SIZE] == f;
    DivModUnique(-0x8000_0000_0000, 0x1_0000_0000_0000, -1, 0x8000_0000_0000);
  }

  /** The corrected decoder on the same five values: all of them round-trip. */
  lemma CorrectedBoundaries()
    ensures Decode(Encode(0)) == 0
    ensures Decode(Encode(1)) == 1
    ensures Decode(Encode(-1)) == -1
    ensures Decode(Encode(0x7FFF_FFFF_FFFF)) == 0x7FFF_FFFF_FFFF
    ensures Decode(Encode(-0x8000_0000_0000)) == -0x8000_0000_0000
  {
    Powers();
    RoundTrip(0);
    RoundTrip(1);
    RoundTrip(-1);
    RoundTrip(0x7FFF_FFFF_FFFF);
    RoundTrip(-0x8000_0000_0000);
  }

  // Helpers for the loops above.

  lemma LowByteOfI64(x: int)
    ensures And(AsU64(x), 0xFF) == x % 256
  {
    Powers();
    AndLowMask(AsU64(x), 8);
    DivModNested(x, 256, Pow256(7));
    DivModUnique(AsU64(x), 256, (x / 256) % Pow256(7), x % 256);
  }

  lemma PrefixBound(buf: seq<byte>, i: nat)
    requires i < SIZE <= |buf|
    ensures BE(buf[..i]) < 0x100_0000_0000
  {
    Powers();
    Pow256Monotone(i, 5);
  }

  lemma NextPrefix(buf: seq<byte>, i: nat)
    requires i < |buf|
    ensures BE(buf[..i + 1]) == BE(buf[..i]) * 256 + buf[i]
  {
    assert buf[..i + 1] == buf[..i] + [buf[i]];
    BEAppend(buf[..i], buf[i]);
  }

  /** Step i of the pack loop: `acc & 0xFF` is byte SIZE - i of the encoding, and `acc >> 8` is x >> 8i. */
  lemma PackStep(x: int, i: nat, acc: int)
    requires 1 <= i <= SIZE && acc == x / Pow256(i - 1)
    ensures And(AsU64(acc), 0xFF) == BEBytes(x, SIZE)[SIZE - i]
    ensures Sar8(acc) == x / Pow256(i)
  {
    LowByteOfI64(acc);
    BEBytesAt(x, SIZE, SIZE - i);
    ShiftStep(x, i - 1);
  }

  /** One iteration of the as-written loop: OR in byte i, then shift the whole prefix up by 8. */
  lemma AsWrittenStep(buf: seq<byte>, i: nat)
    requires i < SIZE <= |buf|
    ensures Or(AsU64(BE(buf[..i]) * 256), buf[i]) < Pow256(8)
    ensures Shl64(AsI64(Or(AsU64(BE(buf[..i]) * 256), buf[i])), 8) == BE(buf[..i + 1]) * 256
  {
    var v := BE(buf[..i]);
    PrefixBound(buf, i);
    Powers();
    NonNegI64(v * 256);
    DivModUnique(v * 256, 256, v, 0);
    OrDisjoint(v * 256, buf[i], 8);
    NextPrefix(buf, i);
    NonNegI64(v * 256 + buf[i]);
    ShiftSmall(v * 256 + buf[i]);
  }

  /** One iteration of the corrected loop: shift the prefix up by 8, then OR in byte i. */
  lemma CorrectedStep(buf: seq<byte>, i: nat)
    requires i < SIZE <= |buf|
    ensures Or(AsU64(Shl64(BE(buf[..i]), 8)), buf[i]) < Pow256(8)
    ensures AsI64(Or(AsU64(Shl64(BE(buf[..i]), 8)), buf[i])) == BE(buf[..i + 1])
  {
    var v := BE(buf[..i]);
    PrefixBound(buf, i);
    Powers();
    ShiftSmall(v);
    NonNegI64(v * 256);
    DivModUnique(v * 256, 256, v, 0);
    OrDisjoint(v * 256, buf[i], 8);
    NextPrefix(buf, i);
    NonNegI64(v * 256 + buf[i]);
  }

  /** A non-negative i64 is its own bit pattern. */
  lemma NonNegI64(x: int)
    requires 0 <= x < 0x8000_0000_0000_0000
    ensures AsU64(x) == x && AsI64(x) == x
  {
    Powers();
    DivModUnique(x, Pow256(8), 0, x);
  }

  lemma ShiftSmall(x: int)
    requires 0 <= x < 0x1_0000_0000_0000
    ensures Shl64(x, 8) == x * 256
  {
    Powers();
    NonNegI64(x);
    DivModUnique(x * 256, Pow256(8), 0, x * 256);
    NonNegI64(x * 256);
  }

  /** The operands `1 << 47` and `0xFFFF << 48` of the sign extension, as u64 bit patterns. */
  lemma SignConstants()
    ensures AsU64(Shl64(1, 47)) == 0x8000_0000_0000
    ensures AsU64(Shl64(0xFFFF, 48)) == 0xFFFF_0000_0000_0000
  {
    Powers();
    NonNegI64(1);
    NonNegI64(0xFFFF);
    DivModUnique(0x8000_0000_0000, Pow256(8), 0, 0x8000_0000_0000);
    NonNegI64(0x8000_0000_0000);
    DivModUnique(0xFFFF_0000_0000_0000, Pow256(8), 0, 0xFFFF_0000_0000_0000);
    UnsignedRoundTrip(0xFFFF_0000_0000_0000, 8);
  }

  /** After the as-written loop, `acc & (1 << 47)` tests bit 39 of the 48-bit value. */
  lemma SignTestScaled(w: nat)
    requires w < 0x1_0000_0000_0000
    ensures (And(AsU64(w * 256), AsU64(Shl64(1, 47))) != 0) == ((w / 0x80_0000_0000) % 2 == 1)
  {
    SignConstants();
    NonNegI64(w * 256);
    var bit := ((w * 256) / 0x8000_0000_0000) % 2;
    assert And(w * 256, 0x8000_0000_0000) == 0x8000_0000_0000 * bit by {
      Powers();
      AndSingleBit(w * 256, 47);
    }
    assert (w * 256) / 0x8000_0000_0000 == w / 0x80_0000_0000 by {
      ModScaled(w, 0x80_0000_0000, 256);
    }
  }

  lemma OrHighScaled(w: nat)
    requires w < 0x1_0000_0000_0000
    ensures Or(AsU64(w * 256), AsU64(Shl64(0xFFFF, 48)))
         == (w % 0x100_0000_0000) * 256 + 0xFFFF_0000_0000_0000
    ensures AsI64(Or(AsU64(w * 256), AsU64(Shl64(0xFFFF, 48))))
         == (w % 0x100_0000_0000) * 256 - 0x1_0000_0000_0000
  {
    Powers();
    SignConstants();
    NonNegI64(w * 256);
    OrHigh16(w * 256);
    ModScaled(w, 0x100_0000_0000, 256);
  }

  /** After the corrected loop, `acc & (1 << 47)` tests bit 47 of the 48-bit value. */
  lemma SignTest(w: nat)
    requires w < 0x1_0000_0000_0000
    ensures (And(AsU64(w), AsU64(Shl64(1, 47))) != 0) == (w >= 0x8000_0000_0000)
  {
    SignConstants();
    NonNegI64(w);
    Bit47(w);
  }

  /** Bit 47 of a 48-bit value is set exactly when the value is at least 2^47. */
  lemma Bit47(w: nat)
    requires w < 0x1_0000_0000_0000
    ensures (And(w, 0x8000_0000_0000) != 0) == (w >= 0x8000_0000_0000)
  {
    var bit := (w / 0x8000_0000_0000) % 2;
    if w >= 0x8000_0000_0000 {
      DivModUnique(w, 0x8000_0000_0000, 1, w - 0x8000_0000_0000);
    } else {
      DivModUnique(w, 0x8000_0000_0000, 0, w);
    }
    assert And(w, 0x8000_0000_0000) == 0x8000_0000_0000 * bit by {
      Powers();
      AndSingleBit(w, 47);
    }
  }

  lemma OrHigh(w: nat)
    requires w < 0x1_0000_0000_0000
    ensures Or(AsU64(w), AsU64(Shl64(0xFFFF, 48))) == w + 0xFFFF_0000_0000_0000
    ensures AsI64(Or(AsU64(w), AsU64(Shl64(0xFFFF, 48)))) == w - 0x1_0000_0000_0000
  {
    Powers();
    SignConstants();
    NonNegI64(w);
    OrHigh16(w);
    DivModUnique(w, 0x1_0000_0000_0000, 0, w);
  }
}
