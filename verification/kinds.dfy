/**
 * The `Pack` trait's per-type data as values: a `Kind` for each type that
 * implements the trait, its `SIZE` as `Width`, and the byte strings `pack`
 * writes and `unpack` reads as the specification functions `Encode` and
 * `Decode`.
 */
module Kinds {
  import opened Arith
  import opened Wire
  import Special

  /** The types that implement `Pack`. */
  datatype Kind =
    | Bool
    | U8
    | I8
    | UInt(size: nat)            // u16, u32, u64, u128
    | SInt(size: nat)            // i16, i32, i64, i128
    | I48                        // special::I48
    | Tuple(members: seq<Kind>)  // (A,) through (A, B, C, D, E, F, G)

  /** A value of one of those types. */
  datatype Value =
    | BoolVal(b: bool)
    | UVal(u: nat)
    | SVal(s: int)
    | I48Val(inner: int)         // I48(i64): built by From<i64>, read back by into_inner
    | TupleVal(items: seq<Value>)

  /** The byte widths of the multi-byte integer types the macros instantiate. */
  predicate WideSize(n: nat)
  {
    n == 2 || n == 4 || n == 8 || n == 16
  }

  /** The kinds the source declares: its integer widths and tuple arities 1 to 7. */
  predicate ValidKind(k: Kind)
  {
    match k
    case UInt(n) => WideSize(n)
    case SInt(n) => WideSize(n)
    case Tuple(ms) => 1 <= |ms| <= 7 && AllValid(ms)
    case _ => true
  }

  predicate AllValid(ms: seq<Kind>)
  {
    |ms| == 0 || (ValidKind(ms[0]) && AllValid(ms[1..]))
  }

  /** `SIZE`: fixed per type, never computed from a value. */
  function Width(k: Kind): nat
  {
    match k
    case Bool => 1
    case U8 => 1
    case I8 => 1
    case UInt(n) => n
    case SInt(n) => n
    case I48 => Special.SIZE
    case Tuple(ms) => SumWidths(ms)
  }

  /** A tuple's `SIZE` is the sum of its members' (`A::SIZE + B::SIZE + ... + 0`). */
  function SumWidths(ms: seq<Kind>): nat
  {
    if |ms| == 0 then 0 else Width(ms[0]) + SumWidths(ms[1..])
  }

  /** v is a value of the Rust type k (in its bit range). */
  predicate HasKind(v: Value, k: Kind)
  {
    match k
    case Bool => v.BoolVal?
    case U8 => v.UVal? && v.u < 256
    case I8 => v.SVal? && InSignedRange(v.s, 1)
    case UInt(n) => v.UVal? && v.u < Pow256(n)
    case SInt(n) => v.SVal? && n >= 1 && InSignedRange(v.s, n)
    case I48 => v.I48Val? && InSignedRange(v.inner, 8)
    case Tuple(ms) => v.TupleVal? && AllHaveKinds(v.items, ms)
  }

  predicate AllHaveKinds(vs: seq<Value>, ms: seq<Kind>)
  {
    |vs| == |ms| && (|ms| == 0 || (HasKind(vs[0], ms[0]) && AllHaveKinds(vs[1..], ms[1..])))
  }

  /** Every `SIZE` is at least one byte; outside tuples it is one of the declared integer widths. */
  lemma {:induction false} WidthPositive(k: Kind)
    requires ValidKind(k)
    ensures Width(k) >= 1
    ensures !k.Tuple? ==> Width(k) in {1, 2, 4, 6, 8, 16}
  {
    if k.Tuple? {
      SumWidthsAtLeast(k.members);
    }
  }

  /** A tuple's `SIZE` is at least its arity, since each member takes at least one byte. */
  lemma {:induction false} SumWidthsAtLeast(ms: seq<Kind>)
    requires AllValid(ms)
    ensures SumWidths(ms) >= |ms|
  {
    if |ms| > 0 {
      WidthPositive(ms[0]);
      SumWidthsAtLeast(ms[1..]);
    }
  }

  /** No I48 inside k: the kinds whose `unpack` undoes `pack` (the I48 decoder does not). */
  predicate NoI48(k: Kind)
  {
    match k
    case I48 => false
    case Tuple(ms) => AllNoI48(ms)
    case _ => true
  }

  predicate AllNoI48(ms: seq<Kind>)
  {
    |ms| == 0 || (NoI48(ms[0]) && AllNoI48(ms[1..]))
  }

  /** The bytes `pack` writes for v. */
  function Encode(k: Kind, v: Value): (r: seq<byte>)
    requires ValidKind(k) && HasKind(v, k)
    ensures |r| == Width(k)
  {
    match k
    case Bool => [if v.b then 1 else 0]
    case U8 => [v.u]
    case I8 => [ToUnsigned(v.s, 1)]
    case UInt(n) => BEBytes(v.u, n)
    case SInt(n) => BEBytes(ToUnsigned(v.s, n), n)
    case I48 => Special.Encode(v.inner)
    case Tuple(ms) => EncodeAll(ms, v.items)
  }

  /** Member encodings concatenated in declaration order, with no padding. */
  function EncodeAll(ms: seq<Kind>, vs: seq<Value>): (r: seq<byte>)
    requires AllValid(ms) && AllHaveKinds(vs, ms)
    ensures |r| == SumWidths(ms)
  {
    if |ms| == 0 then [] else Encode(ms[0], vs[0]) + EncodeAll(ms[1..], vs[1..])
  }

  /** What `unpack` reads from the first `Width(k)` bytes of b (the I48 decoder as the source writes it). */
  function Decode(k: Kind, b: seq<byte>): (r: Value)
    requires ValidKind(k) && |b| >= Width(k)
    ensures HasKind(r, k)
  {
    match k
    case Bool => BoolVal(b[0] != 0)
    case U8 => UVal(b[0])
    case I8 => SVal(ToSigned(b[0], 1))
    case UInt(n) => UVal(BE(b[..n]))
    case SInt(n) => SVal(ToSigned(BE(b[..n]), n))
    case I48 => I48Val(Special.DecodeAsWritten(b))
    case Tuple(ms) => TupleVal(DecodeAll(ms, b))
  }

  /** Members read one after another, each from where the previous one ended. */
  function DecodeAll(ms: seq<Kind>, b: seq<byte>): (r: seq<Value>)
    requires AllValid(ms) && |b| >= SumWidths(ms)
    ensures AllHaveKinds(r, ms)
  {
    if |ms| == 0 then []
    else
      var r := [Decode(ms[0], b)] + DecodeAll(ms[1..], b[Width(ms[0])..]);
      assert r[1..] == DecodeAll(ms[1..], b[Width(ms[0])..]);
      r
  }

  /** No bool inside k: the kinds whose decoding is injective. */
  predicate NoBool(k: Kind)
  {
    match k
    case Bool => false
    case Tuple(ms) => AllNoBool(ms)
    case _ => true
  }

  predicate AllNoBool(ms: seq<Kind>)
  {
    |ms| == 0 || (NoBool(ms[0]) && AllNoBool(ms[1..]))
  }

  /** `unpack` reads nothing past `Width(k)`: inputs that agree on that prefix decode alike. */
  lemma {:induction false} DecodeReadsPrefix(k: Kind, b: seq<byte>, c: seq<byte>)
    requires ValidKind(k) && |b| >= Width(k) && |c| >= Width(k)
    requires b[..Width(k)] == c[..Width(k)]
    ensures Decode(k, b) == Decode(k, c)
  {
    match k
    case Bool =>
      assert b[0] == b[..1][0] && c[0] == c[..1][0];
    case U8 =>
      assert b[0] == b[..1][0] && c[0] == c[..1][0];
    case I8 =>
      assert b[0] == b[..1][0] && c[0] == c[..1][0];
    case UInt(n) =>
    case SInt(n) =>
    case I48 =>
    case Tuple(ms) =>
      DecodeAllReadsPrefix(ms, b, c);
  }

  lemma {:induction false} DecodeAllReadsPrefix(ms: seq<Kind>, b: seq<byte>, c: seq<byte>)
    requires AllValid(ms) && |b| >= SumWidths(ms) && |c| >= SumWidths(ms)
    requires b[..SumWidths(ms)] == c[..SumWidths(ms)]
    ensures DecodeAll(ms, b) == DecodeAll(ms, c)
  {
    if |ms| > 0 {
      var w, total := Width(ms[0]), SumWidths(ms);
      PrefixParts(b, w, total);
      PrefixParts(c, w, total);
      DecodeReadsPrefix(ms[0], b, c);
      DecodeAllReadsPrefix(ms[1..], b[w..], c[w..]);
    }
  }

  /** `unpack(pack(v)) == v` for every value of a kind with no I48 inside. */
  lemma {:induction false} RoundTrip(k: Kind, v: Value)
    requires ValidKind(k) && NoI48(k) && HasKind(v, k)
    ensures Decode(k, Encode(k, v)) == v
  {
    match k
    case Bool =>
    case U8 =>
    case I8 =>
      SignedRoundTrip(v.s, 1);
    case UInt(n) =>
      UnsignedBytesRoundTrip(v.u, n);
    case SInt(n) =>
      UnsignedBytesRoundTrip(ToUnsigned(v.s, n), n);
      SignedRoundTrip(v.s, n);
    case Tuple(ms) =>
      MembersRoundTrip(ms, v.items);
      TupleRoundTrip(ms, v.items);
  }

  /** An n-byte unsigned value read back from its n bytes. */
  lemma UnsignedBytesRoundTrip(u: nat, n: nat)
    requires u < Pow256(n)
    ensures BE(BEBytes(u, n)[..n]) == u
  {
    var e := BEBytes(u, n);
    assert e[..n] == e;
    BEOfBEBytes(u, n);
    DivModUnique(u, Pow256(n), 0, u);
  }

  lemma {:induction false} MembersRoundTrip(ms: seq<Kind>, vs: seq<Value>)
    requires AllValid(ms) && AllNoI48(ms) && AllHaveKinds(vs, ms)
    ensures EachRoundTrips(ms, vs)
  {
    if |ms| > 0 {
      RoundTrip(ms[0], vs[0]);
      MembersRoundTrip(ms[1..], vs[1..]);
    }
  }

  /** Member j of the tuple round-trips, for every j. */
  predicate EachRoundTrips(ms: seq<Kind>, vs: seq<Value>)
    requires AllValid(ms) && AllHaveKinds(vs, ms)
  {
    |ms| == 0 ||
    (Decode(ms[0], Encode(ms[0], vs[0])) == vs[0] && EachRoundTrips(ms[1..], vs[1..]))
  }

  /** A tuple round-trips whenever each of its members does. */
  lemma TupleRoundTrip(ms: seq<Kind>, vs: seq<Value>)
    requires ValidKind(Tuple(ms)) && AllHaveKinds(vs, ms)
    requires EachRoundTrips(ms, vs)
    ensures Decode(Tuple(ms), Encode(Tuple(ms), TupleVal(vs))) == TupleVal(vs)
  {
    DecodeAllEncodeAll(ms, vs);
  }

  lemma {:induction false} DecodeAllEncodeAll(ms: seq<Kind>, vs: seq<Value>)
    requires AllValid(ms) && AllHaveKinds(vs, ms) && EachRoundTrips(ms, vs)
    ensures DecodeAll(ms, EncodeAll(ms, vs)) == vs
  {
    if |ms| > 0 {
      var head, tail := Encode(ms[0], vs[0]), EncodeAll(ms[1..], vs[1..]);
      var e := head + tail;
      var w := Width(ms[0]);
      assert e[..w] == head[..w];
      DecodeReadsPrefix(ms[0], e, head);
      assert e[w..] == tail;
      DecodeAllEncodeAll(ms[1..], vs[1..]);
    }
  }

  /**
   * Without bools or I48s, `pack(unpack(b))` gives back the first `Width(k)`
   * bytes: every byte pattern is some value's encoding.
   */
  lemma {:induction false} EncodeDecode(k: Kind, b: seq<byte>)
    requires ValidKind(k) && NoBool(k) && NoI48(k) && |b| >= Width(k)
    ensures Encode(k, Decode(k, b)) == b[..Width(k)]
  {
    match k
    case U8 =>
    case I8 =>
      UnsignedRoundTrip(b[0], 1);
    case UInt(n) =>
      BEBytesOfBE(b[..n]);
    case SInt(n) =>
      UnsignedRoundTrip(BE(b[..n]), n);
      BEBytesOfBE(b[..n]);
    case Tuple(ms) =>
      EncodeAllDecodeAll(ms, b);
  }

  lemma {:induction false} EncodeAllDecodeAll(ms: seq<Kind>, b: seq<byte>)
    requires AllValid(ms) && AllNoBool(ms) && AllNoI48(ms) && |b| >= SumWidths(ms)
    ensures EncodeAll(ms, DecodeAll(ms, b)) == b[..SumWidths(ms)]
  {
    if |ms| > 0 {
      var w, total := Width(ms[0]), SumWidths(ms);
      var first, rest := Decode(ms[0], b), DecodeAll(ms[1..], b[w..]);
      var d := DecodeAll(ms, b);
      assert d == [first] + rest;
      assert d[0] == first && d[1..] == rest;
      EncodeDecode(ms[0], b);
      EncodeAllDecodeAll(ms[1..], b[w..]);
      assert EncodeAll(ms, d) == Encode(ms[0], first) + EncodeAll(ms[1..], rest);
      TakeSplit(b, w, total);
    }
  }

  /**
   * Packing advances through the members: the encoding of the members from j
   * on is member j's encoding followed by that of the members from j + 1 on.
   */
  lemma NextMember(ms: seq<Kind>, vs: seq<Value>, j: nat, whole: seq<byte>, i: nat)
    requires j < |ms| == |vs| && AllValid(ms[j..]) && AllHaveKinds(vs[j..], ms[j..])
    requires i <= |whole| && whole[i..] == EncodeAll(ms[j..], vs[j..])
    ensures ValidKind(ms[j]) && HasKind(vs[j], ms[j])
    ensures AllValid(ms[j + 1..]) && AllHaveKinds(vs[j + 1..], ms[j + 1..])
    ensures SumWidths(ms[j..]) == Width(ms[j]) + SumWidths(ms[j + 1..])
    ensures i + Width(ms[j]) <= |whole| && whole[i + Width(ms[j])..] == EncodeAll(ms[j + 1..], vs[j + 1..])
    ensures forall q :: 0 <= q < Width(ms[j]) ==> whole[i + q] == Encode(ms[j], vs[j])[q]
  {
    assert ms[j..][0] == ms[j] && ms[j..][1..] == ms[j + 1..];
    assert vs[j..][0] == vs[j] && vs[j..][1..] == vs[j + 1..];
    var e, rest := Encode(ms[j], vs[j]), EncodeAll(ms[j + 1..], vs[j + 1..]);
    assert whole[i..] == e + rest;
    forall q | 0 <= q < |e|
      ensures whole[i + q] == e[q]
    {
      assert whole[i..][q] == whole[i + q];
    }
    assert whole[i + |e|..] == whole[i..][|e|..];
  }

  /** `pack` puts byte q of member j at offset q past the widths of the members before it. */
  lemma {:induction false} EncodeAllAt(ms: seq<Kind>, vs: seq<Value>, j: nat, q: nat)
    requires AllValid(ms) && AllHaveKinds(vs, ms) && j < |ms| && q < Width(ms[j])
    ensures ValidKind(ms[j]) && HasKind(vs[j], ms[j])
    ensures SumWidths(ms[..j]) + q < SumWidths(ms)
    ensures EncodeAll(ms, vs)[SumWidths(ms[..j]) + q] == Encode(ms[j], vs[j])[q]
  {
    var head, tail := Encode(ms[0], vs[0]), EncodeAll(ms[1..], vs[1..]);
    assert EncodeAll(ms, vs) == head + tail;
    if j > 0 {
      assert ms[1..][j - 1] == ms[j] && vs[1..][j - 1] == vs[j];
      EncodeAllAt(ms[1..], vs[1..], j - 1, q);
      PrefixWidth(ms, j);
    } else {
      assert ms[..j] == [];
    }
  }

  /** The members before j > 0 are member 0 and the members of the tail before j - 1. */
  lemma PrefixWidth(ms: seq<Kind>, j: nat)
    requires 0 < j <= |ms|
    ensures SumWidths(ms[..j]) == Width(ms[0]) + SumWidths(ms[1..][..j - 1])
  {
    assert ms[..j][0] == ms[0];
    assert ms[..j][1..] == ms[1..][..j - 1];
  }

  /** `unpack` reads member j from the offset given by the widths of the members before it. */
  lemma {:induction false} DecodeAllAt(ms: seq<Kind>, b: seq<byte>, j: nat)
    requires AllValid(ms) && |b| >= SumWidths(ms) && j < |ms|
    ensures ValidKind(ms[j])
    ensures SumWidths(ms[..j]) + Width(ms[j]) <= |b|
    ensures DecodeAll(ms, b)[j] == Decode(ms[j], b[SumWidths(ms[..j])..])
  {
    PrefixFits(ms, j);
    if j > 0 {
      var w := Width(ms[0]);
      DecodeAllAt(ms[1..], b[w..], j - 1);
      DecodeAllStep(ms, b, j);
    } else {
      DecodeAllCons(ms, b);
      assert ms[..j] == [];
      assert b[0..] == b;
    }
  }

  /** Reading member j of the tuple is reading member j - 1 of its tail, past the first member. */
  lemma DecodeAllStep(ms: seq<Kind>, b: seq<byte>, j: nat)
    requires AllValid(ms) && |b| >= SumWidths(ms) && 0 < j < |ms|
    requires ValidKind(ms[j]) && SumWidths(ms[..j]) + Width(ms[j]) <= |b|
    requires AllValid(ms[1..]) && |b[Width(ms[0])..]| >= SumWidths(ms[1..])
    requires SumWidths(ms[1..][..j - 1]) + Width(ms[1..][j - 1]) <= |b[Width(ms[0])..]|
    requires ValidKind(ms[1..][j - 1])
    requires DecodeAll(ms[1..], b[Width(ms[0])..])[j - 1]
          == Decode(ms[1..][j - 1], b[Width(ms[0])..][SumWidths(ms[1..][..j - 1])..])
    ensures DecodeAll(ms, b)[j] == Decode(ms[j], b[SumWidths(ms[..j])..])
  {
    var w, off := Width(ms[0]), SumWidths(ms[1..][..j - 1]);
    DecodeAllCons(ms, b);
    assert ms[1..][j - 1] == ms[j];
    PrefixWidth(ms, j);
    DropDrop(b, w, off, SumWidths(ms[..j]));
  }

  /** Member j ends within the tuple: the widths before it plus its own are at most `SIZE`. */
  lemma {:induction false} PrefixFits(ms: seq<Kind>, j: nat)
    requires AllValid(ms) && j < |ms|
    ensures ValidKind(ms[j]) && SumWidths(ms[..j]) + Width(ms[j]) <= SumWidths(ms)
  {
    if j > 0 {
      assert ms[1..][j - 1] == ms[j];
      PrefixFits(ms[1..], j - 1);
      PrefixWidth(ms, j);
    } else {
      assert ms[..j] == [];
    }
  }

  /** The first member is read at the start; the others from where it ends. */
  lemma DecodeAllCons(ms: seq<Kind>, b: seq<byte>)
    requires AllValid(ms) && |b| >= SumWidths(ms) && |ms| > 0
    ensures ValidKind(ms[0]) && Width(ms[0]) <= |b|
    ensures DecodeAll(ms, b)[0] == Decode(ms[0], b)
    ensures forall j :: 0 < j < |ms| ==> DecodeAll(ms, b)[j] == DecodeAll(ms[1..], b[Width(ms[0])..])[j - 1]
  {
    var rest := DecodeAll(ms[1..], b[Width(ms[0])..]);
    assert DecodeAll(ms, b) == [Decode(ms[0], b)] + rest;
  }

  /**
   * `unpack(pack(v))` for a bare I48: on the 40-bit signed range it gives
   * 256 times the packed value, so 1 comes back as 256.
   */
  lemma I48Scales(x: int)
    requires -0x80_0000_0000 <= x < 0x80_0000_0000
    ensures Decode(I48, Encode(I48, I48Val(x))) == I48Val(256 * x)
    ensures x != 0 ==> Decode(I48, Encode(I48, I48Val(x))) != I48Val(x)
  {
    Special.AsWrittenScales(x);
  }

  /** `pack(unpack(b))` for a bare I48 need not give b back: `[80 00 00 00 00 00]` re-packs as zeros. */
  lemma I48NotOnto()
    ensures Decode(I48, [0x80, 0, 0, 0, 0, 0]) == I48Val(0x80_0000_0000_0000)
    ensures Encode(I48, Decode(I48, [0x80, 0, 0, 0, 0, 0])) == [0, 0, 0, 0, 0, 0]
  {
    MinEncoding();
    Special.AsWrittenBoundaries();
    HighOnlyEncoding();
  }

  /** -2^47 packs as `[80 00 00 00 00 00]`. */
  lemma MinEncoding()
    ensures BEBytes(-0x8000_0000_0000, 6) == [0x80, 0, 0, 0, 0, 0]
  {
    assert BEBytes(-0x80, 1) == [0x80];
    assert BEBytes(-0x8000, 2) == [0x80, 0];
    assert BEBytes(-0x80_0000, 3) == [0x80, 0, 0];
    assert BEBytes(-0x8000_0000, 4) == [0x80, 0, 0, 0];
    assert BEBytes(-0x80_0000_0000, 5) == [0x80, 0, 0, 0, 0];
  }

  /** 2^55 has no bit below 48, so it packs as six zero bytes. */
  lemma HighOnlyEncoding()
    ensures BEBytes(0x80_0000_0000_0000, 6) == [0, 0, 0, 0, 0, 0]
  {
    assert BEBytes(0x8000, 1) == [0];
    assert BEBytes(0x80_0000, 2) == [0, 0];
    assert BEBytes(0x8000_0000, 3) == [0, 0, 0];
    assert BEBytes(0x80_0000_0000, 4) == [0, 0, 0, 0];
    assert BEBytes(0x8000_0000_0000, 5) == [0, 0, 0, 0, 0];
  }

  /** The wire format's reference vectors. */
  lemma WireVectors()
    ensures Encode(UInt(2), UVal(0x0102)) == [0x01, 0x02]
    ensures Encode(SInt(2), SVal(-1)) == [0xFF, 0xFF]
    ensures Encode(Bool, BoolVal(true)) == [0x01] && Encode(Bool, BoolVal(false)) == [0x00]
    ensures Decode(Bool, [0x05]) == BoolVal(true) && Decode(Bool, [0xFF]) == BoolVal(true)
    ensures forall b: byte :: Decode(Bool, [b]) == BoolVal(b != 0)
    ensures Decode(Bool, [0x00]) == BoolVal(false)
    ensures Width(Tuple([U8, UInt(2)])) == 3
    ensures Encode(Tuple([U8, UInt(2)]), TupleVal([UVal(0xAB), UVal(0x0102)])) == [0xAB, 0x01, 0x02]
  {
    assert Pow256(2) == 0x1_0000;
    assert ToUnsigned(-1, 2) == 0xFFFF;
    assert EncodeAll([U8, UInt(2)], [UVal(0xAB), UVal(0x0102)]) == [0xAB] + EncodeAll([UInt(2)], [UVal(0x0102)]);
  }
}
