/**
 * The `Pack` trait's methods: `pack` into a caller's byte buffer, `unpack`
 * from a byte slice, and the cursor readers `unpack_it` and
 * `unpack_it_unchecked`, for every kind, each proved against `Kinds.Encode`
 * and `Kinds.Decode`.
 *
 * A `&mut [u8]` destination is an array with the offset where the slice
 * starts (a tuple packs each member into `&mut buf[i..]`). A `&mut &[u8]`
 * cursor is an in/out parameter: the reader takes the current view and
 * returns the view the caller's slice variable holds afterwards.
 */
module Codec {
  import opened Arith
  import opened Wire
  import opened Bits
  import opened Kinds
  import Special

  datatype Option<T> = None | Some(value: T)

  /** `pack` of `pack_uint_impl` (and of `pack_iint_impl` after its `as uN` cast). */
  method PackUnsigned(x: nat, size: nat, buf: array<byte>, off: nat)
    requires x < Pow256(size) && off + size <= buf.Length
    modifies buf
    ensures forall p :: off <= p < off + size ==> buf[p] == BEBytes(x, size)[p - off]
    ensures forall p :: 0 <= p < buf.Length && !(off <= p < off + size) ==> buf[p] == old(buf[p])
  {
    var acc := x;
    for i := 1 to size + 1
      invariant acc == x / Pow256(i - 1)
      invariant forall p :: off + size - (i - 1) <= p < off + size ==> buf[p] == BEBytes(x, size)[p - off]
      invariant forall p :: 0 <= p < buf.Length && !(off + size - (i - 1) <= p < off + size) ==> buf[p] == old(buf[p])
    {
      LowByte(x, size, i, acc);
      buf[off + size - i] := And(acc, 0xFF);  // (this & 0xFF) as u8
      acc := acc / 256;                       // this >> 8
    }
  }

  /** Step i of the pack loop: `acc & 0xFF` is byte size - i of the encoding, and `acc >> 8` is x >> 8i. */
  lemma LowByte(x: nat, size: nat, i: nat, acc: nat)
    requires 1 <= i <= size && acc == x / Pow256(i - 1)
    ensures And(acc, 0xFF) == BEBytes(x, size)[size - i]
    ensures acc / 256 == x / Pow256(i)
  {
    Powers();
    AndLowMask(acc, 8);
    BEBytesAt(x, size, size - i);
    ShiftStep(x, i - 1);
  }

  /** `x << 8` on an unsigned integer of `size` bytes: bits pushed past the top are lost. */
  function ShlByte(x: nat, size: nat): (r: nat)
    ensures r < Pow256(size)
  {
    (x * 256) % Pow256(size)
  }

  /** `unpack` of `pack_uint_impl` (and of `pack_iint_impl` before its `as iN` cast). */
  method UnpackUnsigned(buf: seq<byte>, size: nat) returns (r: nat)
    requires size <= |buf|
    ensures r == BE(buf[..size])
  {
    r := 0;
    for i := 0 to size
      invariant r == BE(buf[..i])
    {
      UnsignedStep(buf, i, size);
      r := Or(ShlByte(r, size), buf[i]);      // this = this << 8; this |= buf[i] as uN
    }
  }

  /** Step i of the unpack loop: shifting in byte i extends the big-endian prefix (no bit is lost). */
  lemma UnsignedStep(buf: seq<byte>, i: nat, size: nat)
    requires i < size <= |buf|
    ensures Or(ShlByte(BE(buf[..i]), size), buf[i]) == BE(buf[..i + 1])
  {
    var v := BE(buf[..i]);
    Pow256Monotone(i + 1, size);
    assert v * 256 < Pow256(i + 1);
    DivModUnique(v * 256, Pow256(size), 0, v * 256);
    DivModUnique(v * 256, 256, v, 0);
    Powers();
    OrDisjoint(v * 256, buf[i], 8);
    assert buf[..i + 1] == buf[..i] + [buf[i]];
    BEAppend(buf[..i], buf[i]);
  }

  /** `Pack::pack`: writes `Encode(k, v)` into buf[off..off + Width(k)] and nothing else. */
  method Pack(k: Kind, v: Value, buf: array<byte>, off: nat)
    requires ValidKind(k) && HasKind(v, k) && off + Width(k) <= buf.Length
    modifies buf
    ensures forall p :: off <= p < off + Width(k) ==> buf[p] == Encode(k, v)[p - off]
    ensures forall p :: 0 <= p < buf.Length && !(off <= p < off + Width(k)) ==> buf[p] == old(buf[p])
    decreases k, 2
  {
    match k
    case Bool =>
      buf[off] := if v.b then 1 else 0;
    case U8 =>
      buf[off] := v.u;
    case I8 =>
      buf[off] := ToUnsigned(v.s, 1);        // *self as u8
    case UInt(n) =>
      PackUnsigned(v.u, n, buf, off);
    case SInt(n) =>
      PackUnsigned(ToUnsigned(v.s, n), n, buf, off);
    case I48 =>
      Special.Pack(v.inner, buf, off);
    case Tuple(ms) =>
      PackTuple(ms, v.items, buf, off);
  }

  /** `pack` of `pack_tuple_impl`: each member into `&mut buf[i..]`, `i` advancing by the member's `SIZE`. */
  method PackTuple(ms: seq<Kind>, vs: seq<Value>, buf: array<byte>, off: nat)
    requires 1 <= |ms| <= 7 && AllValid(ms) && AllHaveKinds(vs, ms) && off + SumWidths(ms) <= buf.Length
    modifies buf
    ensures forall p :: off <= p < off + SumWidths(ms) ==> buf[p] == EncodeAll(ms, vs)[p - off]
    ensures forall p :: 0 <= p < buf.Length && !(off <= p < off + SumWidths(ms)) ==> buf[p] == old(buf[p])
    decreases Tuple(ms), 1
  {
    ghost var whole := EncodeAll(ms, vs);
    var i: nat := 0;
    assert ms[0..] == ms && vs[0..] == vs;
    for j := 0 to |ms|
      invariant AllValid(ms[j..]) && AllHaveKinds(vs[j..], ms[j..])
      invariant i + SumWidths(ms[j..]) == |whole| && whole[i..] == EncodeAll(ms[j..], vs[j..])
      invariant forall p :: off <= p < off + i ==> buf[p] == whole[p - off]
      invariant forall p :: 0 <= p < buf.Length && !(off <= p < off + i) ==> buf[p] == old(buf[p])
    {
      PackMember(ms, vs, j, buf, off, i, whole);
      i := i + Width(ms[j]);
    }
    assert ms[|ms|..] == [];
  }

  /** One iteration of the tuple loop: member j goes to the next bytes of the tuple's encoding. */
  method PackMember(ms: seq<Kind>, vs: seq<Value>, j: nat, buf: array<byte>, off: nat, i: nat, ghost whole: seq<byte>)
    requires j < |ms| == |vs| && AllValid(ms[j..]) && AllHaveKinds(vs[j..], ms[j..])
    requires i + SumWidths(ms[j..]) == |whole| && whole[i..] == EncodeAll(ms[j..], vs[j..])
    requires off + |whole| <= buf.Length
    modifies buf
    ensures AllValid(ms[j + 1..]) && AllHaveKinds(vs[j + 1..], ms[j + 1..])
    ensures i + Width(ms[j]) + SumWidths(ms[j + 1..]) == |whole|
    ensures whole[i + Width(ms[j])..] == EncodeAll(ms[j + 1..], vs[j + 1..])
    ensures forall p :: off + i <= p < off + i + Width(ms[j]) ==> buf[p] == whole[p - off]
    ensures forall p :: 0 <= p < buf.Length && !(off + i <= p < off + i + Width(ms[j])) ==> buf[p] == old(buf[p])
    decreases Tuple(ms), 0
  {
    NextMember(ms, vs, j, whole, i);
    ghost var e := Encode(ms[j], vs[j]);
    Pack(ms[j], vs[j], buf, off + i);
    forall p | off + i <= p < off + i + |e|
      ensures buf[p] == whole[p - off]
    {
      var q := p - (off + i);
      assert buf[p] == e[q] == whole[i + q];
    }
  }

  /** `Pack::unpack`: decodes the first `Width(k)` bytes of buf. */
  method Unpack(k: Kind, buf: seq<byte>) returns (v: Value)
    requires ValidKind(k) && |buf| >= Width(k)
    ensures v == Decode(k, buf)
    decreases k, 2
  {
    match k
    case Bool =>
      v := BoolVal(buf[0] != 0);
    case U8 =>
      v := UVal(buf[0]);
    case I8 =>
      v := SVal(ToSigned(buf[0], 1));        // buf[0] as i8
    case UInt(n) =>
      var x := UnpackUnsigned(buf, n);
      v := UVal(x);
    case SInt(n) =>
      var x := UnpackUnsigned(buf, n);
      v := SVal(ToSigned(x, n));              // this as iN
    case I48 =>
      var x := Special.UnpackAsWritten(buf);
      v := I48Val(x);
    case Tuple(_) =>
      v := UnpackTuple(k, buf);
  }

  /** `unpack` of `pack_tuple_impl`: one unchecked cursor read per member, in declaration order. */
  method UnpackTuple(k: Kind, buf: seq<byte>) returns (v: Value)
    requires k.Tuple? && ValidKind(k) && |buf| >= Width(k)
    ensures v == Decode(k, buf)
    decreases k, 1
  {
    var ms := k.members;
    var cursor := buf;
    var items := [];
    for j := 0 to |ms|
      invariant AllValid(ms[j..]) && |cursor| >= SumWidths(ms[j..])
      invariant items + DecodeAll(ms[j..], cursor) == DecodeAll(ms, buf)
    {
      assert ms[j..][1..] == ms[j + 1..] && ms[j..][0] == ms[j];
      var x;
      x, cursor := UnpackItUnchecked(ms[j], cursor);
      items := items + [x];
    }
    assert ms[|ms|..] == [];
    v := TupleVal(items);
  }

  /**
   * `Pack::unpack_it_unchecked`: decodes from the cursor and advances it by
   * `Width(k)`. A view shorter than that makes the source's slicing panic, so
   * it is excluded here.
   */
  method UnpackItUnchecked(k: Kind, view: seq<byte>) returns (v: Value, rest: seq<byte>)
    requires ValidKind(k) && |view| >= Width(k)
    ensures v == Decode(k, view)
    ensures rest == view[Width(k)..] && |rest| == |view| - Width(k)
    decreases k, 3
  {
    v := Unpack(k, view);
    rest := view[Width(k)..];
  }

  /**
   * `Pack::unpack_it`: on a view shorter than `Width(k)` gives `None` and
   * leaves the cursor where it was; otherwise decodes and advances the cursor
   * by exactly `Width(k)`.
   */
  method UnpackIt(k: Kind, view: seq<byte>) returns (r: Option<Value>, rest: seq<byte>)
    requires ValidKind(k)
    ensures |view| < Width(k) ==> r == None && rest == view
    ensures |view| >= Width(k) ==> r == Some(Decode(k, view)) && rest == view[Width(k)..]
    ensures r.Some? ==> |rest| == |view| - Width(k)
  {
    if |view| < Width(k) {
      return None, view;
    }
    var v := Unpack(k, view);
    r, rest := Some(v), view[Width(k)..];
  }

  /**
   * `unpack_it` of a `u16` on the reference inputs: one byte is too short and
   * leaves the cursor alone; three bytes give 0x0102 and leave the last byte.
   */
  method CursorVectors() returns (short: Option<Value>, shortRest: seq<byte>, long: Option<Value>, longRest: seq<byte>)
    ensures short == None && shortRest == [0x07]
    ensures long == Some(UVal(0x0102)) && longRest == [0x09]
  {
    short, shortRest := UnpackIt(UInt(2), [0x07]);
    long, longRest := UnpackIt(UInt(2), [0x01, 0x02, 0x09]);
    assert [0x01, 0x02, 0x09][..2] == [0x01, 0x02];
  }
}
