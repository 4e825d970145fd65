/**
 * The wire format shared by every integer kind: big-endian byte strings and
 * the two's-complement reinterpretation between signed and unsigned values
 * of the same width (Rust's `as` casts between `iN` and `uN`).
 */
module Wire {
  import opened Arith

  /** A `u8` of the buffer. */
  type byte = x: int | 0 <= x < 256

  /** The unsigned value of a big-endian byte string (most significant byte first). */
  function BE(s: seq<byte>): (r: nat)
    ensures r < Pow256(|s|)
  {
    if |s| == 0 then 0
    else
      var hi := BE(s[..|s| - 1]);
      assert hi * 256 <= (Pow256(|s| - 1) - 1) * 256;
      hi * 256 + s[|s| - 1]
  }

  /**
   * The n bytes a pack loop produces from x: the last byte is `x & 0xFF`, the
   * rest is the encoding of `x >> 8`. For negative x, `/` is the arithmetic
   * shift, so this is the two's-complement encoding of x truncated to n bytes.
   */
  function BEBytes(x: int, n: nat): (r: seq<byte>)
    ensures |r| == n
    decreases n
  {
    if n == 0 then [] else BEBytes(x / 256, n - 1) + [x % 256]
  }

  lemma BEAppend(s: seq<byte>, b: byte)
    ensures BE(s + [b]) == BE(s) * 256 + b
  {
    assert (s + [b])[..|s|] == s;
  }

  /** Encoding keeps exactly the low 8n bits: decoding gives x mod 256^n. */
  lemma {:induction false} BEOfBEBytes(x: int, n: nat)
    ensures BE(BEBytes(x, n)) == x % Pow256(n)
    decreases n
  {
    if n > 0 {
      var s := BEBytes(x, n);
      assert s[..n - 1] == BEBytes(x / 256, n - 1);
      BEOfBEBytes(x / 256, n - 1);
      DivModNested(x, 256, Pow256(n - 1));
    }
  }

  /** Every byte string is the encoding of its own value: decoding loses nothing. */
  lemma {:induction false} BEBytesOfBE(s: seq<byte>)
    ensures BEBytes(BE(s), |s|) == s
  {
    if |s| > 0 {
      var n := |s|;
      var hi := s[..n - 1];
      DivModUnique(BE(s), 256, BE(hi), s[n - 1]);
      BEBytesOfBE(hi);
      assert s == hi + [s[n - 1]];
    }
  }

  /** Only x mod 256^n matters to the encoding (bits above 8n are dropped). */
  lemma BEBytesTruncates(x: int, n: nat)
    ensures BEBytes(x, n) == BEBytes(x % Pow256(n), n)
  {
    BEBytesOfBE(BEBytes(x, n));
    BEOfBEBytes(x, n);
  }

  /** Byte j of an n-byte encoding is byte n-1-j of the value (counting from the low end). */
  lemma {:induction false} BEBytesAt(x: int, n: nat, j: nat)
    requires j < n
    ensures BEBytes(x, n)[j] == (x / Pow256(n - 1 - j)) % 256
    decreases n
  {
    if j < n - 1 {
      BEBytesAt(x / 256, n - 1, j);
      DivModNested(x, 256, Pow256(n - 2 - j));
    }
  }

  /** Rust `x as uN`: the two's-complement bit pattern of x, read as unsigned. */
  function ToUnsigned(x: int, n: nat): (r: nat)
    ensures r < Pow256(n)
    ensures (r - x) % Pow256(n) == 0
  {
    DivModUnique(x % Pow256(n) - x, Pow256(n), -(x / Pow256(n)), 0);
    x % Pow256(n)
  }

  /** Half the range of an n-byte integer: iN holds -HalfRange(n) .. HalfRange(n)-1. */
  function HalfRange(n: nat): (r: nat)
    requires n >= 1
    ensures 2 * r == Pow256(n)
  {
    128 * Pow256(n - 1)
  }

  predicate InSignedRange(x: int, n: nat)
    requires n >= 1
  {
    -(HalfRange(n) as int) <= x < HalfRange(n)
  }

  /** Rust `u as iN`: an n-byte unsigned bit pattern read as two's complement. */
  function ToSigned(u: nat, n: nat): (r: int)
    requires n >= 1 && u < Pow256(n)
    ensures InSignedRange(r, n)
    ensures r == u || r == u - Pow256(n)
  {
    if u >= HalfRange(n) then u - Pow256(n) else u
  }

  /** Signed -> unsigned -> signed is the identity on the signed range. */
  lemma SignedRoundTrip(x: int, n: nat)
    requires n >= 1 && InSignedRange(x, n)
    ensures ToSigned(ToUnsigned(x, n), n) == x
  {
    if x < 0 {
      DivModUnique(x, Pow256(n), -1, x + Pow256(n));
    } else {
      DivModUnique(x, Pow256(n), 0, x);
    }
  }

  /** Unsigned -> signed -> unsigned is the identity on n-byte patterns. */
  lemma UnsignedRoundTrip(u: nat, n: nat)
    requires n >= 1 && u < Pow256(n)
    ensures ToUnsigned(ToSigned(u, n), n) == u
  {
    var s := ToSigned(u, n);
    if s < 0 {
      DivModUnique(s, Pow256(n), -1, u);
    } else {
      DivModUnique(s, Pow256(n), 0, u);
    }
  }

  /** Reading the first `total` bytes is reading `w` of them, then `total - w` more. */
  lemma TakeSplit(b: seq<byte>, w: nat, total: nat)
    requires w <= total <= |b|
    ensures b[..total] == b[..w] + b[w..][..total - w]
  {
  }

  /** Advancing a cursor by `w`, then by `off`, is advancing it by `total` = `w + off`. */
  lemma DropDrop(b: seq<byte>, w: nat, off: nat, total: nat)
    requires total == w + off <= |b|
    ensures b[w..][off..] == b[total..]
  {
  }

  /** The bytes in [w, total) read from the cursor advanced by w, or from the first `total` bytes. */
  lemma PrefixParts(b: seq<byte>, w: nat, total: nat)
    requires w <= total <= |b|
    ensures b[..total][..w] == b[..w]
    ensures b[..total][w..] == b[w..][..total - w]
  {
  }
}
