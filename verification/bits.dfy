/**
 * Rust's bitwise operators on fixed-width integers, modelled on unbounded
 * naturals bit by bit, and the 64-bit two's-complement view needed for the
 * `i64` arithmetic of the 48-bit integer codec.
 */
module Bits {
  import opened Arith
  import opened Wire

  /** `x & y` on non-negative values: never more than either operand. */
  function And(x: nat, y: nat): (r: nat)
    ensures r <= x && r <= y
    decreases x + y
  {
    if x == 0 || y == 0 then 0
    else 2 * And(x / 2, y / 2) + (if x % 2 == 1 && y % 2 == 1 then 1 else 0)
  }

  /** `x | y` on non-negative values: at least either operand, at most their sum. */
  function Or(x: nat, y: nat): (r: nat)
    ensures x <= r && y <= r && r <= x + y
    decreases x + y
  {
    if x == 0 then y
    else if y == 0 then x
    else 2 * Or(x / 2, y / 2) + (if x % 2 == 1 || y % 2 == 1 then 1 else 0)
  }

  /** Masking with 2^n - 1 keeps the low n bits: `x & 0xFF == x % 256`. */
  lemma AndLowMask(x: nat, n: nat)
    ensures And(x, Pow2(n) - 1) == x % Pow2(n)
  {
    AndOnes(x, n);
    OnesValue(n);
    ShrLowAreDivMod(x, n);
  }

  /** n one-bits. */
  function Ones(n: nat): (r: nat)
  {
    if n == 0 then 0 else 2 * Ones(n - 1) + 1
  }

  lemma {:induction false} OnesValue(n: nat)
    ensures Ones(n) == Pow2(n) - 1
  {
    if n > 0 {
      OnesValue(n - 1);
    }
  }

  lemma {:induction false} AndOnes(x: nat, n: nat)
    ensures And(x, Ones(n)) == Low(x, n)
  {
    if n > 0 {
      AndOnes(x / 2, n - 1);
      assert Ones(n) / 2 == Ones(n - 1) && Ones(n) % 2 == 1;
    }
  }

  /** Masking with a single bit 2^n tests bit n: `x & (1 << n)` is 2^n or 0. */
  lemma AndSingleBit(x: nat, n: nat)
    ensures And(x, Pow2(n)) == Pow2(n) * ((x / Pow2(n)) % 2)
  {
    AndBit(x, n);
    ShlIsMul(1, n);
    ShlIsMul(Shr(x, n) % 2, n);
    ShrLowAreDivMod(x, n);
  }

  lemma {:induction false} AndBit(x: nat, n: nat)
    ensures And(x, Shl(1, n)) == Shl(Shr(x, n) % 2, n)
  {
    if n > 0 {
      AndBit(x / 2, n - 1);
      assert Shl(1, n) / 2 == Shl(1, n - 1) && Shl(1, n) % 2 == 0;
    }
  }

  /** OR-ing a value below 2^n into a multiple of 2^n is addition. */
  lemma {:induction false} OrDisjoint(x: nat, y: nat, n: nat)
    requires x % Pow2(n) == 0 && y < Pow2(n)
    ensures Or(x, y) == x + y
    decreases n
  {
    if n > 0 && x > 0 && y > 0 {
      var p := Pow2(n - 1);
      DivModNested(x, 2, p);
      OrDisjoint(x / 2, y / 2, n - 1);
    }
  }

  /** `y << n` on unbounded values, one bit at a time. */
  function Shl(y: nat, n: nat): (r: nat)
  {
    if n == 0 then y else 2 * Shl(y, n - 1)
  }

  /** `x >> n` on unbounded values, one bit at a time. */
  function Shr(x: nat, n: nat): (r: nat)
  {
    if n == 0 then x else Shr(x / 2, n - 1)
  }

  /** The low n bits of x, one bit at a time. */
  function Low(x: nat, n: nat): (r: nat)
  {
    if n == 0 then 0 else 2 * Low(x / 2, n - 1) + x % 2
  }

  lemma {:induction false} ShlIsMul(y: nat, n: nat)
    ensures Shl(y, n) == y * Pow2(n)
  {
    if n > 0 {
      ShlIsMul(y, n - 1);
      assert y * Pow2(n) == 2 * (y * Pow2(n - 1));
    }
  }

  lemma {:induction false} ShrLowAreDivMod(x: nat, n: nat)
    ensures Shr(x, n) == x / Pow2(n) && Low(x, n) == x % Pow2(n)
  {
    if n == 0 {
      DivModUnique(x, 1, x, 0);
    } else {
      ShrLowAreDivMod(x / 2, n - 1);
      DivModNested(x, 2, Pow2(n - 1));
    }
  }

  /** An even second operand contributes no low bit: x | 2z == 2 * ((x >> 1) | z) + (x & 1). */
  lemma OrEven(x: nat, z: nat)
    ensures Or(x, 2 * z) == 2 * Or(x / 2, z) + x % 2
  {
    var w := 2 * z;
    assert w / 2 == z && w % 2 == 0;
    if x == 0 {
      assert Or(x / 2, z) == z;
    } else if z == 0 {
      assert Or(x / 2, z) == x / 2;
    } else {
      assert Or(x, w) == 2 * Or(x / 2, w / 2) + (if x % 2 == 1 || w % 2 == 1 then 1 else 0);
    }
  }

  lemma {:induction false} OrShiftedBits(x: nat, y: nat, n: nat)
    ensures Or(x, Shl(y, n)) == Low(x, n) + Shl(Or(Shr(x, n), y), n)
  {
    if n > 0 {
      OrShiftedBits(x / 2, y, n - 1);
      OrEven(x, Shl(y, n - 1));
    }
  }

  /** OR-ing an all-ones mask 2^m - 1 into a value below 2^m gives the mask. */
  lemma OrAllOnes(h: nat, m: nat)
    requires h < Pow2(m)
    ensures Or(h, Pow2(m) - 1) == Pow2(m) - 1
  {
    ShrLowAreDivMod(h, m);
    DivModUnique(h, Pow2(m), 0, h);
    OrOnes(h, m);
    OnesValue(m);
  }

  lemma {:induction false} OrOnes(h: nat, m: nat)
    requires Shr(h, m) == 0
    ensures Or(h, Ones(m)) == Ones(m)
  {
    if m > 0 && h > 0 {
      OrOnes(h / 2, m - 1);
      assert Ones(m) / 2 == Ones(m - 1) && Ones(m) % 2 == 1;
    }
  }

  /**
   * OR-ing `0xFFFF << 48` into a value below 2^56 keeps its low 48 bits and
   * sets bits 48 to 63.
   */
  lemma OrHigh16(w: nat)
    requires w < 0x100_0000_0000_0000
    ensures Or(w, 0xFFFF_0000_0000_0000) == w % 0x1_0000_0000_0000 + 0xFFFF_0000_0000_0000
  {
    Powers();
    OrShiftedBits(w, 0xFFFF, 48);
    ShlIsMul(0xFFFF, 48);
    ShrLowAreDivMod(w, 48);
    OrAllOnes(w / 0x1_0000_0000_0000, 16);
  }

  /** The `i64` range. */
  predicate InI64(x: int)
  {
    InSignedRange(x, 8)
  }

  /** The bits of an `i64`, as the `u64` they share with it. */
  function AsU64(x: int): (r: nat)
    ensures r < Pow256(8)
  {
    ToUnsigned(x, 8)
  }

  /** An `i64` from its bits. */
  function AsI64(u: nat): (r: int)
    requires u < Pow256(8)
    ensures InI64(r)
  {
    ToSigned(u, 8)
  }

  /** `x << s` on `i64`: bits shifted past bit 63 are lost. */
  function Shl64(x: int, s: nat): (r: int)
    ensures InI64(r)
  {
    AsI64((AsU64(x) * Pow2(s)) % Pow256(8))
  }

  /** `x >> 8` on `i64` is an arithmetic shift: the floor of x / 256. */
  function Sar8(x: int): (r: int)
    ensures InI64(x) ==> InI64(r)
  {
    x / 256
  }

  /** Named powers of two used by the 48-bit codec. */
  lemma Powers()
    ensures Pow2(8) == 256
    ensures Pow2(16) == 0x1_0000
    ensures Pow2(39) == 0x80_0000_0000
    ensures Pow2(40) == 0x100_0000_0000
    ensures Pow2(47) == 0x8000_0000_0000
    ensures Pow2(48) == 0x1_0000_0000_0000
    ensures Pow256(5) == 0x100_0000_0000
    ensures Pow256(6) == 0x1_0000_0000_0000
    ensures Pow256(7) == 0x100_0000_0000_0000
    ensures Pow256(8) == 0x1_0000_0000_0000_0000
  {
    Pow256IsPow2(5);
    Pow256IsPow2(6);
    assert Pow2(40) == 2 * Pow2(39);
    assert Pow2(48) == 2 * Pow2(47);
  }
}
