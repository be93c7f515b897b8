/**
 Unsigned 8-bit channel values as numpy's `uint8` holds them, and the two
 bitwise operations the classifier applies to them: `&` (a recursive
 bit-by-bit AND on naturals) and `~` (which on `uint8` is 255 - v).
 */
module Bytes {

  /** One `uint8` channel value. */
  type Byte = b: int | 0 <= b < 256

  function Pow2(n: nat): (p: nat)
    ensures p >= 1
  {
    if n == 0 then 1 else 2 * Pow2(n - 1)
  }

  /** Bitwise AND of two naturals, least significant bit first. */
  function BitAnd(a: nat, b: nat): (r: nat)
    ensures r <= a && r <= b
    decreases a
  {
    if a == 0 || b == 0 then 0
    else 2 * BitAnd(a / 2, b / 2) + (a % 2) * (b % 2)
  }

  /** Bit k of x, counting from the least significant bit. */
  function Bit(x: nat, k: nat): (b: nat)
    ensures b < 2
  {
    if k == 0 then x % 2 else Bit(x / 2, k - 1)
  }

  /** Zero has no bit set. */
  lemma {:induction false} ZeroBits(k: nat)
    ensures Bit(0, k) == 0
  {
    if k > 0 {
      ZeroBits(k - 1);
    }
  }

  /** BitAnd is the bitwise AND: bit k of `a & b` is set exactly when bit k is set in both. */
  lemma {:induction false} BitAndBit(a: nat, b: nat, k: nat)
    ensures Bit(BitAnd(a, b), k) == Bit(a, k) * Bit(b, k)
    decreases k
  {
    if a == 0 || b == 0 {
      ZeroBits(k);
    } else {
      var r := BitAnd(a, b);
      assert r == 2 * BitAnd(a / 2, b / 2) + (a % 2) * (b % 2);
      assert r % 2 == (a % 2) * (b % 2) && r / 2 == BitAnd(a / 2, b / 2);
      if k > 0 {
        BitAndBit(a / 2, b / 2, k - 1);
      }
    }
  }

  /** numpy's `v & m` on two `uint8` values. */
  function And(v: Byte, m: Byte): (r: Byte)
    ensures r <= v && r <= m
  {
    BitAnd(v, m)
  }

  /** numpy's `~v` on a `uint8` value: every one of the eight bits flipped. */
  function Complement(v: Byte): (r: Byte)
    ensures r + v == 255
  {
    255 - v
  }

  /** The n-bit complement of v flips every one of v's n bits. */
  lemma {:induction false} ComplementBitN(v: nat, n: nat, k: nat)
    requires v < Pow2(n) && k < n
    ensures Bit(Pow2(n) - 1 - v, k) == 1 - Bit(v, k)
    decreases k
  {
    var c := Pow2(n) - 1 - v;
    var half := Pow2(n - 1);
    assert Pow2(n) == 2 * half;
    var q := v / 2;
    if v % 2 == 0 {
      assert c == 2 * (half - 1 - q) + 1;
    } else {
      assert c == 2 * (half - 1 - q);
    }
    assert c % 2 == 1 - v % 2 && c / 2 == half - 1 - q;
    if k > 0 {
      ComplementBitN(q, n - 1, k - 1);
    }
  }

  /** `~v` on a byte flips each of its eight bits. */
  lemma ComplementBit(v: Byte, k: nat)
    requires k < 8
    ensures Bit(Complement(v), k) == 1 - Bit(v, k)
  {
    assert Pow2(8) == 256;
    ComplementBitN(v, 8, k);
  }

  /** Peels the lowest bit off a BitAnd, whether or not an operand is zero. */
  lemma BitAndStep(a: nat, b: nat)
    ensures a % 2 == 0 ==> BitAnd(a, b) == 2 * BitAnd(a / 2, b / 2)
    ensures a % 2 == 1 ==> BitAnd(a, b) == 2 * BitAnd(a / 2, b / 2) + b % 2
  {
  }

  /**
   The bits of `v` and of its n-bit complement split every mask `m` into two
   disjoint parts, so the two ANDs add up to `m` exactly.
   */
  lemma {:induction false} AndComplementSum(v: nat, m: nat, n: nat)
    requires v < Pow2(n) && m < Pow2(n)
    ensures BitAnd(v, m) + BitAnd(Pow2(n) - 1 - v, m) == m
  {
    if n > 0 {
      var c := Pow2(n) - 1 - v;
      var half := Pow2(n - 1);
      assert Pow2(n) == 2 * half;
      var q := v / 2;
      AndComplementSum(q, m / 2, n - 1);
      BitAndStep(v, m);
      BitAndStep(c, m);
      if v % 2 == 0 {
        assert c == 2 * (half - 1 - q) + 1;
        assert c % 2 == 1 && c / 2 == half - 1 - q;
      } else {
        assert c == 2 * (half - 1 - q);
        assert c % 2 == 0 && c / 2 == half - 1 - q;
      }
      assert m == 2 * (m / 2) + m % 2;
    }
  }

  /** The byte form: `(v & m) + (~v & m) == m`. */
  lemma ByteAndComplementSum(v: Byte, m: Byte)
    ensures And(v, m) + And(Complement(v), m) == m
  {
    assert Pow2(8) == 256;
    AndComplementSum(v, m, 8);
  }

  /** A full mask keeps a byte as it is: `v & 255 == v`. */
  lemma AndFull(v: Byte)
    ensures And(v, 255) == v
  {
    ByteAndComplementSum(v, 255);
  }

  /** A byte ANDed into a full byte is that byte: `255 & m == m`. */
  lemma FullAnd(m: Byte)
    ensures And(255, m) == m
  {
    ByteAndComplementSum(0, m);
  }

  /** A channel can pass a strict threshold of 160 under mask `m` through
      `v` or through `~v`, never through both. */
  lemma NeverBothAbove160(v: Byte, m: Byte)
    ensures !(And(v, m) > 160 && And(Complement(v), m) > 160)
  {
    ByteAndComplementSum(v, m);
  }
}
