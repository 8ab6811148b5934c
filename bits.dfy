/**
 * Python's bitwise `&` and `^` on non-negative integers, defined bit by bit
 * from the least significant end, and the bit-test they are used for.
 */
module Bits {
  import opened Common

  /** Bit k of x, counting from the least significant bit. */
  predicate Bit(x: nat, k: nat)
  {
    if k == 0 then x % 2 == 1 else Bit(x / 2, k - 1)
  }

  /** Python's `x & y`. */
  function BitAnd(x: nat, y: nat): nat
    decreases x
  {
    if x == 0 || y == 0 then 0
    else 2 * BitAnd(x / 2, y / 2) + (if x % 2 == 1 && y % 2 == 1 then 1 else 0)
  }

  /** Python's `x ^ y`. */
  function Xor(x: nat, y: nat): nat
    decreases x + y
  {
    if x == 0 then y
    else if y == 0 then x
    else 2 * Xor(x / 2, y / 2) + (if x % 2 == y % 2 then 0 else 1)
  }

  lemma {:induction false} BitOfZero(k: nat)
    ensures !Bit(0, k)
  {
    if k > 0 {
      BitOfZero(k - 1);
    }
  }

  /** `x & (1 << k)` is `1 << k` when bit k of x is set, and 0 otherwise. */
  lemma {:induction false} BitAndPow2(x: nat, k: nat)
    ensures BitAnd(x, Pow2(k)) == if Bit(x, k) then Pow2(k) else 0
  {
    if x == 0 {
      BitOfZero(k);
    } else if k > 0 {
      assert Pow2(k) / 2 == Pow2(k - 1) && Pow2(k) % 2 == 0;
      BitAndPow2(x / 2, k - 1);
    }
  }

  /** `x & 3` keeps the two low bits of x. */
  lemma LowTwoBits(x: nat)
    ensures BitAnd(x, 3) == x % 4
  {
    if x > 0 {
      assert BitAnd(x / 2, 1) == (x / 2) % 2 by {
        if x / 2 > 0 {
          assert BitAnd(x / 4, 0) == 0;
        }
      }
    }
  }

  lemma MulPow2Step(j: nat, hi: nat)
    requires j > 0
    ensures Pow2(j) * hi == 2 * (Pow2(j - 1) * hi)
  {
  }

  /**
   * Bit k of `lo + 2^j * hi`, where lo has only j bits, is bit k of lo below
   * position j and bit k - j of hi from there on.
   */
  lemma {:induction false} BitSplit(lo: nat, hi: nat, j: nat, k: nat)
    requires lo < Pow2(j)
    ensures Bit(lo + Pow2(j) * hi, k) == if k < j then Bit(lo, k) else Bit(hi, k - j)
  {
    if j == 0 {
      assert lo == 0 && Pow2(j) * hi == hi;
    } else {
      MulPow2Step(j, hi);
      var t := Pow2(j - 1) * hi;
      assert (lo + 2 * t) % 2 == lo % 2;
      assert (lo + 2 * t) / 2 == lo / 2 + t;
      if k > 0 {
        BitSplit(lo / 2, hi, j - 1, k - 1);
      }
    }
  }

  /** The low bit and the upper bits of `x ^ y`. */
  lemma XorHalves(x: nat, y: nat)
    ensures Xor(x, y) % 2 == (if x % 2 == y % 2 then 0 else 1)
    ensures Xor(x, y) / 2 == Xor(x / 2, y / 2)
  {
    if x == 0 {
      assert x / 2 == 0 && Xor(x / 2, y / 2) == y / 2;
    } else if y == 0 {
      assert y / 2 == 0 && Xor(x / 2, y / 2) == x / 2;
    } else {
      var h, c := Xor(x / 2, y / 2), if x % 2 == y % 2 then 0 else 1;
      assert Xor(x, y) == 2 * h + c;
      assert (2 * h + c) % 2 == c && (2 * h + c) / 2 == h;
    }
  }

  lemma HalvesDetermine(x: nat, y: nat)
    requires x % 2 == y % 2 && x / 2 == y / 2
    ensures x == y
  {
  }

  lemma {:induction false} XorCommutes(x: nat, y: nat)
    ensures Xor(x, y) == Xor(y, x)
    decreases x + y
  {
    if x != 0 && y != 0 {
      XorCommutes(x / 2, y / 2);
    }
  }

  lemma {:induction false} XorAssociates(x: nat, y: nat, z: nat)
    ensures Xor(Xor(x, y), z) == Xor(x, Xor(y, z))
    decreases x + y + z
  {
    if x + y + z > 0 {
      XorHalves(Xor(x, y), z);
      XorHalves(x, y);
      XorHalves(x, Xor(y, z));
      XorHalves(y, z);
      XorAssociates(x / 2, y / 2, z / 2);
      HalvesDetermine(Xor(Xor(x, y), z), Xor(x, Xor(y, z)));
    }
  }

  lemma {:induction false} XorSelf(x: nat)
    ensures Xor(x, x) == 0
  {
    if x > 0 {
      XorSelf(x / 2);
    }
  }

  /** XOR with a non-zero value always changes its operand. */
  lemma {:induction false} XorChanges(x: nat, d: nat)
    requires d != 0
    ensures Xor(x, d) != x
  {
    XorHalves(x, d);
    if d % 2 == 0 {
      XorChanges(x / 2, d / 2);
    }
  }

  /** XOR of two j-bit values is a j-bit value; in particular XOR of bytes is a byte. */
  lemma {:induction false} XorBound(x: nat, y: nat, j: nat)
    requires x < Pow2(j) && y < Pow2(j)
    ensures Xor(x, y) < Pow2(j)
  {
    if x != 0 && y != 0 {
      XorBound(x / 2, y / 2, j - 1);
    }
  }

  /** XOR of two bytes. */
  function XorByte(a: Byte, b: Byte): (r: Byte)
    ensures r == Xor(a, b)
  {
    assert Pow2(8) == 256;
    XorBound(a, b, 8);
    Xor(a, b)
  }
}
