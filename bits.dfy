/** Bit-level arithmetic on natural numbers.

    The codec shifts, masks and ORs small unsigned integers. Those operations
    are written here as arithmetic on `nat` (`x >> i` is `x / Pow2(i)`, bit i
    is `Bit(x, i)`, `x | (1 << j)` is `SetBit(x, j)`), with the facts about
    individual bits that the encoder and the decoder need. */
module Bits {

  /** 2 to the power n, that is `1 << n`. */
  function Pow2(n: nat): (r: nat)
    ensures r >= 1
  {
    if n == 0 then 1 else 2 * Pow2(n - 1)
  }

  /** Bit i of x, that is `(x >> i) & 1`. */
  function Bit(x: nat, i: nat): (r: nat)
    ensures r < 2
  {
    if i == 0 then x % 2 else Bit(x / 2, i - 1)
  }

  /** The k low bits of x, that is `x & ((1 << k) - 1)`. */
  function LowBits(x: nat, k: nat): nat
  {
    if k == 0 then 0 else x % 2 + 2 * LowBits(x / 2, k - 1)
  }

  /** `x | (1 << j)`. */
  function SetBit(x: nat, j: nat): nat
  {
    if Bit(x, j) == 1 then x else x + Pow2(j)
  }

  lemma Pow2Values()
    ensures Pow2(8) == 256 && Pow2(9) == 512 && Pow2(10) == 1024 && Pow2(16) == 0x10000
  {
  }

  lemma {:induction false} LowBitsBound(x: nat, k: nat)
    ensures LowBits(x, k) < Pow2(k)
  {
    if k > 0 {
      LowBitsBound(x / 2, k - 1);
    }
  }

  /** A number that fits in k bits is its own k low bits. */
  lemma {:induction false} LowBitsOfSmall(x: nat, k: nat)
    requires x < Pow2(k)
    ensures LowBits(x, k) == x
  {
    if k > 0 {
      LowBitsOfSmall(x / 2, k - 1);
    }
  }

  /** Taking one more low bit adds bit k at weight 2^k. */
  lemma {:induction false} LowBitsStep(x: nat, k: nat)
    ensures LowBits(x, k + 1) == LowBits(x, k) + Bit(x, k) * Pow2(k)
  {
    if k > 0 {
      LowBitsStep(x / 2, k - 1);
      assert Bit(x, k) * Pow2(k) == 2 * (Bit(x / 2, k - 1) * Pow2(k - 1));
    }
  }

  /** Bit k of a number below 2^k is clear. */
  lemma {:induction false} BitOfSmall(y: nat, k: nat)
    requires y < Pow2(k)
    ensures Bit(y, k) == 0
  {
    if k > 0 {
      BitOfSmall(y / 2, k - 1);
    }
  }

  /** Adding a multiple of 2^k leaves the bits below k unchanged. */
  lemma {:induction false} BitAddHigh(x: nat, m: nat, k: nat, i: nat)
    requires i < k
    ensures Bit(x + Pow2(k) * m, i) == Bit(x, i)
  {
    assert Pow2(k) * m == 2 * (Pow2(k - 1) * m);
    if i > 0 {
      assert (x + Pow2(k) * m) / 2 == x / 2 + Pow2(k - 1) * m;
      BitAddHigh(x / 2, m, k - 1, i - 1);
    }
  }

  /** Reducing modulo 256 keeps the 8 low bits, that is `x & 0xFF`. */
  lemma BitMod256(x: nat, i: nat)
    requires i < 8
    ensures Bit(x % 0x100, i) == Bit(x, i)
  {
    Pow2Values();
    var m := x / 0x100;
    assert x == x % 0x100 + Pow2(8) * m;
    BitAddHigh(x % 0x100, m, 8, i);
  }

  /** Adding 2^j to a number whose bit j is clear sets bit j and nothing else. */
  lemma {:induction false} BitAddClear(x: nat, j: nat, i: nat)
    requires Bit(x, j) == 0
    ensures Bit(x + Pow2(j), i) == (if i == j then 1 else Bit(x, i))
  {
    if j == 0 {
      if i > 0 {
        assert (x + 1) / 2 == x / 2;
      }
    } else if i > 0 {
      assert (x + Pow2(j)) / 2 == x / 2 + Pow2(j - 1);
      BitAddClear(x / 2, j - 1, i - 1);
    }
  }

  /** `x | (1 << j)` sets bit j and keeps every other bit. */
  lemma SetBitBits(x: nat, j: nat, i: nat)
    ensures Bit(SetBit(x, j), i) == (if i == j then 1 else Bit(x, i))
  {
    if Bit(x, j) == 0 {
      BitAddClear(x, j, i);
    }
  }

  /** Setting a bit below m keeps a number below 2^m. */
  lemma {:induction false} SetBitBound(x: nat, j: nat, m: nat)
    requires x < Pow2(m) && j < m
    ensures SetBit(x, j) < Pow2(m)
  {
    if Bit(x, j) == 0 {
      if j > 0 {
        SetBitBound(x / 2, j - 1, m - 1);
        assert Bit(x / 2, j - 1) == 0;
        assert SetBit(x / 2, j - 1) == x / 2 + Pow2(j - 1);
      }
    }
  }

  /** Bit k of 2^k plus a number below 2^k is set. */
  lemma BitOfTop(y: nat, k: nat)
    requires y < Pow2(k)
    ensures Bit(y + Pow2(k), k) == 1
  {
    BitOfSmall(y, k);
    BitAddClear(y, k, k);
  }
}
