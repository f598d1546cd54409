/** Bit-level helpers for the pattern-table codec: powers of two, single bits
    of a number, the fixed-width MSB-first binary expansion a decoder reads a
    byte through, and its inverse that packs a list of bits back into a number. */
module Bits {

  /** A byte of a CHR bank, as the value 0..255 that `ord` gives for it. */
  type byte = x: int | 0 <= x < 256

  /** The number of binary digits a byte is expanded to. */
  const ByteWidth: nat := 8

  function Pow2(n: nat): (p: nat)
    ensures p >= 1
  {
    if n == 0 then 1 else 2 * Pow2(n - 1)
  }

  /** Bit k of n, bit 0 being the least significant one. */
  function BitAt(n: nat, k: nat): (b: nat)
    ensures b < 2
    ensures k == 0 ==> b == n % 2
  {
    if k == 0 then n % 2 else BitAt(n / 2, k - 1)
  }

  /** Every entry is 0 or 1. */
  predicate IsBits(s: seq<int>)
  {
    forall i :: 0 <= i < |s| ==> s[i] == 0 || s[i] == 1
  }

  /** The binary expansion of n written with `width` digits, most significant
      digit first, as a list of 0/1 entries: what `'{0:08b}'` followed by
      `int` on each character yields when width is 8 and n is a byte. */
  function ToBinary(n: nat, width: nat): (bits: seq<int>)
    ensures |bits| == width && IsBits(bits)
    ensures forall j :: 0 <= j < width ==> bits[j] == BitAt(n, width - 1 - j)
  {
    if width == 0 then [] else ToBinary(n / 2, width - 1) + [n % 2]
  }

  /** The number whose binary digits, most significant first, are `bits`. */
  function PackBits(bits: seq<int>): (n: nat)
    requires IsBits(bits)
    ensures n < Pow2(|bits|)
  {
    if bits == [] then 0 else 2 * PackBits(bits[..|bits| - 1]) + bits[|bits| - 1]
  }

  /** Packing one more leading bit of a list doubles the packed value and adds that bit. */
  lemma PackBitsPrefix(bits: seq<int>, k: nat)
    requires IsBits(bits) && k < |bits|
    ensures PackBits(bits[..k + 1]) == 2 * PackBits(bits[..k]) + bits[k]
  {
    assert bits[..k + 1][..k] == bits[..k];
  }

  /** The weights of an MSB-first byte: the bit in column j counts 2^(7 - j). */
  lemma PackByteWeights(bits: seq<int>)
    requires |bits| == ByteWidth && IsBits(bits)
    ensures PackBits(bits) ==
              128 * bits[0] + 64 * bits[1] + 32 * bits[2] + 16 * bits[3] +
              8 * bits[4] + 4 * bits[5] + 2 * bits[6] + bits[7]
  {
    assert bits[..0] == [];
    PackBitsPrefix(bits, 0);
    PackBitsPrefix(bits, 1);
    PackBitsPrefix(bits, 2);
    PackBitsPrefix(bits, 3);
    PackBitsPrefix(bits, 4);
    PackBitsPrefix(bits, 5);
    PackBitsPrefix(bits, 6);
    PackBitsPrefix(bits, 7);
    assert bits[..ByteWidth] == bits;
  }

  /** Expanding a packed bit list gives the bit list back. */
  lemma {:induction false} ToBinaryOfPackBits(bits: seq<int>)
    requires IsBits(bits)
    ensures ToBinary(PackBits(bits), |bits|) == bits
  {
    if bits != [] {
      var init := bits[..|bits| - 1];
      ToBinaryOfPackBits(init);
      var n := PackBits(bits);
      assert n / 2 == PackBits(init) && n % 2 == bits[|bits| - 1];
      assert bits == init + [bits[|bits| - 1]];
    }
  }

  /** Packing the expansion of a number that fits in `width` bits gives the number back. */
  lemma {:induction false} PackBitsOfToBinary(n: nat, width: nat)
    requires n < Pow2(width)
    ensures PackBits(ToBinary(n, width)) == n
  {
    if width > 0 {
      PackBitsOfToBinary(n / 2, width - 1);
      var bits := ToBinary(n, width);
      assert bits[..width - 1] == ToBinary(n / 2, width - 1);
    }
  }
}
