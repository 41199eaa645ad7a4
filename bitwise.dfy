/** Bitwise permutation of a protected nonzero integer: its big-endian
    bytes are read as bits, most significant first (`Msb0`), output bit `i`
    is input bit `key[i]`, and the bits are read back as an integer of the
    same width. Widths 8, 16, 32, 64 and 128 use keys of that many entries
    and 1, 2, 4, 8 and 16 bytes. */
module Bitwise {
  import opened Bits
  import opened Layers
  import opened Permutations
  import opened Elementwise
  import BitIndex

  /** The widths the library implements the trait for, `u8` to `u128`. */
  predicate IsBitWidth(n: nat)
  {
    n == 8 || n == 16 || n == 32 || n == 64 || n == 128
  }

  /** The `Msb0` bits of `x` stored big-endian in `n` bytes. */
  function BeBits(x: nat, n: nat): (r: seq<bool>)
    ensures |r| == 8 * n
  {
    BytesToBits(ToBeBytes(x, n))
  }

  /** What the bitwise `permute` computes for the integer `x`, for a key
      whose length is a whole number of bytes. */
  function BitPermuted(key: seq<Byte>, x: nat): (r: nat)
    requires |key| % 8 == 0 && IndicesBelow(key, |key|)
    ensures r < Pow256(|key| / 8)
  {
    var bits := BeBits(x, |key| / 8);
    FromBeBytes(BitsToBytes(Permuted(key, bits)))
  }

  /** Output bit `i` is input bit `key[i]`. */
  lemma BitPermutedBits(key: seq<Byte>, x: nat)
    requires |key| % 8 == 0 && IndicesBelow(key, |key|)
    ensures BeBits(BitPermuted(key, x), |key| / 8) == Permuted(key, BeBits(x, |key| / 8))
  {
    var out := Permuted(key, BeBits(x, |key| / 8));
    var bytes := BitsToBytes(out);
    BeBytesOfValue(bytes);
    BitsBytesRoundTrip(out);
  }

  /** A permutation key moves a set bit somewhere: it loses none. */
  lemma PermutedKeepsSetBit(key: seq<Byte>, bits: seq<bool>)
    requires IsPermutation(key) && |bits| == |key| && AnyBitSet(bits)
    ensures IndicesBelow(key, |bits|)
    ensures AnyBitSet(Permuted(key, bits))
  {
    PermutationBounded(key);
    var j :| 0 <= j < |bits| && bits[j];
    PermutationCovers(key, j);
    var i :| 0 <= i < |key| && key[i] == j;
    assert Permuted(key, bits)[i];
  }

  /** So a nonzero input gives a nonzero output under a permutation key:
      this is what `new_unchecked` relies on. */
  lemma BitPermutedNonZero(key: seq<Byte>, x: nat)
    requires |key| % 8 == 0 && IsPermutation(key)
    requires 0 < x < Pow256(|key| / 8)
    ensures IndicesBelow(key, |key|)
    ensures BitPermuted(key, x) != 0
  {
    PermutationBounded(key);
    var n := |key| / 8;
    var bytes := ToBeBytes(x, n);
    BeBytesRoundTrip(x, n);
    BeBytesZero(bytes);
    BytesToBitsKeepsNonzero(bytes);
    var bits := BytesToBits(bytes);
    PermutedKeepsSetBit(key, bits);
    var out := Permuted(key, bits);
    BitsToBytesKeepsNonzero(out);
    BeBytesZero(BitsToBytes(out));
  }

  /** A bit string with no bit set reads as 0. */
  lemma NoBitSetReadsZero(out: seq<bool>)
    requires |out| % 8 == 0 && !AnyBitSet(out)
    ensures FromBeBytes(BitsToBytes(out)) == 0
  {
    var bytes := BitsToBytes(out);
    BeBytesZero(bytes);
    BitsBytesRoundTrip(out);
    BytesToBitsKeepsNonzero(bytes);
  }

  /** `0x80` in one byte has only its first `Msb0` bit set; bit 7 is clear. */
  lemma TopBitOnly()
    ensures !BeBits(0x80, 1)[7]
  {
    assert ToBeBytes(0x80, 1) == [0x80];
    assert BytesToBits([0x80]) == NatToBits(0x80, 8) by {
      assert [0x80][..0] == [];
    }
  }

  /** Without a permutation key the output can be zero: a key that reads
      bit 7 eight times sends `0x80` to 0, which `new_unchecked` must not
      receive. */
  lemma RepeatedKeyCanZero(key: seq<Byte>, x: nat)
    requires |key| == 8 && (forall i :: 0 <= i < 8 ==> key[i] == 7) && x == 0x80
    ensures IndicesBelow(key, 8)
    ensures !IsPermutation(key)
    ensures BitPermuted(key, x) == 0
  {
    RepeatedEntryNotPermutation(key, 0, 1);
    TopBitOnly();
    ReadingClearBitReadsZero(key, x, 7);
  }

  /** A key with the same entry at two positions is not a permutation. */
  lemma RepeatedEntryNotPermutation(key: seq<Byte>, i: nat, j: nat)
    requires i < |key| && j < |key| && i != j && key[i] == key[j]
    ensures !IsPermutation(key)
  {
    if IsPermutation(key) {
      PermutationDistinct(key, i, j);
    }
  }

  /** A one-byte key whose every entry reads the same clear input bit sends
      the input to 0. */
  lemma ReadingClearBitReadsZero(key: seq<Byte>, x: nat, b: Byte)
    requires |key| == 8 && b < 8 && !BeBits(x, 1)[b]
    requires forall i :: 0 <= i < 8 ==> key[i] == b
    ensures IndicesBelow(key, |key|)
    ensures BitPermuted(key, x) == 0
  {
    var bits := BeBits(x, 1);
    var out := Permuted(key, bits);
    assert !AnyBitSet(out) by {
      forall i | 0 <= i < |out|
        ensures !out[i]
      {
        assert out[i] == bits[key[i]];
      }
    }
    NoBitSetReadsZero(out);
  }

  /** `BitwisePermutableBy::permute` for `Protected<NonZeroU…>`: the fold
      sets output bit `i` from the input bit at `key[i]`, read with
      `get_unchecked`; the result is passed to `new_unchecked`, which needs
      the key to be a permutation. */
  method BitwisePermute(input: Controlled<nat>, key: PermutationKey) returns (r: Controlled<nat>)
    requires input.Protected? && key.entries.Protected?
    requires IsBitWidth(|Inner(key.entries)|) && IsPermutation(Inner(key.entries))
    requires 0 < Inner(input) < Pow256(|Inner(key.entries)| / 8)
    ensures IndicesBelow(Inner(key.entries), |Inner(key.entries)|)
    ensures r == Protected(BitPermuted(Inner(key.entries), Inner(input)))
    ensures 0 < r.raw < Pow256(|Inner(key.entries)| / 8)
  {
    var k := Inner(key.entries);
    PermutationBounded(k);
    var width := |k|;
    assert width % 8 == 0;
    var arr := BytesToBits(ToBeBytes(RiskyUnwrap(input), width / 8));
    var ks := KeyIter(key);
    var out := new bool[width](_ => false);
    var i := 0;
    while i < width
      invariant 0 <= i <= width
      invariant forall m :: 0 <= m < i ==> out[m] == arr[k[m]]
    {
      var index: Controlled<nat> := Protected(RiskyUnwrap(ks[i]));
      out[i] := BitIndex.Read(arr, BitIndex.GetUnchecked(index));
      i := i + 1;
    }
    assert out[..] == Permuted(k, arr);
    var mapped := FromBeBytes(BitsToBytes(out[..]));
    BitPermutedNonZero(k, RiskyUnwrap(input));
    r := Protected(mapped);
  }

  /** `BitwisePermutation`: a borrowed key. */
  datatype BitwisePermutation = BitwisePermutation(key: PermutationKey)

  /** `BitwisePermutation::permute` delegates to the input's `permute`. */
  method PermuteWith(p: BitwisePermutation, input: Controlled<nat>) returns (r: Controlled<nat>)
    requires input.Protected? && p.key.entries.Protected?
    requires IsBitWidth(|Inner(p.key.entries)|) && IsPermutation(Inner(p.key.entries))
    requires 0 < Inner(input) < Pow256(|Inner(p.key.entries)| / 8)
    ensures IndicesBelow(Inner(p.key.entries), |Inner(p.key.entries)|)
    ensures r == Protected(BitPermuted(Inner(p.key.entries), Inner(input)))
  {
    r := BitwisePermute(input, p.key);
  }
}
