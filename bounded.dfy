/** The free `next_bounded_u32` behind the `BoundedRng` trait. It differs
    from `SafeRand::next_bounded_u32` only in masking a power-of-two draw with
    `max - 1` where the method reduces it modulo `max`. */
module Bounded {
  import opened Wrappers
  import opened Bits
  import opened Layers
  import opened SafeRandom

  /** `next_bounded_u32(rng, max)` on a stream: the value drawn and the
      number of words consumed. A power of two keeps the low bits of one draw,
      `next_u32() & (max - 1)`; any other `max` is sampled by rejection,
      inclusive of `max`. `max` is at most 2^31, where `next_power_of_two`
      still fits. */
  function MaskedBounded(words: seq<U32>, max: U32): (r: Option<(U32, nat)>)
    requires max <= 0x8000_0000
    ensures r.Some? ==> r.value.0 <= max && 1 <= r.value.1 <= |words|
    ensures r.Some? && IsPowerOfTwo(max) ==> r.value.0 < max && r.value.1 == 1
  {
    if IsPowerOfTwo(max) then
      if |words| == 0 then None else Some((BitAnd(words[0], max - 1), 1))
    else
      match RejectionDraw(words, NextPowerOfTwo(max), max)
      case None => None
      case Some((v, k)) => Some((v, k))
  }

  /** Masking and reduction agree: both samplers return the same value from
      every stream and consume the same words. */
  lemma MaskedAgreesWithModulo(words: seq<U32>, max: U32)
    requires max <= 0x8000_0000
    ensures MaskedBounded(words, max) == ModuloBounded(words, max)
  {
    if IsPowerOfTwo(max) && |words| > 0 {
      var k := Log2(max);
      AndMaskIsMod(words[0], k);
    }
  }

  /** `max = 0` is not a power of two, so `cap` is 1 and the first draw
      gives 0. */
  lemma ZeroBoundGivesZero(w: U32, rest: seq<U32>)
    ensures MaskedBounded([w] + rest, 0) == Some((0, 1))
  {
  }

  /** The tests' non-power-of-two vectors, from a generator that repeats
      one word: 8 is accepted as drawn, 25 reduces to 9. */
  lemma RejectionTestVectors()
    ensures MaskedBounded([8], 10) == Some((8, 1))
    ensures MaskedBounded([25], 10) == Some((9, 1))
  {
    assert !IsPowerOfTwo(10) by { assert !IsPowerOfTwo(5); }
    assert NextPowerOfTwo(10) == 16;
    ModOfMultiple(8, 16, 0, 8);
    ModOfMultiple(25, 16, 1, 9);
    assert RejectionDraw([8], 16, 10) == Some((8, 1));
    assert RejectionDraw([25], 16, 10) == Some((9, 1));
  }

  /** The tests' power-of-two vectors: the mask keeps 10 and reduces 40
      to 8. */
  lemma MaskTestVectors()
    ensures MaskedBounded([10], 32) == Some((10, 1))
    ensures MaskedBounded([40], 32) == Some((8, 1))
  {
    assert IsPowerOfTwo(32);
    assert BitAnd(10, 31) == 10;
    assert BitAnd(40, 31) == 8;
  }

  /** `next_bounded_u32(rng, max)` for any generator, here a `SafeRand`. */
  method NextBoundedU32(rng: SafeRand, max: U32) returns (value: U32)
    requires max <= 0x8000_0000
    requires MaskedBounded(rng.words, max).Some?
    modifies rng
    ensures value == MaskedBounded(old(rng.words), max).value.0
    ensures rng.words == old(rng.words)[MaskedBounded(old(rng.words), max).value.1..]
  {
    if IsPowerOfTwo(max) {
      var w := rng.NextU32();
      value := BitAnd(w, max - 1);
    } else {
      var cap := NextPowerOfTwo(max);
      var v := rng.Reject(cap, max);
      value := v;
    }
  }

  /** `BoundedRng<u32>::next_bounded`. */
  method NextBounded(rng: SafeRand, max: U32) returns (value: U32)
    requires max <= 0x8000_0000
    requires MaskedBounded(rng.words, max).Some?
    modifies rng
    ensures value == MaskedBounded(old(rng.words), max).value.0
    ensures rng.words == old(rng.words)[MaskedBounded(old(rng.words), max).value.1..]
  {
    value := NextBoundedU32(rng, max);
  }

  /** `BoundedRng<Protected<u32>>::next_bounded`: the bound is mapped, so the
      sample comes back inside `Protected`. */
  method NextBoundedProtected(rng: SafeRand, max: Controlled<U32>) returns (r: Controlled<U32>)
    requires max.Protected? && max.raw <= 0x8000_0000
    requires MaskedBounded(rng.words, max.raw).Some?
    modifies rng
    ensures r == Protected(MaskedBounded(old(rng.words), max.raw).value.0)
    ensures rng.words == old(rng.words)[MaskedBounded(old(rng.words), max.raw).value.1..]
  {
    var value := NextBoundedU32(rng, RiskyUnwrap(max));
    r := InitFromInner(Shape(max), value);
  }
}
