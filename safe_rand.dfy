/** `SafeRand`, the library's cryptographic generator, and its
    `next_bounded_u32`. The ChaCha20 generator behind it is not modelled: a
    `SafeRand` is the finite stream of 32-bit words it is going to produce,
    and running out of words stands for the generator's error. */
module SafeRandom {
  import opened Wrappers
  import opened Bits

  /** `RandomError`: the one error the random crate reports. */
  datatype RandomError = GenerationFailed

  /** Number of 32-bit words a fill of `n` bytes consumes: block generators
      hand out whole words and drop the unused tail bytes of the last one. */
  function WordsFor(n: nat): (r: nat)
    ensures 4 * r >= n && 4 * (r - 1) < n
  {
    (n + 3) / 4
  }

  /** Byte `k` of a word in little-endian order, `w.to_le_bytes()[k]`. */
  function LeByte(w: U32, k: nat): (r: Byte)
    requires k < 4
  {
    (w / Pow256(k)) % 256
  }

  /** The bytes a fill of `n` bytes writes: the little-endian bytes of the
      next words, cut to `n`. */
  function FillBytes(words: seq<U32>, n: nat): (r: seq<Byte>)
    requires WordsFor(n) <= |words|
    ensures |r| == n
  {
    seq(n, i requires 0 <= i < n => LeByte(words[i / 4], i % 4))
  }

  /** A shorter fill writes a prefix of what a longer one writes, so the
      bytes of a buffer do not depend on how long the buffer is. */
  lemma FillPrefix(words: seq<U32>, m: nat, n: nat)
    requires m <= n && WordsFor(n) <= |words|
    ensures WordsFor(m) <= |words|
    ensures FillBytes(words, m) == FillBytes(words, n)[..m]
  {
  }

  /** Rejection sampling over the stream, the loop both bounded samplers
      share: the residue modulo `cap` of the first word whose residue is at
      most `limit`, with the number of words consumed. `None` when no word of
      the stream is accepted (the generator would keep drawing). */
  function RejectionDraw(words: seq<U32>, cap: nat, limit: nat): (r: Option<(nat, nat)>)
    requires cap >= 1
    decreases |words|
    ensures r.Some? ==> 1 <= r.value.1 <= |words|
    ensures r.Some? ==> r.value.0 == words[r.value.1 - 1] % cap && r.value.0 <= limit
  {
    if |words| == 0 then None
    else if words[0] % cap <= limit then Some((words[0] % cap, 1))
    else
      match RejectionDraw(words[1..], cap, limit)
      case None => None
      case Some((v, k)) => Some((v, k + 1))
  }

  /** The word `RejectionDraw` accepts is the first acceptable one: every
      word before it, or every word of the stream when none is accepted, has
      a residue above `limit`. */
  lemma {:induction false} RejectionDrawIsFirst(words: seq<U32>, cap: nat, limit: nat)
    requires cap >= 1
    ensures RejectionDraw(words, cap, limit).Some? ==>
      forall j :: 0 <= j < RejectionDraw(words, cap, limit).value.1 - 1 ==> words[j] % cap > limit
    ensures RejectionDraw(words, cap, limit).None? ==>
      forall j :: 0 <= j < |words| ==> words[j] % cap > limit
  {
    if |words| > 0 && words[0] % cap > limit {
      RejectionDrawIsFirst(words[1..], cap, limit);
      forall j | 1 <= j < |words|
        ensures words[j] == words[1..][j - 1]
      {
      }
    }
  }

  /** `SafeRand::next_bounded_u32(max)` as written, on a stream: the value
      drawn and the number of words consumed. A power of two takes `next_u32()
      % max`; any other `max` is sampled by rejection against
      `max.next_power_of_two()`, accepting values up to AND INCLUDING `max`.
      Above 2^31 `next_power_of_two` overflows, so `max` is at most 2^31. */
  function ModuloBounded(words: seq<U32>, max: U32): (r: Option<(U32, nat)>)
    requires max <= 0x8000_0000
    ensures r.Some? ==> r.value.0 <= max && 1 <= r.value.1 <= |words|
    ensures r.Some? && IsPowerOfTwo(max) ==> r.value.0 < max && r.value.1 == 1
  {
    if IsPowerOfTwo(max) then
      if |words| == 0 then None else Some((words[0] % max, 1))
    else
      match RejectionDraw(words, NextPowerOfTwo(max), max)
      case None => None
      case Some((v, k)) => Some((v, k))
  }

  /** Bounded sampling with the exclusive bound the tests and the callers
      expect: a value in `0..max`. Only the rejection test differs from
      `ModuloBounded`: a draw equal to `max` is redrawn. */
  function ExclusiveBounded(words: seq<U32>, max: U32): (r: Option<(U32, nat)>)
    requires 1 <= max <= 0x8000_0000
    ensures r.Some? ==> r.value.0 < max && 1 <= r.value.1 <= |words|
  {
    if IsPowerOfTwo(max) then
      if |words| == 0 then None else Some((words[0] % max, 1))
    else
      match RejectionDraw(words, NextPowerOfTwo(max), max - 1)
      case None => None
      case Some((v, k)) => Some((v, k))
  }

  /** Both samplers fail only on an empty stream, or when `max` is not a
      power of two and every word of the stream is rejected. */
  lemma SamplersFailOnlyWhenAllRejected(words: seq<U32>, max: U32)
    requires 1 <= max <= 0x8000_0000
    ensures ModuloBounded(words, max).None? <==> (|words| == 0 ||
      (!IsPowerOfTwo(max) && forall j :: 0 <= j < |words| ==> words[j] % NextPowerOfTwo(max) > max))
    ensures ExclusiveBounded(words, max).None? <==> (|words| == 0 ||
      (!IsPowerOfTwo(max) && forall j :: 0 <= j < |words| ==> words[j] % NextPowerOfTwo(max) >= max))
  {
    var cap := NextPowerOfTwo(max);
    RejectionDrawIsFirst(words, cap, max);
    RejectionDrawIsFirst(words, cap, max - 1);
    if !IsPowerOfTwo(max) && |words| > 0 {
      if RejectionDraw(words, cap, max).Some? {
        var k := RejectionDraw(words, cap, max).value.1;
        assert words[k - 1] % cap <= max;
      }
      if RejectionDraw(words, cap, max - 1).Some? {
        var k := RejectionDraw(words, cap, max - 1).value.1;
        assert words[k - 1] % cap <= max - 1;
      }
    }
  }

  /** The two samplers agree on every draw the corrected one accepts at
      once, and they differ exactly when the draw is `max` itself. */
  lemma ExclusiveAgreesBelowMax(w: U32, max: U32)
    requires 1 <= max <= 0x8000_0000
    ensures ModuloBounded([w], max).Some? && ModuloBounded([w], max).value.0 < max
      <==> ExclusiveBounded([w], max).Some?
    ensures ExclusiveBounded([w], max).Some? ==> ExclusiveBounded([w], max) == ModuloBounded([w], max)
  {
  }

  /** As written, every value up to and including a non-power-of-two `max`
      is returned by some stream, `max` itself among them. */
  lemma {:induction false} ModuloBoundedReachesMax(v: U32, max: U32)
    requires max <= 0x8000_0000 && !IsPowerOfTwo(max) && v <= max
    ensures ModuloBounded([v], max) == Some((v, 1))
  {
    var cap := NextPowerOfTwo(max);
    assert v < cap;
    ModOfMultiple(v, cap, 0, v);
    assert RejectionDraw([v], cap, max) == Some((v, 1));
  }

  /** The test of the non-power-of-two case expects a value below 5 for
      `max = 5`; the stream `[5]` gives 5. */
  lemma InclusiveBoundExample()
    ensures ModuloBounded([5], 5) == Some((5, 1))
    ensures ModuloBounded([5], 5).value.0 >= 5
  {
    ModuloBoundedReachesMax(5, 5);
  }

  /** The corrected sampler returns every value below `max` for some stream,
      and never `max`. */
  lemma {:induction false} ExclusiveBoundedReachesAll(v: U32, max: U32)
    requires 1 <= max <= 0x8000_0000 && v < max
    ensures ExclusiveBounded([v], max) == Some((v, 1))
  {
    var cap := NextPowerOfTwo(max);
    if IsPowerOfTwo(max) {
      ModOfMultiple(v, max, 0, v);
    } else {
      ModOfMultiple(v, cap, 0, v);
      assert RejectionDraw([v], cap, max - 1) == Some((v, 1));
    }
  }

  /** `SafeRand`: the words the generator produces next. */
  class SafeRand {
    var words: seq<U32>

    /** A generator that will produce `stream`; seeding is not modelled. */
    constructor (stream: seq<U32>)
      ensures words == stream
    {
      words := stream;
    }

    /** `RngCore::next_u32`: the next word. */
    method NextU32() returns (w: U32)
      requires |words| > 0
      modifies this
      ensures w == old(words)[0] && words == old(words)[1..]
    {
      w := words[0];
      words := words[1..];
    }

    /** `Fill::try_fill` on a byte buffer. On success the buffer holds the
        little-endian bytes of the next `WordsFor(buf.Length)` words; an
        exhausted stream is the generator's error, after which neither the
        buffer nor the stream has changed. */
    method TryFill(buf: array<Byte>) returns (ok: bool)
      modifies this, buf
      ensures ok <==> WordsFor(buf.Length) <= |old(words)|
      ensures ok ==> buf[..] == FillBytes(old(words), buf.Length)
      ensures ok ==> words == old(words)[WordsFor(buf.Length)..]
      ensures !ok ==> buf[..] == old(buf[..]) && words == old(words)
    {
      var n := WordsFor(buf.Length);
      if |words| < n {
        return false;
      }
      var i := 0;
      while i < buf.Length
        invariant 0 <= i <= buf.Length
        invariant words == old(words)
        invariant buf[..i] == FillBytes(words, buf.Length)[..i]
      {
        buf[i] := LeByte(words[i / 4], i % 4);
        i := i + 1;
      }
      assert buf[..] == buf[..buf.Length];
      words := words[n..];
      ok := true;
    }

    /** The rejection loop: draw `next_u32() % cap` and redraw while the
        value exceeds `limit`. */
    method Reject(cap: nat, limit: nat) returns (value: nat)
      requires cap >= 1
      requires RejectionDraw(words, cap, limit).Some?
      modifies this
      ensures value == RejectionDraw(old(words), cap, limit).value.0
      ensures words == old(words)[RejectionDraw(old(words), cap, limit).value.1..]
    {
      ghost var start := words;
      ghost var k := RejectionDraw(words, cap, limit).value.1;
      RejectionDrawIsFirst(words, cap, limit);
      var w := NextU32();
      value := w % cap;
      ghost var consumed := 1;
      while value > limit
        invariant 1 <= consumed <= k
        invariant words == start[consumed..]
        invariant value == start[consumed - 1] % cap
        decreases k - consumed
      {
        w := NextU32();
        value := w % cap;
        consumed := consumed + 1;
      }
    }

    /** `SafeRand::next_bounded_u32(max)` as written. The stream must hold
        an accepted draw; the real generator never runs out. */
    method NextBoundedU32(max: U32) returns (value: U32)
      requires max <= 0x8000_0000
      requires ModuloBounded(words, max).Some?
      modifies this
      ensures value == ModuloBounded(old(words), max).value.0
      ensures words == old(words)[ModuloBounded(old(words), max).value.1..]
    {
      if IsPowerOfTwo(max) {
        var w := NextU32();
        value := w % max;
      } else {
        var cap := NextPowerOfTwo(max);
        var v := Reject(cap, max);
        value := v;
      }
    }

    /** The corrected sampler: the same loop, redrawing while the value is
        at least `max`. */
    method NextBelowU32(max: U32) returns (value: U32)
      requires 1 <= max <= 0x8000_0000
      requires ExclusiveBounded(words, max).Some?
      modifies this
      ensures value == ExclusiveBounded(old(words), max).value.0
      ensures words == old(words)[ExclusiveBounded(old(words), max).value.1..]
    {
      if IsPowerOfTwo(max) {
        var w := NextU32();
        value := w % max;
      } else {
        var cap := NextPowerOfTwo(max);
        var v := Reject(cap, max - 1);
        value := v;
      }
    }
  }
}
