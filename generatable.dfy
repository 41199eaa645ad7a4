/** The `Generatable` impls of the random crate: `NonZeroU16` by rejection
    of zero, byte arrays, and `Protected` byte arrays and integers built with
    `generate_ok`. Every impl fills a zeroed buffer from the generator and
    reads integers big-endian. */
module Generatable {
  import opened Wrappers
  import opened Bits
  import opened Layers
  import opened SafeRandom
  import Combinators

  /** A fill of at most four bytes writes only bytes of the next word. */
  lemma FillFromFirstWord(words: seq<U32>, n: nat)
    requires 1 <= n <= 4 && |words| >= 1
    ensures WordsFor(n) == 1
    ensures FillBytes(words, n) == FillBytes([words[0]], n)
  {
    assert forall i :: 0 <= i < n ==> i / 4 == 0;
  }

  /** The `u16` a two-byte fill reads big-endian from a word: its low byte
      becomes the high byte. */
  function U16Draw(w: U32): (r: U16)
    ensures r == (w % 256) * 256 + (w / 256) % 256
  {
    FromBeBytes2(FillBytes([w], 2))
  }

  /** The `u32` a four-byte fill reads big-endian from a word. */
  function U32Draw(w: U32): U32
  {
    FromBeBytes4(FillBytes([w], 4))
  }

  /** A word is the little-endian sum of its bytes. */
  lemma LeBytesRecompose(w: U32)
    ensures w == LeByte(w, 0) + 256 * (LeByte(w, 1) + 256 * (LeByte(w, 2) + 256 * LeByte(w, 3)))
  {
    assert Pow256(1) == 256 && Pow256(2) == 0x1_0000 && Pow256(3) == 0x100_0000;
    var q1 := w / 256;
    var q2 := q1 / 256;
    var q3 := q2 / 256;
    assert w / 0x1_0000 == q2;
    assert w / 0x100_0000 == q3;
    assert q3 < 256;
  }

  /** Four base-256 digits are determined by the number they spell. */
  lemma DigitsUnique(a: seq<Byte>, c: seq<Byte>)
    requires |a| == 4 && |c| == 4
    requires FromBeBytes4(a) == FromBeBytes4(c)
    ensures a == c
  {
    var a0: int, a1: int, a2: int, a3: int := a[0], a[1], a[2], a[3];
    var c0: int, c1: int, c2: int, c3: int := c[0], c[1], c[2], c[3];
    var x := ((a0 * 256 + a1) * 256 + a2) * 256 + a3;
    ModOfMultiple(x, 256, (a0 * 256 + a1) * 256 + a2, a3);
    ModOfMultiple(x, 256, (c0 * 256 + c1) * 256 + c2, c3);
    var y := (a0 * 256 + a1) * 256 + a2;
    ModOfMultiple(y, 256, a0 * 256 + a1, a2);
    ModOfMultiple(y, 256, c0 * 256 + c1, c2);
    var z := a0 * 256 + a1;
    ModOfMultiple(z, 256, a0, a1);
    ModOfMultiple(z, 256, c0, c1);
  }

  /** Reading the little-endian bytes of a word big-endian loses nothing:
      distinct words give distinct `u32` values, so a uniform word gives a
      uniform value. */
  lemma U32DrawInjective(w1: U32, w2: U32)
    requires U32Draw(w1) == U32Draw(w2)
    ensures w1 == w2
  {
    var b1 := FillBytes([w1], 4);
    var b2 := FillBytes([w2], 4);
    DigitsUnique(b1, b2);
    assert LeByte(w1, 0) == b1[0] && LeByte(w1, 1) == b1[1] && LeByte(w1, 2) == b1[2] && LeByte(w1, 3) == b1[3];
    assert LeByte(w2, 0) == b2[0] && LeByte(w2, 1) == b2[1] && LeByte(w2, 2) == b2[2] && LeByte(w2, 3) == b2[3];
    LeBytesRecompose(w1);
    LeBytesRecompose(w2);
  }

  /** A two-byte draw is zero exactly when the low half of the word is. */
  lemma U16DrawZero(w: U32)
    ensures U16Draw(w) == 0 <==> w % 0x1_0000 == 0
  {
    var q := w / 256;
    assert w % 0x1_0000 == w % 256 + 256 * (q % 256) by {
      ModOfMultiple(w, 0x1_0000, q / 256, w % 256 + 256 * (q % 256));
    }
  }

  /** `NonZeroU16::random` on a stream: the result and the number of words
      consumed. Each attempt fills two bytes from one word and retries on
      zero; an exhausted stream is `GenerationFailed`. */
  function NonZeroDraw(words: seq<U32>): (r: (Result<NonZeroU16, RandomError>, nat))
    decreases |words|
    ensures r.1 <= |words|
    ensures r.0.Ok? ==> 1 <= r.1 && r.0.value == U16Draw(words[r.1 - 1])
    ensures r.0.Ok? ==> forall j :: 0 <= j < r.1 - 1 ==> U16Draw(words[j]) == 0
    ensures r.0.Err? ==> r.0.error == GenerationFailed && r.1 == |words|
    ensures r.0.Err? ==> forall j :: 0 <= j < |words| ==> U16Draw(words[j]) == 0
  {
    if |words| == 0 then (Err(GenerationFailed), 0)
    else if U16Draw(words[0]) != 0 then (Ok(U16Draw(words[0])), 1)
    else
      var (res, k) := NonZeroDraw(words[1..]);
      (res, k + 1)
  }

  /** A zero draw is skipped: the stream `[0, 0x0102]` yields `0x0201`
      from its second word. */
  lemma NonZeroRetryExample()
    ensures NonZeroDraw([0, 0x0102]) == (Ok(0x0201), 2)
  {
    assert U16Draw(0) == 0;
    assert U16Draw(0x0102) == 0x0201;
    assert [0, 0x0102][1..] == [0x0102];
  }

  /** `NonZeroU16::random`. The source retries by calling itself. */
  method RandomNonZeroU16(rng: SafeRand) returns (r: Result<NonZeroU16, RandomError>)
    modifies rng
    decreases |rng.words|
    ensures r == NonZeroDraw(old(rng.words)).0
    ensures rng.words == old(rng.words)[NonZeroDraw(old(rng.words)).1..]
  {
    var buf := new Byte[2](_ => 0);
    var ok := rng.TryFill(buf);
    if !ok {
      return Err(GenerationFailed);
    }
    FillFromFirstWord(old(rng.words), 2);
    var value := FromBeBytes2(buf[..]);
    if value != 0 {
      return Ok(value);
    }
    r := RandomNonZeroU16(rng);
  }

  /** `[u8; N]::random`: a zeroed buffer of `n` bytes, filled. */
  method RandomBytes(rng: SafeRand, n: nat) returns (r: Result<seq<Byte>, RandomError>)
    modifies rng
    ensures r.Ok? <==> WordsFor(n) <= |old(rng.words)|
    ensures r.Ok? ==> r.value == FillBytes(old(rng.words), n)
    ensures r.Ok? ==> rng.words == old(rng.words)[WordsFor(n)..]
    ensures r.Err? ==> r.error == GenerationFailed && rng.words == old(rng.words)
  {
    var buf := new Byte[n](_ => 0);
    var ok := rng.TryFill(buf);
    if !ok {
      return Err(GenerationFailed);
    }
    r := Ok(buf[..]);
  }

  /** `Protected<[u8; N]>::random`: `generate_ok` over the array impl, so an
      error passes through and nothing is wrapped. */
  method RandomProtectedBytes(rng: SafeRand, n: nat) returns (r: Result<Controlled<seq<Byte>>, RandomError>)
    modifies rng
    ensures r.Ok? <==> WordsFor(n) <= |old(rng.words)|
    ensures r.Ok? ==> r.value == Protected(FillBytes(old(rng.words), n))
    ensures r.Ok? ==> rng.words == old(rng.words)[WordsFor(n)..]
    ensures r.Err? ==> r.error == GenerationFailed && rng.words == old(rng.words)
  {
    var bytes := RandomBytes(rng, n);
    r := Combinators.GenerateOk([], () => bytes);
  }

  /** `Protected<u16>::random`: two bytes read big-endian; on failure the
      buffer is wiped (`residue`) and the error returned. */
  method RandomProtectedU16(rng: SafeRand) returns (r: Result<Controlled<U16>, RandomError>, ghost residue: seq<Byte>)
    modifies rng
    ensures r.Ok? <==> |old(rng.words)| >= 1
    ensures r.Ok? ==> r.value == Protected(U16Draw(old(rng.words)[0])) && rng.words == old(rng.words)[1..]
    ensures r.Err? ==> r.error == GenerationFailed && rng.words == old(rng.words)
    ensures r.Err? ==> residue == [0, 0]
  {
    var buf := new Byte[2](_ => 0);
    var ok := rng.TryFill(buf);
    var drawn: Result<U16, RandomError>;
    if ok {
      FillFromFirstWord(old(rng.words), 2);
      drawn := Ok(FromBeBytes2(buf[..]));
    } else {
      buf[0], buf[1] := 0, 0;
      drawn := Err(GenerationFailed);
    }
    residue := buf[..];
    r := Combinators.GenerateOk([], () => drawn);
  }

  /** `Protected<u32>::random`: four bytes read big-endian, under the same
      failure rule. */
  method RandomProtectedU32(rng: SafeRand) returns (r: Result<Controlled<U32>, RandomError>, ghost residue: seq<Byte>)
    modifies rng
    ensures r.Ok? <==> |old(rng.words)| >= 1
    ensures r.Ok? ==> r.value == Protected(U32Draw(old(rng.words)[0])) && rng.words == old(rng.words)[1..]
    ensures r.Err? ==> r.error == GenerationFailed && rng.words == old(rng.words)
    ensures r.Err? ==> residue == [0, 0, 0, 0]
  {
    var buf := new Byte[4](_ => 0);
    var ok := rng.TryFill(buf);
    var drawn: Result<U32, RandomError>;
    if ok {
      FillFromFirstWord(old(rng.words), 4);
      drawn := Ok(FromBeBytes4(buf[..]));
    } else {
      buf[0], buf[1], buf[2], buf[3] := 0, 0, 0, 0;
      drawn := Err(GenerationFailed);
    }
    residue := buf[..];
    r := Combinators.GenerateOk([], () => drawn);
  }
}
