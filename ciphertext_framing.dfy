/** Ciphertext framing: a ciphertext is `nonce ‖ ciphertext ‖ tag`.

    The writer is a chain of states, each consuming the previous one:
    `CipherTextBuilder` → `append_nonce` → `NonceWritten` →
    `append_target_plaintext` → `PlaintextWritten` →
    `accepts_ciphertext_and_tag` → `EncryptedWithTag` → `build`. The reader
    splits the first `N` bytes off as the nonce and hands the rest, still
    protected, to a decrypting closure. Closures are Dafny functions; the
    nonce length `N` is the length of the nonce's bytes. */
module CipherTextFraming {
  import opened Wrappers
  import opened Bits
  import opened Layers
  import Combinators
  import SafeSerde

  /** `Protected<Vec<u8>>`: a byte vector in a bare `Protected`. */
  type ProtectedBytes = c: Controlled<seq<Byte>> | c.Protected? witness Protected([])

  /** `Nonce<N>`: `N` bytes. */
  datatype Nonce = Nonce(bytes: seq<Byte>)

  /** `CipherText`: the framed bytes. */
  datatype CipherText = CipherText(bytes: seq<Byte>)

  datatype CipherTextBuilder = CipherTextBuilder
  datatype NonceWritten = NonceWritten(nonce: Nonce)
  datatype PlaintextWritten = PlaintextWritten(nonce: Nonce, plaintext: ProtectedBytes)
  datatype EncryptedWithTag = EncryptedWithTag(nonce: Nonce, bytes: ProtectedBytes)

  datatype CipherTextReader = CipherTextReader(bytes: seq<Byte>)
  datatype CiphertextAndTagReader = CiphertextAndTagReader(data: ProtectedBytes)
  datatype Plaintext<E> = Plaintext(result: Result<ProtectedBytes, E>)

  // ---- the layout ----

  /** The frame `build` writes: the nonce, then the body (ciphertext and
      tag). The nonce occupies the first `|nonce|` bytes and the body the
      rest. */
  function Frame(nonce: seq<Byte>, body: seq<Byte>): (r: seq<Byte>)
    ensures |r| == |nonce| + |body|
    ensures r[..|nonce|] == nonce && r[|nonce|..] == body
  {
    nonce + body
  }

  /** What `read_nonce::<N>` separates: the first `n` bytes and the rest.
      The two parts put back together are the input. */
  function SplitNonce(bytes: seq<Byte>, n: nat): (r: (seq<Byte>, seq<Byte>))
    requires n <= |bytes|
    ensures |r.0| == n && r.0 + r.1 == bytes
  {
    (bytes[..n], bytes[n..])
  }

  /** Splitting a frame at the nonce's length recovers the nonce and the
      body, and framing the two parts of a split recovers the bytes. */
  lemma FrameSplitRoundTrip(nonce: seq<Byte>, body: seq<Byte>, bytes: seq<Byte>, n: nat)
    requires n <= |bytes|
    ensures SplitNonce(Frame(nonce, body), |nonce|) == (nonce, body)
    ensures Frame(SplitNonce(bytes, n).0, SplitNonce(bytes, n).1) == bytes
  {
  }

  // ---- `CipherText` ----

  /** `CipherText::into_inner`. */
  function IntoInner(c: CipherText): seq<Byte>
  {
    c.bytes
  }

  /** `CipherText::into_reader`: a reader over the same bytes. */
  function IntoReader(c: CipherText): CipherTextReader
  {
    CipherTextReader(c.bytes)
  }

  /** `#[serde(transparent)]`: a ciphertext serialises as its byte string
      and deserialises from one. */
  function SerializeCipherText(c: CipherText): SafeSerde.Token
  {
    SafeSerde.BytesToken(c.bytes)
  }

  function DeserializeCipherText(tok: SafeSerde.Token): (r: Result<CipherText, SafeSerde.DeError>)
    ensures r.Ok? <==> tok.BytesToken?
  {
    match tok
    case BytesToken(b) => Ok(CipherText(b))
    case _ => Err(SafeSerde.InvalidType)
  }

  /** The accessors hand out the wrapped bytes unchanged, and the transparent
      encoding round-trips in both directions. */
  lemma CipherTextAccessors(c: CipherText, tok: SafeSerde.Token)
    ensures IntoInner(c) == c.bytes && IntoReader(c).bytes == c.bytes
    ensures DeserializeCipherText(SerializeCipherText(c)) == Ok(c)
    ensures DeserializeCipherText(tok).Ok? ==> SerializeCipherText(DeserializeCipherText(tok).value) == tok
  {
  }

  // ---- writing ----

  /** `CipherTextBuilder::append_nonce`: store the nonce. */
  function AppendNonce(b: CipherTextBuilder, nonce: Nonce): NonceWritten
  {
    NonceWritten(nonce)
  }

  /** `NonceWritten::append_target_plaintext`: pair the stored nonce with the
      plaintext. */
  function AppendTargetPlaintext(w: NonceWritten, plaintext: ProtectedBytes): PlaintextWritten
  {
    PlaintextWritten(w.nonce, plaintext)
  }

  /** `PlaintextWritten::accepts_ciphertext_and_tag(f)`: `f` applied once to
      the plaintext bytes through `map`, so its output stays protected. */
  function AcceptsCiphertextAndTag(w: PlaintextWritten, f: seq<Byte> -> seq<Byte>): (r: EncryptedWithTag)
    ensures r.nonce == w.nonce && r.bytes == Protected(f(Inner(w.plaintext)))
  {
    EncryptedWithTag(w.nonce, Combinators.Map(w.plaintext, f))
  }

  /** `Protected::map_ok(f)`, which the read and write paths use: an `Ok`
      result is rewrapped in the same layers, an `Err` passes through. */
  function MapOk<E>(c: ProtectedBytes, f: seq<Byte> -> Result<seq<Byte>, E>): (r: Result<ProtectedBytes, E>)
    ensures r.Ok? <==> f(Inner(c)).Ok?
    ensures r.Ok? ==> r.value == Protected(f(Inner(c)).value)
    ensures r.Err? ==> r.error == f(Inner(c)).error
  {
    match f(RiskyUnwrap(c))
    case Ok(v) => Ok(Protected(v))
    case Err(e) => Err(e)
  }

  /** `accepts_ciphertext_and_tag_ok(f)`, the fallible form the tests use:
      `f`'s error stops the chain before `build`. */
  function AcceptsCiphertextAndTagOk<E>(w: PlaintextWritten, f: seq<Byte> -> Result<seq<Byte>, E>)
    : (r: Result<EncryptedWithTag, E>)
    ensures r.Ok? <==> f(Inner(w.plaintext)).Ok?
    ensures r.Ok? ==> r.value.nonce == w.nonce && r.value.bytes == Protected(f(Inner(w.plaintext)).value)
  {
    MapOk(w.plaintext, f).Map(b => EncryptedWithTag(w.nonce, b))
  }

  /** `EncryptedWithTag::build`: unwrap the encrypted bytes, then extend an
      empty buffer with the nonce and with them. */
  method Build(e: EncryptedWithTag) returns (c: CipherText)
    ensures c.bytes == Frame(e.nonce.bytes, Inner(e.bytes))
  {
    var inner := RiskyUnwrap(e.bytes);
    var buf: seq<Byte> := [];
    buf := buf + e.nonce.bytes;
    buf := buf + inner;
    c := CipherText(buf);
  }

  // ---- reading ----

  /** `CipherTextReader::read_nonce::<N>`: `get_u8` `n` times from a cursor
      limited to `n` bytes, then the cursor's remaining bytes go, protected,
      to the next reader. Reading past the end panics, so the bytes must
      hold a whole nonce. */
  method ReadNonce(r: CipherTextReader, n: nat) returns (nonce: Nonce, rest: CiphertextAndTagReader)
    requires n <= |r.bytes|
    ensures nonce.bytes == SplitNonce(r.bytes, n).0
    ensures rest.data == Protected(SplitNonce(r.bytes, n).1)
  {
    var cursor := 0;
    var buf: seq<Byte> := [];
    while cursor < n
      invariant 0 <= cursor <= n
      invariant buf == r.bytes[..cursor]
    {
      buf := buf + [r.bytes[cursor]];
      cursor := cursor + 1;
    }
    nonce := Nonce(buf);
    rest := CiphertextAndTagReader(Protected(r.bytes[cursor..]));
  }

  /** `CiphertextAndTagReader::accepts_plaintext_ok(f)`: the decrypting
      closure's result, an `Ok` kept protected. */
  function AcceptsPlaintextOk<E>(r: CiphertextAndTagReader, f: seq<Byte> -> Result<seq<Byte>, E>): Plaintext<E>
  {
    Plaintext(MapOk(r.data, f))
  }

  /** `Plaintext::read`: the stored result. */
  function Read<E>(p: Plaintext<E>): Result<ProtectedBytes, E>
  {
    p.result
  }

  /** The round trip through the whole chain: whatever nonce and closure
      built a ciphertext, splitting it at the nonce's length gives back that
      nonce unchanged and exactly the closure's output; the decrypting
      closure then sees that output, and `read` gives its result protected. */
  lemma WriteThenRead<E>(nonce: Nonce, plaintext: ProtectedBytes, f: seq<Byte> -> seq<Byte>,
                         g: seq<Byte> -> Result<seq<Byte>, E>)
    ensures var e := AcceptsCiphertextAndTag(AppendTargetPlaintext(AppendNonce(CipherTextBuilder, nonce), plaintext), f);
            var bytes := Frame(e.nonce.bytes, Inner(e.bytes));
            var split := SplitNonce(bytes, |nonce.bytes|);
            split.0 == nonce.bytes && split.1 == f(Inner(plaintext)) &&
            Read(AcceptsPlaintextOk(CiphertextAndTagReader(Protected(split.1)), g)) ==
              g(f(Inner(plaintext))).Map(v => Protected(v))
  {
  }

  // ---- the tests ----

  /** The tests' closure for encryption: ten 2s over the ten plaintext bytes
      (`copy_from_slice`), then a tag of sixteen 3s (`extend`). */
  function EncryptForTest(c: seq<Byte>): Result<seq<Byte>, ()>
  {
    Ok(seq(|c|, _ => 2) + seq(16, _ => 3))
  }

  /** The tests' closure for decryption: zeros over the first ten bytes. */
  function DecryptForTest(d: seq<Byte>): Result<seq<Byte>, ()>
  {
    if |d| < 10 then Ok(d) else Ok(seq(10, _ => 0) + d[10..])
  }

  /** The two tests: a 12-byte nonce of 1s, ten plaintext bytes, the closure
      above. The ciphertext is 38 bytes: the nonce in `0..12`, ten 2s in
      `12..22` and the sixteen-byte tag in `22..38`. Reading it back gives the
      nonce and hands the decrypting closure 26 bytes, ten 2s then sixteen
      3s; the plaintext read starts with ten zeros. */
  method FramingExample() returns (c: CipherText, nonce: Nonce, seen: seq<Byte>, plain: Result<ProtectedBytes, ()>)
    ensures |c.bytes| == 38
    ensures c.bytes[..12] == seq(12, _ => 1) && c.bytes[12..22] == seq(10, _ => 2) && c.bytes[22..] == seq(16, _ => 3)
    ensures nonce.bytes == seq(12, _ => 1)
    ensures |seen| == 26 && seen[..10] == seq(10, _ => 2) && seen[10..] == seq(16, _ => 3)
    ensures plain.Ok? && |Inner(plain.value)| == 26 && Inner(plain.value)[..10] == seq(10, _ => 0)
  {
    var n := Nonce(seq(12, _ => 1));
    var p: ProtectedBytes := Protected(seq(10, _ => 0));
    var e := AcceptsCiphertextAndTagOk(AppendTargetPlaintext(AppendNonce(CipherTextBuilder, n), p), EncryptForTest);
    c := Build(e.value);
    assert c.bytes == seq(12, _ => 1) + (seq(10, _ => 2) + seq(16, _ => 3));
    var rest;
    nonce, rest := ReadNonce(IntoReader(c), 12);
    seen := Inner(rest.data);
    plain := Read(AcceptsPlaintextOk(rest, DecryptForTest));
  }
}
