/** The byte-buffer ciphertext builder: every state owns one growable byte
    buffer (`BytesMut`) that its operations append to, and moving to the next
    state hands the buffer on. Each state is a class whose `bytes` field is
    that buffer; the const `nonceSize` is the type's `N`. A state that is
    moved into the next one is not used again. */
module CipherTextBuffer {
  import opened Wrappers
  import opened Bits
  import opened Layers

  /** `TAG_SIZE`. */
  const TagSize: nat := 16

  /** `Protected<Vec<u8>>`: a byte vector in a bare `Protected`. */
  type ProtectedBytes = c: Controlled<seq<Byte>> | c.Protected? witness Protected([])

  /** `CipherText`: the frozen bytes. */
  datatype CipherText = CipherText(bytes: seq<Byte>)

  /** `NonceReader<N>` and `CiphertextAndTagReader<N>`: both hold the whole
      ciphertext. */
  datatype NonceReader = NonceReader(nonceSize: nat, bytes: seq<Byte>)
  datatype CiphertextAndTagReader = CiphertextAndTagReader(nonceSize: nat, bytes: seq<Byte>)

  /** `CipherText::into_inner`. */
  function IntoInner(c: CipherText): seq<Byte>
  {
    c.bytes
  }

  /** `CipherText::into_reader::<N>`. */
  function IntoReader(c: CipherText, n: nat): NonceReader
  {
    NonceReader(n, c.bytes)
  }

  /** `NonceReader::ciphertext` and `CiphertextAndTagReader::ciphertext`:
      the bytes after the nonce. Slicing past the end panics. */
  function AfterNonce(bytes: seq<Byte>, n: nat): (r: seq<Byte>)
    requires n <= |bytes|
    ensures |r| == |bytes| - n && forall i :: 0 <= i < |r| ==> r[i] == bytes[n + i]
  {
    bytes[n..]
  }

  /** `NonceReader::read_nonce`: copy the first `N` bytes out as the nonce;
      the next reader keeps the whole ciphertext, nonce included. */
  function ReadNonce(r: NonceReader): (p: (seq<Byte>, CiphertextAndTagReader))
    requires r.nonceSize <= |r.bytes|
    ensures p.1 == CiphertextAndTagReader(r.nonceSize, r.bytes)
    ensures |p.0| == r.nonceSize && p.0 + AfterNonce(p.1.bytes, p.1.nonceSize) == r.bytes
  {
    (r.bytes[..r.nonceSize], CiphertextAndTagReader(r.nonceSize, r.bytes))
  }

  /** `CipherTextBuilder<NONCE_SIZE>`. */
  class CipherTextBuilder {
    const nonceSize: nat
    var bytes: seq<Byte>
    var capacity: nat

    /** `new(size)`: an empty buffer with room for `size` bytes of
        ciphertext plus the nonce and the tag. */
    constructor (n: nat, size: nat)
      ensures nonceSize == n && bytes == [] && capacity == size + n + TagSize
    {
      nonceSize := n;
      bytes := [];
      capacity := size + n + TagSize;
    }

    /** `append_nonce`: the nonce's bytes go at the end of the buffer, which
        moves on to a `NonceWritten`. */
    method AppendNonce(nonce: seq<Byte>) returns (w: NonceWritten)
      requires |nonce| == nonceSize
      ensures fresh(w) && w.nonceSize == nonceSize && w.bytes == bytes + nonce
    {
      w := new NonceWritten(nonceSize, bytes + nonce);
    }

    /** `read_nonce`: a copy of the first `NONCE_SIZE` bytes; slicing past
        the end panics. */
    method ReadNonce() returns (nonce: seq<Byte>)
      requires nonceSize <= |bytes|
      ensures |nonce| == nonceSize && nonce + AfterNonce(bytes, nonceSize) == bytes
    {
      nonce := bytes[..nonceSize];
    }

    /** `append_tag`: append and return the same builder. */
    method AppendTag(tag: seq<Byte>) returns (self: CipherTextBuilder)
      modifies this
      ensures self == this && bytes == old(bytes) + tag
    {
      bytes := bytes + tag;
      self := this;
    }

    /** `append_target_plaintext`: append the unwrapped plaintext. */
    method AppendTargetPlaintext(plaintext: ProtectedBytes) returns (self: CipherTextBuilder)
      modifies this
      ensures self == this && bytes == old(bytes) + Inner(plaintext)
    {
      bytes := bytes + RiskyUnwrap(plaintext);
      self := this;
    }

    /** `Extend<u8>`. */
    method Extend(items: seq<Byte>)
      modifies this
      ensures bytes == old(bytes) + items
    {
      bytes := bytes + items;
    }

    /** `into_plaintext`: the whole buffer, protected. */
    method IntoPlaintext() returns (p: ProtectedBytes)
      ensures Inner(p) == bytes
    {
      var raw := bytes;
      p := Protected(raw);
    }

    /** `AsRef<[u8]>`: the bytes after the nonce; slicing past the end panics. */
    method AsRef() returns (s: seq<Byte>)
      requires nonceSize <= |bytes|
      ensures s == AfterNonce(bytes, nonceSize)
    {
      s := bytes[nonceSize..];
    }

    /** `build`: freeze the buffer as it is. */
    method Build() returns (c: CipherText)
      ensures c.bytes == bytes
    {
      c := CipherText(bytes);
    }
  }

  /** `NonceWritten<N>`. */
  class NonceWritten {
    const nonceSize: nat
    var bytes: seq<Byte>

    constructor (n: nat, b: seq<Byte>)
      ensures nonceSize == n && bytes == b
    {
      nonceSize := n;
      bytes := b;
    }

    /** `ciphertext_mut`: `get_mut(N..)`, nothing when the buffer is shorter
        than `N`, otherwise the bytes after the nonce. */
    method CiphertextMut() returns (r: Option<seq<Byte>>)
      ensures r.None? <==> |bytes| < nonceSize
      ensures r.Some? ==> r.value == AfterNonce(bytes, nonceSize)
    {
      if |bytes| < nonceSize {
        r := None;
      } else {
        r := Some(bytes[nonceSize..]);
      }
    }

    /** `append_ciphertext`: append and return the same state. */
    method AppendCiphertext(ciphertext: seq<Byte>) returns (self: NonceWritten)
      modifies this
      ensures self == this && bytes == old(bytes) + ciphertext
    {
      bytes := bytes + ciphertext;
      self := this;
    }

    /** `append_ciphertext_and_tag`: append, then `build`. */
    method AppendCiphertextAndTag(ciphertext: seq<Byte>) returns (c: CipherText)
      modifies this
      ensures c.bytes == old(bytes) + ciphertext
    {
      bytes := bytes + ciphertext;
      c := Build();
    }

    /** `append_target_plaintext`: append the unwrapped plaintext and move to
        a `PlaintextWritten` with both flags clear. */
    method AppendTargetPlaintext(plaintext: ProtectedBytes) returns (w: PlaintextWritten)
      ensures fresh(w) && w.nonceSize == nonceSize && w.bytes == bytes + Inner(plaintext)
      ensures !w.encrypted && !w.tagWritten
    {
      w := new PlaintextWritten(nonceSize, bytes + RiskyUnwrap(plaintext));
    }

    /** `build`: freeze the buffer as it is, with no check of what was
        written. */
    method Build() returns (c: CipherText)
      ensures c.bytes == bytes
    {
      c := CipherText(bytes);
    }
  }

  /** `PlaintextWritten<N>`. */
  class PlaintextWritten {
    const nonceSize: nat
    var bytes: seq<Byte>
    var encrypted: bool
    var tagWritten: bool

    /** The private `new`: both flags start clear. */
    constructor (n: nat, b: seq<Byte>)
      ensures nonceSize == n && bytes == b && !encrypted && !tagWritten
    {
      nonceSize := n;
      bytes := b;
      encrypted := false;
      tagWritten := false;
    }

    /** `accepts_ciphertext_and_tag`: hand the buffer on, not yet built. */
    method AcceptsCiphertextAndTag() returns (a: AcceptsCipherTextAndTag)
      ensures fresh(a) && a.nonceSize == nonceSize && a.bytes == bytes && !a.built
    {
      a := new AcceptsCipherTextAndTag(nonceSize, bytes);
    }

    /** `try_build`: a ciphertext only once the plaintext was encrypted and
        the tag written. */
    method TryBuild() returns (r: Result<CipherText, ()>)
      ensures r.Ok? <==> encrypted && tagWritten
      ensures r.Ok? ==> r.value.bytes == bytes
    {
      if encrypted && tagWritten {
        r := Ok(CipherText(bytes));
      } else {
        r := Err(());
      }
    }
  }

  /** `AcceptsCipherTextAndTag<N>`. */
  class AcceptsCipherTextAndTag {
    const nonceSize: nat
    var bytes: seq<Byte>
    var built: bool

    constructor (n: nat, b: seq<Byte>)
      ensures nonceSize == n && bytes == b && !built
    {
      nonceSize := n;
      bytes := b;
      built := false;
    }

    /** `Extend<&u8>`: append, and mark the buffer built. */
    method Extend(items: seq<Byte>)
      modifies this
      ensures bytes == old(bytes) + items && built
    {
      bytes := bytes + items;
      built := true;
    }

    /** `AsMut<[u8]>`: mark the buffer built and hand out the bytes after the
        nonce. The unchecked slice is undefined behaviour on a buffer shorter
        than `N`, so the buffer must hold a whole nonce. */
    method AsMut() returns (s: seq<Byte>)
      requires nonceSize <= |bytes|
      modifies this
      ensures built && bytes == old(bytes)
      ensures s == AfterNonce(bytes, nonceSize)
    {
      built := true;
      s := bytes[nonceSize..];
    }

    /** `try_build`: a ciphertext exactly when `extend` or `as_mut` ran. */
    method TryBuild() returns (r: Result<CipherText, ()>)
      ensures r.Ok? <==> built
      ensures r.Ok? ==> r.value.bytes == bytes
    {
      if built {
        r := Ok(CipherText(bytes));
      } else {
        r := Err(());
      }
    }
  }

  /** The append path: a 12-byte nonce of 1s, ten bytes of ciphertext and a
      sixteen-byte tag make 38 bytes, each part where the layout puts it, and
      the reader recovers the nonce and the rest. */
  method AppendExample() returns (c: CipherText)
    ensures |c.bytes| == 38
    ensures c.bytes[..12] == seq(12, _ => 1) && c.bytes[12..22] == seq(10, _ => 2) && c.bytes[22..] == seq(16, _ => 3)
    ensures ReadNonce(IntoReader(c, 12)).0 == seq(12, _ => 1)
    ensures AfterNonce(ReadNonce(IntoReader(c, 12)).1.bytes, 12) == seq(10, _ => 2) + seq(16, _ => 3)
  {
    var b := new CipherTextBuilder(12, 10);
    var w := b.AppendNonce(seq(12, _ => 1));
    w := w.AppendCiphertext(seq(10, _ => 2));
    c := w.AppendCiphertextAndTag(seq(16, _ => 3));
    assert c.bytes == seq(12, _ => 1) + seq(10, _ => 2) + seq(16, _ => 3);
  }

  /** The flag rules: no operation sets `encrypted` or `tag_written`, so a
      `PlaintextWritten` never builds; an `AcceptsCipherTextAndTag` builds
      only after `extend`, and then holds the nonce, the plaintext and what
      was extended, in that order. */
  method FlagExample(nonce: seq<Byte>, plaintext: ProtectedBytes, tag: seq<Byte>)
    returns (early: Result<CipherText, ()>, before: Result<CipherText, ()>, after: Result<CipherText, ()>)
    requires |nonce| == 12
    ensures early.Err? && before.Err?
    ensures after == Ok(CipherText(nonce + Inner(plaintext) + tag))
  {
    var b := new CipherTextBuilder(12, |Inner(plaintext)|);
    var w := b.AppendNonce(nonce);
    assert w.bytes == nonce;
    var p := w.AppendTargetPlaintext(plaintext);
    early := p.TryBuild();
    var a := p.AcceptsCiphertextAndTag();
    before := a.TryBuild();
    a.Extend(tag);
    after := a.TryBuild();
  }
}
