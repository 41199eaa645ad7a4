/** The safe serialisation strategies. A `[u8; N]` is written as lowercase
    hexadecimal (base16, section 8 of RFC 4648) for human-readable formats
    and as a byte string otherwise; it is read back into an all-zero
    `N`-byte buffer from hex of either case or from exactly `N` bytes. A `u8`
    uses its plain encoding. Controlled values serialise their inner value
    with its strategy, and deserialise by decoding the inner value and
    wrapping it with `init_from_inner`.

    The encoder is abstract: a `Token` stands for what the strategy hands to
    the serde data model, whatever the concrete format makes of it. */
module SafeSerde {
  import opened Wrappers
  import opened Bits
  import opened Layers

  /** `Serializer::is_human_readable` / `Deserializer::is_human_readable`. */
  datatype Format = HumanReadable | Binary

  datatype Token = StrToken(s: string) | BytesToken(b: seq<Byte>) | U8Token(n: Byte)

  datatype DeError = InvalidType | InvalidLength(expected: nat, found: nat) | InvalidEncoding

  // ---- Base16 ----

  function HexDigit(v: nat): (c: char)
    requires v < 16
    ensures DigitValue(c) == Some(v)
  {
    if v < 10 then (48 + v) as char else (87 + v) as char
  }

  /** The value of a hex digit of either case; `None` for any other character. */
  function DigitValue(c: char): Option<nat>
  {
    if '0' <= c <= '9' then Some(c as int - 48)
    else if 'a' <= c <= 'f' then Some(c as int - 87)
    else if 'A' <= c <= 'F' then Some(c as int - 55)
    else None
  }

  predicate IsLowerHexDigit(c: char)
  {
    '0' <= c <= '9' || 'a' <= c <= 'f'
  }

  /** Lowercase encoding: two digits per byte, high nibble first. */
  function HexLower(b: seq<Byte>): (s: string)
    ensures |s| == 2 * |b|
  {
    if b == [] then [] else HexLower(b[..|b| - 1]) + [HexDigit(b[|b| - 1] / 16), HexDigit(b[|b| - 1] % 16)]
  }

  /** Every character of the encoding is a lowercase hex digit. */
  lemma {:induction false} HexLowerIsLower(b: seq<Byte>)
    ensures forall i :: 0 <= i < |HexLower(b)| ==> IsLowerHexDigit(HexLower(b)[i])
  {
    if b != [] {
      HexLowerIsLower(b[..|b| - 1]);
    }
  }

  /** The byte that the digit pair at `2k`, `2k+1` encodes. */
  function PairValue(s: string, k: nat): Option<Byte>
    requires 2 * k + 1 < |s|
  {
    match (DigitValue(s[2 * k]), DigitValue(s[2 * k + 1]))
    case (Some(hi), Some(lo)) => assert hi < 16 && lo < 16; Some(16 * hi + lo)
    case _ => None
  }

  /** Decoding of the first `k` digit pairs, in order, failing on the first
      pair that is not hex. */
  function DecodePairs(s: string, k: nat): (r: Result<seq<Byte>, DeError>)
    requires 2 * k <= |s|
    ensures r.Ok? ==> |r.value| == k
    ensures r.Err? ==> r.error == InvalidEncoding
  {
    if k == 0 then Ok([])
    else match DecodePairs(s, k - 1)
      case Err(e) => Err(e)
      case Ok(prefix) =>
        match PairValue(s, k - 1)
        case None => Err(InvalidEncoding)
        case Some(v) => Ok(prefix + [v])
  }

  /** Once a pair fails, every longer decode fails too. */
  lemma {:induction false} DecodeFailurePersists(s: string, k: nat, m: nat)
    requires k <= m && 2 * m <= |s| && DecodePairs(s, k).Err?
    ensures DecodePairs(s, m).Err?
  {
    if k < m {
      DecodeFailurePersists(s, k, m - 1);
    }
  }

  lemma {:induction false} DecodeHexLower(b: seq<Byte>, k: nat)
    requires k <= |b|
    ensures DecodePairs(HexLower(b), k) == Ok(b[..k])
  {
    if k > 0 {
      DecodeHexLower(b, k - 1);
      HexLowerPair(b, k - 1);
      assert b[..k] == b[..k - 1] + [b[k - 1]];
    }
  }

  lemma {:induction false} HexLowerPair(b: seq<Byte>, k: nat)
    requires k < |b|
    ensures HexLower(b)[2 * k] == HexDigit(b[k] / 16)
    ensures HexLower(b)[2 * k + 1] == HexDigit(b[k] % 16)
  {
    if k < |b| - 1 {
      HexLowerPair(b[..|b| - 1], k);
      assert b[..|b| - 1][k] == b[k];
    }
  }

  /** `c` with `A`–`F` replaced by `a`–`f`. */
  function LowerDigit(c: char): char
  {
    if 'A' <= c <= 'F' then (c as int + 32) as char else c
  }

  /** `s` with `A`–`F` replaced by `a`–`f`. */
  function ToLowerHex(s: string): (r: string)
    ensures |r| == |s|
  {
    seq(|s|, i requires 0 <= i < |s| => LowerDigit(s[i]))
  }

  lemma DigitRoundTrip(c: char)
    requires DigitValue(c).Some?
    ensures HexDigit(DigitValue(c).value) == LowerDigit(c)
  {
  }

  /** The byte of a pair splits back into its two digit values. */
  lemma PairDigits(s: string, k: nat)
    requires 2 * k + 1 < |s| && PairValue(s, k).Some?
    ensures DigitValue(s[2 * k]).Some? && DigitValue(s[2 * k + 1]).Some?
    ensures PairValue(s, k).value / 16 == DigitValue(s[2 * k]).value
    ensures PairValue(s, k).value % 16 == DigitValue(s[2 * k + 1]).value
  {
    var hi, lo := DigitValue(s[2 * k]).value, DigitValue(s[2 * k + 1]).value;
    ModOfMultiple(PairValue(s, k).value, 16, hi, lo);
  }

  /** Re-encoding a digit's value gives the lowercase form of the digit. */
  lemma DigitReencodes(s: string, i: nat)
    requires i < |s| && DigitValue(s[i]).Some?
    ensures HexDigit(DigitValue(s[i]).value) == ToLowerHex(s)[i]
  {
    DigitRoundTrip(s[i]);
  }

  /** A decoded pair re-encodes to the lowercase form of its two digits. */
  lemma PairReencodes(s: string, k: nat)
    requires 2 * k + 1 < |s| && PairValue(s, k).Some?
    ensures HexDigit(PairValue(s, k).value / 16) == ToLowerHex(s)[2 * k]
    ensures HexDigit(PairValue(s, k).value % 16) == ToLowerHex(s)[2 * k + 1]
  {
    PairDigits(s, k);
    DigitReencodes(s, 2 * k);
    DigitReencodes(s, 2 * k + 1);
  }

  /** Encoding one more byte appends its two digits. */
  lemma HexLowerSnoc(prev: seq<Byte>, v: Byte)
    ensures HexLower(prev + [v]) == HexLower(prev) + [HexDigit(v / 16), HexDigit(v % 16)]
  {
    assert (prev + [v])[..|prev|] == prev;
  }

  /** If `prev` encodes to a prefix of `t` and the next two characters of
      `t` are the digits of `v`, then `prev + [v]` encodes to the longer
      prefix. */
  lemma EncodeExtendsPrefix(prev: seq<Byte>, v: Byte, t: string, n: nat)
    requires n + 2 <= |t| && HexLower(prev) == t[..n]
    requires HexDigit(v / 16) == t[n] && HexDigit(v % 16) == t[n + 1]
    ensures HexLower(prev + [v]) == t[..n + 2]
  {
    HexLowerSnoc(prev, v);
    assert t[..n + 2] == t[..n] + [t[n], t[n + 1]];
  }

  /** A successful decode of `k` pairs is the decode of `k - 1` pairs
      followed by the last pair's byte. */
  lemma DecodePairsSnoc(s: string, k: nat)
    requires 0 < k && 2 * k <= |s| && DecodePairs(s, k).Ok?
    ensures DecodePairs(s, k - 1).Ok? && PairValue(s, k - 1).Some?
    ensures DecodePairs(s, k).value == DecodePairs(s, k - 1).value + [PairValue(s, k - 1).value]
  {
  }

  /** What decodes re-encodes to the lowercase form of the input. */
  lemma {:induction false} DecodedReencodes(s: string, k: nat)
    requires 2 * k <= |s| && DecodePairs(s, k).Ok?
    ensures HexLower(DecodePairs(s, k).value) == ToLowerHex(s)[..2 * k]
  {
    if k > 0 {
      DecodePairsSnoc(s, k);
      var prev, v, t := DecodePairs(s, k - 1).value, PairValue(s, k - 1).value, ToLowerHex(s);
      assert HexLower(prev) == t[..2 * k - 2] by {
        DecodedReencodes(s, k - 1);
      }
      assert HexDigit(v / 16) == t[2 * k - 2] && HexDigit(v % 16) == t[2 * k - 1] by {
        PairReencodes(s, k - 1);
      }
      EncodeExtendsPrefix(prev, v, t, 2 * k - 2);
    }
  }

  // ---- `[u8; N]` ----

  /** `serialize_hex_lower_or_bin`. */
  function SerializeByteArray(a: seq<Byte>, fmt: Format): Token
  {
    match fmt
    case HumanReadable => StrToken(HexLower(a))
    case Binary => BytesToken(a)
  }

  /** What `deserialize_hex_or_bin` into an `N`-byte buffer yields: hex text of
      exactly `2N` digits, or exactly `N` bytes; anything else is an error. */
  function DecodeByteArray(n: nat, tok: Token, fmt: Format): (r: Result<seq<Byte>, DeError>)
    ensures r.Ok? ==> |r.value| == n
  {
    match (fmt, tok)
    case (HumanReadable, StrToken(s)) =>
      if |s| != 2 * n then Err(InvalidLength(2 * n, |s|)) else DecodePairs(s, n)
    case (Binary, BytesToken(b)) =>
      if |b| != n then Err(InvalidLength(n, |b|)) else Ok(b)
    case _ => Err(InvalidType)
  }

  /** `SafeDeserialize for [u8; N]`: start from `Default::default()` (all
      zeros) and let the decoder fill the buffer; its error propagates (`?`). */
  method SafeDeserializeByteArray(n: nat, tok: Token, fmt: Format) returns (r: Result<seq<Byte>, DeError>)
    ensures r == DecodeByteArray(n, tok, fmt)
  {
    var buf := new Byte[n](_ => 0);
    match (fmt, tok)
    case (HumanReadable, StrToken(s)) =>
      if |s| != 2 * n {
        return Err(InvalidLength(2 * n, |s|));
      }
      var k := 0;
      while k < n
        invariant 0 <= k <= n
        invariant DecodePairs(s, k) == Ok(buf[..k])
      {
        var v := PairValue(s, k);
        if v.None? {
          DecodeFailurePersists(s, k + 1, n);
          return Err(InvalidEncoding);
        }
        buf[k] := v.value;
        assert buf[..k + 1] == buf[..k] + [v.value];
        k := k + 1;
      }
      assert buf[..n] == buf[..];
      r := Ok(buf[..]);
    case (Binary, BytesToken(b)) =>
      if |b| != n {
        return Err(InvalidLength(n, |b|));
      }
      var k := 0;
      while k < n
        invariant 0 <= k <= n
        invariant buf[..k] == b[..k]
      {
        buf[k] := b[k];
        k := k + 1;
      }
      assert buf[..] == b;
      r := Ok(buf[..]);
    case _ =>
      r := Err(InvalidType);
  }

  /** The array strategy round-trips: decoding what was encoded gives the
      array back, in either kind of format. */
  lemma ByteArrayRoundTrip(a: seq<Byte>, fmt: Format)
    ensures DecodeByteArray(|a|, SerializeByteArray(a, fmt), fmt) == Ok(a)
  {
    if fmt == HumanReadable {
      DecodeHexLower(a, |a|);
      assert a[..|a|] == a;
    }
  }

  /** And the other way: whatever decodes re-encodes to the same token, up to
      the case of the hex digits. */
  lemma ByteArrayDecodeThenEncode(n: nat, tok: Token, fmt: Format)
    requires DecodeByteArray(n, tok, fmt).Ok?
    ensures SerializeByteArray(DecodeByteArray(n, tok, fmt).value, fmt) ==
              if tok.StrToken? then StrToken(ToLowerHex(tok.s)) else tok
  {
    if fmt == HumanReadable {
      DecodedReencodes(tok.s, n);
    }
  }

  // ---- `u8`: the default strategy ----

  /** The default `safe_serialize`: the value's own `Serialize`. */
  function SerializeU8(n: Byte, fmt: Format): Token
  {
    U8Token(n)
  }

  /** The default `safe_deserialize`: the value's own `Deserialize`, errors
      unchanged. */
  function DeserializeU8(tok: Token, fmt: Format): (r: Result<Byte, DeError>)
    ensures r.Ok? <==> tok.U8Token?
  {
    match tok
    case U8Token(n) => Ok(n)
    case _ => Err(InvalidType)
  }

  lemma U8RoundTrip(n: Byte, tok: Token, fmt: Format)
    ensures DeserializeU8(SerializeU8(n, fmt), fmt) == Ok(n)
    ensures DeserializeU8(tok, fmt).Ok? ==> SerializeU8(DeserializeU8(tok, fmt).value, fmt) == tok
  {
  }

  // ---- Controlled values ----

  /** `Serialize` for `Equatable` and `Exportable`, and the blanket
      `SafeSerialize` for controlled values: the inner value's strategy. */
  function SerializeControlled<T>(c: Controlled<T>, fmt: Format, enc: (T, Format) -> Token): Token
  {
    enc(Inner(c), fmt)
  }

  /** `Deserialize` for `Exportable` and the blanket `SafeDeserialize`: decode
      the inner value, then wrap it with `init_from_inner`; errors pass
      through. */
  function DeserializeControlled<T>(shape: seq<Adapter>, tok: Token, fmt: Format,
                                    dec: (Token, Format) -> Result<T, DeError>): (r: Result<Controlled<T>, DeError>)
    ensures r.Ok? <==> dec(tok, fmt).Ok?
    ensures r.Ok? ==> Shape(r.value) == shape && Inner(r.value) == dec(tok, fmt).value
    ensures r.Err? ==> r.error == dec(tok, fmt).error
  {
    dec(tok, fmt).Map(x => InitFromInner(shape, x))
  }

  /** Serialising a controlled value and reading the token back as any other
      nesting yields that nesting around the same inner value, whenever the
      inner strategy round-trips. */
  lemma ControlledRoundTrip<T>(c: Controlled<T>, shape: seq<Adapter>, fmt: Format,
                               enc: (T, Format) -> Token, dec: (Token, Format) -> Result<T, DeError>)
    requires dec(enc(Inner(c), fmt), fmt) == Ok(Inner(c))
    ensures DeserializeControlled(shape, SerializeControlled(c, fmt, enc), fmt, dec) == Ok(InitFromInner(shape, Inner(c)))
  {
  }

  /** The tests: an `Exportable<Protected<u8>>` holding 42 decodes back to 42;
      so does an `Exportable<Equatable<Protected<u8>>>`; and an encoded
      `Equatable<Exportable<Protected<u8>>>` decodes as an
      `Exportable<Equatable<Protected<u8>>>` holding the same 42. */
  const Answer: Byte := 42

  lemma U8ControlledExamples(fmt: Format)
    ensures DeserializeControlled([ExportableAdapter], SerializeControlled(Exportable(Protected(Answer)), fmt, SerializeU8), fmt, DeserializeU8)
              == Ok(Exportable(Protected(Answer)))
    ensures DeserializeControlled([ExportableAdapter, EquatableAdapter],
                                  SerializeControlled(Exportable(Equatable(Protected(Answer))), fmt, SerializeU8), fmt, DeserializeU8)
              == Ok(Exportable(Equatable(Protected(Answer))))
    ensures DeserializeControlled([ExportableAdapter, EquatableAdapter],
                                  SerializeControlled(Equatable(Exportable(Protected(Answer))), fmt, SerializeU8), fmt, DeserializeU8)
              == Ok(Exportable(Equatable(Protected(Answer))))
  {
  }

  /** A protected byte array survives the trip through either format, read
      back into any nesting. */
  lemma ByteArrayControlledRoundTrip(c: Controlled<seq<Byte>>, shape: seq<Adapter>, fmt: Format)
    ensures var n := |Inner(c)|;
            DeserializeControlled(shape, SerializeControlled(c, fmt, SerializeByteArray), fmt,
                                  (t, f) => DecodeByteArray(n, t, f)) == Ok(InitFromInner(shape, Inner(c)))
  {
    ByteArrayRoundTrip(Inner(c), fmt);
  }
}
