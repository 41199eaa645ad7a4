/** UTF-8 encoding of Unicode scalar values (section 3 of RFC 3629): what
    Rust's `str::as_bytes` and `String::as_bytes` expose. Equality of strings
    and of their byte encodings coincide because the encoding is injective;
    the lead byte of each character says how many bytes it takes. */
module Utf8 {
  import opened Bits

  /** The bytes of one character: 1 to 4 of them. */
  function EncodeChar(c: char): (r: seq<Byte>)
    ensures 1 <= |r| <= 4
    ensures LeadLength(r[0]) == |r|
  {
    var n := c as int;
    if n < 0x80 then [n]
    else if n < 0x800 then [0xC0 + n / 64, 0x80 + n % 64]
    else if n < 0x1_0000 then [0xE0 + n / 4096, 0x80 + (n / 64) % 64, 0x80 + n % 64]
    else
      assert n / 262144 <= 4;
      [0xF0 + n / 262144, 0x80 + (n / 4096) % 64, 0x80 + (n / 64) % 64, 0x80 + n % 64]
  }

  /** How many bytes a character whose first byte is `b` occupies. */
  function LeadLength(b: Byte): nat
  {
    if b < 0x80 then 1 else if b < 0xE0 then 2 else if b < 0xF0 then 3 else 4
  }

  /** The scalar value a well-formed encoding stands for. */
  function CodePoint(b: seq<Byte>): int
    requires 1 <= |b| <= 4
  {
    var b0: int := b[0];
    if |b| == 1 then b0
    else
      var b1: int := b[1];
      if |b| == 2 then (b0 - 0xC0) * 64 + (b1 - 0x80)
      else
        var b2: int := b[2];
        if |b| == 3 then ((b0 - 0xE0) * 64 + (b1 - 0x80)) * 64 + (b2 - 0x80)
        else (((b0 - 0xF0) * 64 + (b1 - 0x80)) * 64 + (b2 - 0x80)) * 64 + (b[3] as int - 0x80)
  }

  lemma DivDiv64(n: nat)
    ensures n / 4096 == (n / 64) / 64
    ensures n / 262144 == (n / 4096) / 64
  {
    var q := n / 64;
    ModOfMultiple(n, 4096, q / 64, (q % 64) * 64 + n % 64);
    var p := n / 4096;
    ModOfMultiple(n, 262144, p / 64, (p % 64) * 4096 + n % 4096);
  }

  lemma {:induction false} CodePointOfEncoding(c: char)
    ensures CodePoint(EncodeChar(c)) == c as int
  {
    DivDiv64(c as int);
  }

  lemma EncodeCharInjective(c: char, d: char)
    requires EncodeChar(c) == EncodeChar(d)
    ensures c == d
  {
    CodePointOfEncoding(c);
    CodePointOfEncoding(d);
  }

  /** `as_bytes`: the characters' encodings, concatenated in order. */
  function Encode(s: string): (r: seq<Byte>)
    ensures |r| >= |s|
  {
    if s == [] then [] else EncodeChar(s[0]) + Encode(s[1..])
  }

  lemma {:induction false} EncodeAppend(s: string, t: string)
    ensures Encode(s + t) == Encode(s) + Encode(t)
  {
    if s == [] {
      assert s + t == t;
    } else {
      assert (s + t)[0] == s[0] && (s + t)[1..] == s[1..] + t;
      EncodeAppend(s[1..], t);
    }
  }

  /** Distinct strings have distinct encodings. */
  lemma {:induction false} EncodeInjective(s: string, t: string)
    requires Encode(s) == Encode(t)
    ensures s == t
  {
    if s != [] && t != [] {
      var e, f := EncodeChar(s[0]), EncodeChar(t[0]);
      assert Encode(s)[0] == e[0] && Encode(t)[0] == f[0];
      assert |e| == |f|;
      assert e == Encode(s)[..|e|] && f == Encode(t)[..|f|];
      EncodeCharInjective(s[0], t[0]);
      assert Encode(s[1..]) == Encode(s)[|e|..] == Encode(t)[|f|..] == Encode(t[1..]);
      EncodeInjective(s[1..], t[1..]);
    }
  }
}
