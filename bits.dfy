/** Fixed-width unsigned integers and the bit-level arithmetic the library
    relies on: powers of two (`is_power_of_two`, `next_power_of_two`), bitwise
    AND and XOR on naturals, big-endian byte order (`to_be_bytes`,
    `from_be_bytes`) and most-significant-bit-first bit strings (`Msb0`).
    Dafny integers are unbounded, so every width is a subset type and every
    truncation is written out. */
module Bits {

  type Byte = x: int | 0 <= x < 0x100
  type U16 = x: int | 0 <= x < 0x1_0000
  type U32 = x: int | 0 <= x < 0x1_0000_0000
  type NonZeroU8 = x: int | 0 < x < 0x100 witness 1
  type NonZeroU16 = x: int | 0 < x < 0x1_0000 witness 1

  function Pow2(k: nat): (r: nat)
    ensures r >= 1
  {
    if k == 0 then 1 else 2 * Pow2(k - 1)
  }

  /** `u32::is_power_of_two`: exactly one bit set (so 0 is not one). */
  predicate IsPowerOfTwo(n: nat)
    decreases n
  {
    n == 1 || (n > 1 && n % 2 == 0 && IsPowerOfTwo(n / 2))
  }

  lemma {:induction false} PowersAreRecognised(k: nat)
    ensures IsPowerOfTwo(Pow2(k))
  {
    if k > 0 {
      PowersAreRecognised(k - 1);
      assert Pow2(k) / 2 == Pow2(k - 1);
    }
  }

  /** The exponent of a power of two. */
  function Log2(n: nat): (k: nat)
    requires IsPowerOfTwo(n)
    decreases n
    ensures Pow2(k) == n
  {
    if n == 1 then 0 else 1 + Log2(n / 2)
  }

  /** `u32::next_power_of_two`: the smallest power of two that is at least
      `n`; 0 and 1 both give 1. */
  function NextPowerOfTwo(n: nat): (r: nat)
    decreases n
    ensures IsPowerOfTwo(r)
    ensures n <= r
    ensures n >= 1 ==> r < 2 * n
  {
    if n <= 1 then 1
    else
      var half := NextPowerOfTwo((n + 1) / 2);
      assert half > 1 ==> half % 2 == 0;
      assert (2 * half) / 2 == half;
      2 * half
  }

  /** Bitwise AND of two naturals, one bit at a time from the least
      significant end. */
  function BitAnd(a: nat, b: nat): (r: nat)
    decreases a
    ensures r <= a && r <= b
  {
    if a == 0 || b == 0 then 0
    else 2 * BitAnd(a / 2, b / 2) + (if a % 2 == 1 && b % 2 == 1 then 1 else 0)
  }

  /** Bitwise XOR of two naturals. */
  function BitXor(a: nat, b: nat): nat
    decreases a + b
  {
    if a == 0 then b
    else if b == 0 then a
    else 2 * BitXor(a / 2, b / 2) + (if a % 2 != b % 2 then 1 else 0)
  }

  lemma ModOfMultiple(x: int, d: int, q: int, r: int)
    requires d > 0 && 0 <= r < d && x == d * q + r
    ensures x % d == r && x / d == q
  {
    var q', r' := x / d, x % d;
    assert x == d * q' + r';
    if q' > q {
      assert d * q' >= d * (q + 1) by { MulMonotone(d, q + 1, q'); }
    } else if q' < q {
      assert d * q >= d * (q' + 1) by { MulMonotone(d, q' + 1, q); }
    }
  }

  lemma MulMonotone(d: int, a: int, b: int)
    requires d > 0 && a <= b
    ensures d * a <= d * b
  {
  }

  lemma ModOfDouble(x: nat, p: nat)
    requires p >= 1
    ensures x % (2 * p) == 2 * ((x / 2) % p) + x % 2
  {
    var q, r := (x / 2) / p, (x / 2) % p;
    assert x / 2 == p * q + r;
    assert x == (2 * p) * q + (2 * r + x % 2);
    ModOfMultiple(x, 2 * p, q, 2 * r + x % 2);
  }

  /** ANDing with an odd mask keeps the lowest bit and shifts the rest. */
  lemma AndOddMask(x: nat, q: nat)
    requires x > 0
    ensures BitAnd(x, 2 * q + 1) == 2 * BitAnd(x / 2, q) + x % 2
  {
    HalfAndParity(2 * q + 1, q, 1);
  }

  /** One step of `AndMaskIsMod`: from the claim for `x / 2` and `k - 1`
      to the claim for `x` and `k`. */
  lemma AndMaskStep(x: nat, k: nat)
    requires x > 0 && k > 0
    requires BitAnd(x / 2, Pow2(k - 1) - 1) == (x / 2) % Pow2(k - 1)
    ensures BitAnd(x, Pow2(k) - 1) == x % Pow2(k)
  {
    var p := Pow2(k - 1);
    assert Pow2(k) == 2 * p;
    AndOddMask(x, p - 1);
    ModOfDouble(x, p);
  }

  /** The base cases of `AndMaskIsMod`: an empty mask or a zero value. */
  lemma AndMaskBase(x: nat, k: nat)
    requires k == 0 || x == 0
    ensures BitAnd(x, Pow2(k) - 1) == x % Pow2(k)
  {
    if k == 0 {
      ModOfMultiple(x, 1, x, 0);
    } else {
      ModOfMultiple(0, Pow2(k), 0, 0);
    }
  }

  /** Masking with `2^k - 1` keeps the low `k` bits: `x & (m - 1) == x % m`
      for a power of two `m`. */
  lemma {:induction false} AndMaskIsMod(x: nat, k: nat)
    ensures BitAnd(x, Pow2(k) - 1) == x % Pow2(k)
    decreases k, 1
  {
    if k > 0 && x > 0 {
      AndMaskFromHalf(x, k);
    } else {
      AndMaskBase(x, k);
    }
  }

  /** The recursive case of `AndMaskIsMod`, through the claim for `x / 2`. */
  lemma {:induction false} AndMaskFromHalf(x: nat, k: nat)
    requires x > 0 && k > 0
    ensures BitAnd(x, Pow2(k) - 1) == x % Pow2(k)
    decreases k, 0
  {
    AndMaskIsMod(x / 2, k - 1);
    AndMaskStep(x, k);
  }

  /** XOR of a value with itself is zero. */
  lemma {:induction false} XorSelf(a: nat)
    ensures BitXor(a, a) == 0
  {
    if a != 0 {
      XorSelf(a / 2);
    }
  }

  lemma HalfAndParity(c: nat, q: nat, bit: nat)
    requires bit < 2 && c == 2 * q + bit
    ensures c / 2 == q && c % 2 == bit
  {
    ModOfMultiple(c, 2, q, bit);
  }

  /** XOR with the same operand twice is the identity. */
  lemma {:induction false} XorInvolutive(a: nat, b: nat)
    ensures BitXor(BitXor(a, b), b) == a
    decreases a + b
  {
    if a == 0 {
      XorSelf(b);
    } else if b != 0 {
      var c := BitXor(a, b);
      var q := BitXor(a / 2, b / 2);
      var bit := if a % 2 != b % 2 then 1 else 0;
      HalfAndParity(c, q, bit);
      XorInvolutive(a / 2, b / 2);
      if c == 0 {
        assert a == b;
      } else {
        assert BitXor(c, b) == 2 * BitXor(q, b / 2) + (if bit != b % 2 then 1 else 0);
      }
    }
  }

  /** XOR of two `k`-bit values is a `k`-bit value. */
  lemma {:induction false} XorBounded(a: nat, b: nat, k: nat)
    requires a < Pow2(k) && b < Pow2(k)
    ensures BitXor(a, b) < Pow2(k)
    decreases a + b
  {
    if a != 0 && b != 0 {
      XorBounded(a / 2, b / 2, k - 1);
    }
  }

  // ---- Big-endian bytes ----

  function Pow256(n: nat): (r: nat)
    ensures r >= 1
  {
    if n == 0 then 1 else 256 * Pow256(n - 1)
  }

  /** `from_be_bytes`: the first byte is the most significant. */
  function FromBeBytes(b: seq<Byte>): (r: nat)
    ensures r < Pow256(|b|)
  {
    if b == [] then 0
    else
      var high := FromBeBytes(b[..|b| - 1]);
      assert high * 256 <= (Pow256(|b| - 1) - 1) * 256;
      high * 256 + b[|b| - 1]
  }

  /** `to_be_bytes` for an integer stored in `n` bytes. */
  function ToBeBytes(x: nat, n: nat): (r: seq<Byte>)
    ensures |r| == n
  {
    if n == 0 then [] else ToBeBytes(x / 256, n - 1) + [x % 256]
  }

  lemma {:induction false} BeBytesRoundTrip(x: nat, n: nat)
    requires x < Pow256(n)
    ensures FromBeBytes(ToBeBytes(x, n)) == x
  {
    if n > 0 {
      var b := ToBeBytes(x, n);
      assert b[..n - 1] == ToBeBytes(x / 256, n - 1);
      BeBytesRoundTrip(x / 256, n - 1);
    }
  }

  lemma {:induction false} BeBytesZero(b: seq<Byte>)
    ensures FromBeBytes(b) == 0 <==> forall i :: 0 <= i < |b| ==> b[i] == 0
  {
    if b != [] {
      BeBytesZero(b[..|b| - 1]);
      if FromBeBytes(b) == 0 {
        forall i | 0 <= i < |b| ensures b[i] == 0 {
          if i < |b| - 1 { assert b[i] == b[..|b| - 1][i]; }
        }
      }
    }
  }

  /** `u16::from_be_bytes` on a two-byte buffer. */
  function FromBeBytes2(b: seq<Byte>): (r: U16)
    requires |b| == 2
    ensures r == b[0] as int * 256 + b[1]
  {
    assert FromBeBytes(b[..1]) == b[0] by {
      assert b[..1][..0] == [];
    }
    FromBeBytes(b)
  }

  /** `u32::from_be_bytes` on a four-byte buffer. */
  function FromBeBytes4(b: seq<Byte>): (r: U32)
    requires |b| == 4
    ensures r == ((b[0] as int * 256 + b[1]) * 256 + b[2]) * 256 + b[3]
  {
    assert FromBeBytes(b[..3]) == (b[0] as int * 256 + b[1]) * 256 + b[2] by {
      assert b[..3][..2] == b[..2];
      assert FromBeBytes(b[..2]) == b[0] as int * 256 + b[1] by {
        assert b[..2][..1] == b[..1];
        assert FromBeBytes(b[..1]) == b[0] by { assert b[..1][..0] == []; }
      }
    }
    FromBeBytes(b)
  }

  // ---- Bit strings, most significant bit first (`bitvec::order::Msb0`) ----

  function NatToBits(x: nat, w: nat): (r: seq<bool>)
    ensures |r| == w
  {
    if w == 0 then [] else NatToBits(x / 2, w - 1) + [x % 2 == 1]
  }

  function BitsToNat(bits: seq<bool>): (r: nat)
    ensures r < Pow2(|bits|)
  {
    if bits == [] then 0
    else BitsToNat(bits[..|bits| - 1]) * 2 + (if bits[|bits| - 1] then 1 else 0)
  }

  lemma {:induction false} BitsToNatZero(bits: seq<bool>)
    ensures BitsToNat(bits) == 0 <==> forall i :: 0 <= i < |bits| ==> !bits[i]
  {
    if bits != [] {
      BitsToNatZero(bits[..|bits| - 1]);
      if BitsToNat(bits) == 0 {
        forall i | 0 <= i < |bits| ensures !bits[i] {
          if i < |bits| - 1 { assert bits[i] == bits[..|bits| - 1][i]; }
        }
      }
    }
  }

  lemma {:induction false} NatToBitsRoundTrip(x: nat, w: nat)
    requires x < Pow2(w)
    ensures BitsToNat(NatToBits(x, w)) == x
  {
    if w > 0 {
      var bits := NatToBits(x, w);
      assert bits[..w - 1] == NatToBits(x / 2, w - 1);
      NatToBitsRoundTrip(x / 2, w - 1);
    }
  }

  /** The bits of a byte string in `Msb0` order: byte 0's top bit first. */
  function BytesToBits(b: seq<Byte>): (r: seq<bool>)
    ensures |r| == 8 * |b|
  {
    if b == [] then [] else BytesToBits(b[..|b| - 1]) + NatToBits(b[|b| - 1], 8)
  }

  /** The bytes of a bit string whose length is a multiple of eight. */
  function BitsToBytes(bits: seq<bool>): (r: seq<Byte>)
    requires |bits| % 8 == 0
    ensures 8 * |r| == |bits|
  {
    if bits == [] then []
    else
      var last := bits[|bits| - 8..];
      assert BitsToNat(last) < 256 by { assert Pow2(8) == 256; }
      BitsToBytes(bits[..|bits| - 8]) + [BitsToNat(last)]
  }

  predicate AnyBitSet(bits: seq<bool>)
  {
    exists i :: 0 <= i < |bits| && bits[i]
  }

  predicate AnyByteSet(b: seq<Byte>)
  {
    exists i :: 0 <= i < |b| && b[i] != 0
  }

  lemma {:induction false} BytesToBitsKeepsNonzero(b: seq<Byte>)
    ensures AnyByteSet(b) ==> AnyBitSet(BytesToBits(b))
  {
    if AnyByteSet(b) {
      var k :| 0 <= k < |b| && b[k] != 0;
      var bits := BytesToBits(b);
      var prefix := BytesToBits(b[..|b| - 1]);
      if k == |b| - 1 {
        var tail := NatToBits(b[k], 8);
        assert Pow2(8) == 256;
        NatToBitsRoundTrip(b[k], 8);
        BitsToNatZero(tail);
        var j :| 0 <= j < 8 && tail[j];
        assert bits[|prefix| + j] == tail[j];
      } else {
        assert AnyBitSet(prefix) by {
          assert b[..|b| - 1][k] == b[k];
          BytesToBitsKeepsNonzero(b[..|b| - 1]);
        }
        var j :| 0 <= j < |prefix| && prefix[j];
        assert bits[j] == prefix[j];
      }
    }
  }

  lemma {:induction false} BitsToBytesKeepsNonzero(bits: seq<bool>)
    requires |bits| % 8 == 0
    ensures AnyBitSet(bits) ==> AnyByteSet(BitsToBytes(bits))
  {
    if AnyBitSet(bits) {
      var j :| 0 <= j < |bits| && bits[j];
      var n := |bits|;
      var bytes := BitsToBytes(bits);
      var front, last := bits[..n - 8], bits[n - 8..];
      if j >= n - 8 {
        assert last[j - (n - 8)];
        BitsToNatZero(last);
        assert bytes[|bytes| - 1] != 0;
      } else {
        assert front[j];
        BitsToBytesKeepsNonzero(front);
        var k :| 0 <= k < |BitsToBytes(front)| && BitsToBytes(front)[k] != 0;
        assert bytes[k] == BitsToBytes(front)[k];
      }
    }
  }

  /** Reading bytes as a number and writing the number back in as many
      bytes gives the bytes back. */
  lemma {:induction false} BeBytesOfValue(b: seq<Byte>)
    ensures ToBeBytes(FromBeBytes(b), |b|) == b
  {
    if b != [] {
      var n := |b|;
      var high := FromBeBytes(b[..n - 1]);
      var x := FromBeBytes(b);
      ModOfMultiple(x, 256, high, b[n - 1]);
      BeBytesOfValue(b[..n - 1]);
      assert b == b[..n - 1] + [b[n - 1]];
    }
  }

  /** Writing a bit string as a number and reading it back in as many bits
      gives the bits back. */
  lemma {:induction false} BitsOfValue(bits: seq<bool>)
    ensures NatToBits(BitsToNat(bits), |bits|) == bits
  {
    if bits != [] {
      var n := |bits|;
      var high := BitsToNat(bits[..n - 1]);
      var low := if bits[n - 1] then 1 else 0;
      ModOfMultiple(BitsToNat(bits), 2, high, low);
      BitsOfValue(bits[..n - 1]);
      assert bits == bits[..n - 1] + [bits[n - 1]];
    }
  }

  /** Unpacking one more byte appends its eight bits. */
  lemma BytesToBitsSnoc(init: seq<Byte>, v: Byte)
    ensures BytesToBits(init + [v]) == BytesToBits(init) + NatToBits(v, 8)
  {
    var bytes := init + [v];
    assert bytes[..|bytes| - 1] == init && bytes[|bytes| - 1] == v;
  }

  /** If the packed prefix unpacks to `front` and `v` unpacks to `last`,
      the prefix followed by `v` unpacks to `front + last`. */
  lemma UnpackedSnoc(bits: seq<bool>, front: seq<bool>, last: seq<bool>, packed: seq<Byte>, v: Byte)
    requires bits == front + last
    requires BytesToBits(packed) == front && NatToBits(v, 8) == last
    ensures BytesToBits(packed + [v]) == bits
  {
    BytesToBitsSnoc(packed, v);
  }

  /** A length that is a multiple of eight is eight times its byte count. */
  lemma OctetCount(n: nat)
    requires n % 8 == 0
    ensures n == 8 * (n / 8)
  {
  }

  /** Eight times a count is a multiple of eight. */
  lemma OctetsAligned(m: nat)
    ensures (8 * m) % 8 == 0
  {
    ModOfMultiple(8 * m, 8, m, 0);
  }

  /** Packing splits off the last eight bits as the last byte. */
  lemma BitsToBytesSnoc(bits: seq<bool>, m: nat)
    requires |bits| == 8 * m && m > 0
    ensures |bits| % 8 == 0 && (8 * (m - 1)) % 8 == 0
    ensures BitsToNat(bits[8 * (m - 1)..]) < 256
    ensures BitsToBytes(bits) == BitsToBytes(bits[..8 * (m - 1)]) + [BitsToNat(bits[8 * (m - 1)..])]
  {
    OctetsAligned(m);
    OctetsAligned(m - 1);
  }

  /** A bit string is its prefix followed by the rest. */
  lemma SplitBits(s: seq<bool>, k: nat)
    requires k <= |s|
    ensures s == s[..k] + s[k..]
  {
  }

  /** One step of `BytesRoundTrip`: from the claim for all but the last
      eight bits to the claim for the whole string. */
  lemma BitsBytesStep(bits: seq<bool>, m: nat)
    requires |bits| == 8 * m && m > 0 && (8 * m) % 8 == 0 && (8 * (m - 1)) % 8 == 0
    requires BytesToBits(BitsToBytes(bits[..8 * (m - 1)])) == bits[..8 * (m - 1)]
    ensures BytesToBits(BitsToBytes(bits)) == bits
  {
    var k := 8 * (m - 1);
    var front, last := bits[..k], bits[k..];
    assert BitsToNat(last) < 256 by {
      BitsToBytesSnoc(bits, m);
    }
    var packed, v: Byte := BitsToBytes(front), BitsToNat(last);
    assert BitsToBytes(bits) == packed + [v] by {
      BitsToBytesSnoc(bits, m);
    }
    assert BytesToBits(packed + [v]) == bits by {
      BitsOfValue(last);
      SplitBits(bits, k);
      UnpackedSnoc(bits, front, last, packed, v);
    }
  }

  /** `BitsBytesRoundTrip` for a string of `m` bytes, by induction on `m`. */
  lemma {:induction false} BytesRoundTrip(bits: seq<bool>, m: nat)
    requires |bits| == 8 * m && (8 * m) % 8 == 0
    ensures BytesToBits(BitsToBytes(bits)) == bits
    decreases m
  {
    if m > 0 {
      OctetsAligned(m - 1);
      BytesRoundTrip(bits[..8 * (m - 1)], m - 1);
      BitsBytesStep(bits, m);
    }
  }

  /** Packing bits into bytes and unpacking them again is the identity. */
  lemma BitsBytesRoundTrip(bits: seq<bool>)
    requires |bits| % 8 == 0
    ensures BytesToBits(BitsToBytes(bits)) == bits
  {
    OctetCount(|bits|);
    BytesRoundTrip(bits, |bits| / 8);
  }
}
