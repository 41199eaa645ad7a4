/** Constant-time equality (`ConstantTimeEq`) and the `==` that `Equatable`
    and `Exportable` define through it. Arrays and byte slices are compared by
    a non-short-circuiting `&=` fold that evaluates every element pair even
    after a mismatch; a byte slice first compares lengths; `str` and `String`
    compare their UTF-8 bytes. Each loop is a method that records the indices
    it visits in a ghost sequence. */
module ConstantTime {
  import opened Bits
  import opened Layers
  import Utf8

  /** The integer impls delegate to the `subtle` crate's `ct_eq`, whose
      result is ordinary equality. */
  function IntCtEq(a: int, b: int): bool
  {
    a == b
  }

  /** `0, 1, …, n-1`: the order in which a loop over `n` pairs visits them. */
  function Indices(n: nat): (r: seq<nat>)
    ensures |r| == n && forall i :: 0 <= i < n ==> r[i] == i
  {
    seq(n, i => i)
  }

  /** The value of `x` after the fold has processed the first `k` pairs:
      `x = true; x &= eq(a[0], b[0]); …; x &= eq(a[k-1], b[k-1])`. */
  function FoldPrefix<T>(a: seq<T>, b: seq<T>, eq: (T, T) -> bool, k: nat): bool
    requires k <= |a| && k <= |b|
  {
    if k == 0 then true else FoldPrefix(a, b, eq, k - 1) && eq(a[k - 1], b[k - 1])
  }

  /** The fold over `a.iter().zip(b.iter())`: as many pairs as the shorter side. */
  function ArrayFold<T>(a: seq<T>, b: seq<T>, eq: (T, T) -> bool): bool
  {
    FoldPrefix(a, b, eq, if |a| <= |b| then |a| else |b|)
  }

  lemma {:induction false} FoldPrefixIsAllPairs<T>(a: seq<T>, b: seq<T>, eq: (T, T) -> bool, k: nat)
    requires k <= |a| && k <= |b|
    ensures FoldPrefix(a, b, eq, k) <==> forall i :: 0 <= i < k ==> eq(a[i], b[i])
  {
    if k > 0 {
      FoldPrefixIsAllPairs(a, b, eq, k - 1);
    }
  }

  /** The fold is true exactly when every pair compares equal; when the
      element comparison is equality, exactly when the arrays are equal. */
  lemma ArrayFoldMeaning<T>(a: seq<T>, b: seq<T>, eq: (T, T) -> bool)
    requires |a| == |b|
    ensures ArrayFold(a, b, eq) <==> forall i :: 0 <= i < |a| ==> eq(a[i], b[i])
    ensures (forall i :: 0 <= i < |a| ==> (eq(a[i], b[i]) <==> a[i] == b[i])) ==>
              (ArrayFold(a, b, eq) <==> a == b)
  {
    FoldPrefixIsAllPairs(a, b, eq, |a|);
  }

  /** `ConstantTimeEq for [T; N]`: both arrays have length `N`. */
  method ArrayConstantTimeEq<T>(a: seq<T>, b: seq<T>, eq: (T, T) -> bool) returns (x: bool, ghost visited: seq<nat>)
    requires |a| == |b|
    ensures x == ArrayFold(a, b, eq)
    ensures visited == Indices(|a|)
  {
    x := true;
    visited := [];
    var i := 0;
    while i < |a|
      invariant 0 <= i <= |a|
      invariant x == FoldPrefix(a, b, eq, i)
      invariant visited == Indices(i)
    {
      var e := eq(a[i], b[i]);
      x := x && e;
      visited := visited + [i];
      i := i + 1;
    }
  }

  /** The meaning of `ConstantTimeEq for [u8]`: equal lengths, then the fold. */
  function SliceEq(a: seq<Byte>, b: seq<Byte>): bool
  {
    |a| == |b| && ArrayFold<int>(a, b, IntCtEq)
  }

  lemma SliceEqIsEquality(a: seq<Byte>, b: seq<Byte>)
    ensures SliceEq(a, b) <==> a == b
  {
    if |a| == |b| {
      ArrayFoldMeaning<int>(a, b, IntCtEq);
      assert forall i :: 0 <= i < |a| ==> (IntCtEq(a[i], b[i]) <==> a[i] == b[i]);
    }
  }

  /** `ConstantTimeEq for [u8]`: differing lengths return `false` before any
      byte is compared; otherwise every byte pair is visited. */
  method SliceConstantTimeEq(a: seq<Byte>, b: seq<Byte>) returns (x: bool, ghost visited: seq<nat>)
    ensures x == SliceEq(a, b)
    ensures visited == if |a| == |b| then Indices(|a|) else []
  {
    if |a| != |b| {
      return false, [];
    }
    x, visited := ArrayConstantTimeEq<int>(a, b, IntCtEq);
  }

  /** The meaning of `ConstantTimeEq for str` and `for String`. */
  function StrEq(s: string, t: string): bool
  {
    SliceEq(Utf8.Encode(s), Utf8.Encode(t))
  }

  /** Comparing UTF-8 bytes is comparing strings. */
  lemma StrEqIsEquality(s: string, t: string)
    ensures StrEq(s, t) <==> s == t
  {
    SliceEqIsEquality(Utf8.Encode(s), Utf8.Encode(t));
    if Utf8.Encode(s) == Utf8.Encode(t) {
      Utf8.EncodeInjective(s, t);
    }
  }

  /** `ConstantTimeEq for str` / `for String`: the `[u8]` rule on `as_bytes`. */
  method StrConstantTimeEq(s: string, t: string) returns (x: bool, ghost visited: seq<nat>)
    ensures x == StrEq(s, t)
    ensures visited == if |Utf8.Encode(s)| == |Utf8.Encode(t)| then Indices(|Utf8.Encode(s)|) else []
  {
    x, visited := SliceConstantTimeEq(Utf8.Encode(s), Utf8.Encode(t));
  }

  /** `ConstantTimeEq for NonZeroU16`: compare copies of the underlying `u16`
      values, then zeroize both copies before returning. */
  method NonZeroU16ConstantTimeEq(a: NonZeroU16, b: NonZeroU16) returns (result: bool, ghost aCopy: U16, ghost bCopy: U16)
    ensures result <==> a == b
    ensures aCopy == 0 && bCopy == 0
  {
    var aInner: U16 := a;
    var bInner: U16 := b;
    result := IntCtEq(aInner, bInner);
    aInner := 0;
    bInner := 0;
    aCopy, bCopy := aInner, bInner;
  }

  /** `PartialEq` and `ConstantTimeEq` for `Equatable` and for `Exportable`
      against any controlled value with the same inner type: constant-time
      equality (`ct`) of the two inner values. */
  function AdapterEq<T>(x: Controlled<T>, y: Controlled<T>, ct: (T, T) -> bool): bool
    requires x.Equatable? || x.Exportable?
  {
    ct(Inner(x), Inner(y))
  }

  predicate ComparableShape(shape: seq<Adapter>)
  {
    |shape| > 0 && (shape[0] == EquatableAdapter || shape[0] == ExportableAdapter)
  }

  /** Equality through adapters compares the innermost raw values, whatever
      the order or depth of the nesting on either side. */
  lemma AdapterEqIgnoresNesting<T>(s1: seq<Adapter>, s2: seq<Adapter>, a: T, b: T, ct: (T, T) -> bool)
    requires ComparableShape(s1)
    ensures var x := InitFromInner(s1, a);
            (x.Equatable? || x.Exportable?) && AdapterEq(x, InitFromInner(s2, b), ct) == ct(a, b)
  {
  }

  /** For byte arrays, `==` through any nesting is equality of the arrays. */
  lemma AdapterEqOnByteArrays(x: Controlled<seq<Byte>>, y: Controlled<seq<Byte>>)
    requires x.Equatable? || x.Exportable?
    requires |Inner(x)| == |Inner(y)|
    ensures AdapterEq(x, y, (p, q) => ArrayFold<int>(p, q, IntCtEq)) <==> Inner(x) == Inner(y)
  {
    SliceEqIsEquality(Inner(x), Inner(y));
  }

  /** The tests: `Equatable::new(27)` equals `Equatable::new(27)` and not
      `Equatable::new(0)`; `Equatable::from([0; 16])` equals
      `Equatable::new([0; 16])`; an `Equatable<Protected<u8>>` holding 42 equals
      an `Exportable<Equatable<Protected<u8>>>` holding 42. */
  lemma EquatableExamples()
    ensures AdapterEq(Equatable(Protected(27)), Equatable(Protected(27)), IntCtEq)
    ensures !AdapterEq(Equatable(Protected(27)), Equatable(Protected(0)), IntCtEq)
    ensures AdapterEq(Equatable(Protected(seq(16, _ => 0))), InitFromInner([EquatableAdapter], seq(16, _ => 0)),
                      (p, q) => ArrayFold<int>(p, q, IntCtEq))
    ensures AdapterEq(Equatable(Protected(42)), Exportable(Equatable(Protected(42))), IntCtEq)
  {
    var z: seq<Byte> := seq(16, _ => 0);
    AdapterEqOnByteArrays(Equatable(Protected(z)), InitFromInner([EquatableAdapter], z));
  }
}
