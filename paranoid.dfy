/** The legacy `paranoid` crate: an earlier copy of the wrapper family.
    `Protected<T>` owns the raw value; `Equatable`, `Exportable`, and the
    root crate's `SafeEq` (src/safe_eq.rs) each wrap another `Paranoid`
    value and delegate `new` and `inner` to it. As in `Layers`, a value
    carries its layers and `Shape` lists them outermost first. */
module Paranoid {
  import opened Wrappers
  import opened Bits
  import Conversions

  datatype Layer = EquatableLayer | ExportableLayer | SafeEqLayer

  datatype Paranoid<T> =
    | Protected(raw: T)
    | Equatable(wrapped: Paranoid<T>)
    | Exportable(wrapped: Paranoid<T>)
    | SafeEq(wrapped: Paranoid<T>)

  function Shape<T>(c: Paranoid<T>): seq<Layer>
  {
    match c
    case Protected(_) => []
    case Equatable(w) => [EquatableLayer] + Shape(w)
    case Exportable(w) => [ExportableLayer] + Shape(w)
    case SafeEq(w) => [SafeEqLayer] + Shape(w)
  }

  /** `inner`: every layer returns its wrapped layer's inner value. */
  function Inner<T>(c: Paranoid<T>): T
  {
    match c
    case Protected(x) => x
    case Equatable(w) => Inner(w)
    case Exportable(w) => Inner(w)
    case SafeEq(w) => Inner(w)
  }

  /** `new`: `Protected::new` wraps the value; every other layer calls its
      wrapped type's `new` and wraps the result. */
  function New<T>(shape: seq<Layer>, x: T): (r: Paranoid<T>)
  {
    if shape == [] then Protected(x)
    else if shape[0] == EquatableLayer then Equatable(New(shape[1..], x))
    else if shape[0] == ExportableLayer then Exportable(New(shape[1..], x))
    else SafeEq(New(shape[1..], x))
  }

  /** `new` and `inner` are inverse: `inner` of `new(x)` is `x` at every
      nesting, and rebuilding a value from its shape and inner value gives
      the value back. */
  lemma {:induction false} NewInner<T>(shape: seq<Layer>, x: T, c: Paranoid<T>)
    ensures Inner(New(shape, x)) == x && Shape(New(shape, x)) == shape
    ensures New(Shape(c), Inner(c)) == c
    decreases |shape| + |Shape(c)|
  {
    if shape != [] {
      NewInner(shape[1..], x, Protected(x));
      assert shape == [shape[0]] + shape[1..];
    }
    match c
    case Protected(_) =>
    case Equatable(w) =>
      NewInner([], x, w);
    case Exportable(w) =>
      NewInner([], x, w);
    case SafeEq(w) =>
      NewInner([], x, w);
  }

  /** `Equatable::from(x)`: wrap an existing value, inner value unchanged. */
  function EquatableFrom<T>(x: Paranoid<T>): (r: Paranoid<T>)
    ensures Inner(r) == Inner(x) && Shape(r) == [EquatableLayer] + Shape(x)
  {
    Equatable(x)
  }

  /** The derived `zeroize` on `Protected`, called explicitly: the raw value
      is overwritten by its zero. Only `Protected` implements `Zeroize` in
      this crate; its `ZeroizeOnDrop` is a marker with no `Drop`, so nothing
      runs when a value goes out of scope. */
  function Zeroized<T>(c: Paranoid<T>, zero: T): (r: Paranoid<T>)
    requires c.Protected?
    ensures r.Protected? && Inner(r) == zero
    ensures New(Shape(c), zero) == r
  {
    Protected(zero)
  }

  // ---- conversions ----

  /** `From<T> for Protected<T>`. */
  function FromValue<T>(x: T): (r: Paranoid<T>)
    ensures r.Protected? && Inner(r) == x
  {
    Protected(x)
  }

  /** `From<[char; N]> for Protected<String>`: the characters collected in
      order. */
  function FromChars(cs: seq<char>): (r: Paranoid<string>)
    ensures r.Protected? && |Inner(r)| == |cs| && forall i :: 0 <= i < |cs| ==> Inner(r)[i] == cs[i]
  {
    Protected(Conversions.CollectChars(cs))
  }

  /** `From<GenericArray<u8, U>> for Protected<[u8; N]>`: only when the
      lengths agree, the same bytes in order. */
  function FromGenericArray(g: seq<Byte>, n: nat): (r: Paranoid<seq<Byte>>)
    requires |g| == n
    ensures r.Protected? && Inner(r) == g
  {
    New([], g)
  }

  /** The tests: `new([0; 32])`; 42 and `[42; 32]` through `into`;
      "cookies!!!" from ten characters; `[1, 2, 3]` from a generic array. */
  lemma ConversionExamples()
    ensures New([], seq(32, _ => 0)).raw == seq(32, _ => 0)
    ensures FromValue(42).raw == 42
    ensures FromValue(seq(32, _ => 42)).raw == seq(32, _ => 42)
    ensures FromChars(['c', 'o', 'o', 'k', 'i', 'e', 's', '!', '!', '!']).raw == "cookies!!!"
    ensures FromGenericArray([1, 2, 3], 3).raw == [1, 2, 3]
  {
  }

  // ---- `Exportable` ----

  /** `PartialEq for Exportable<Equatable<T>>`: the inner values' ordinary
      `==`, not the constant-time one. No other `Exportable` has `==`. */
  function ExportableEq<T(==)>(x: Paranoid<T>, y: Paranoid<T>): (r: bool)
    requires x.Exportable? && x.wrapped.Equatable? && Shape(y) == Shape(x)
    ensures r <==> Inner(x) == Inner(y)
  {
    Inner(x) == Inner(y)
  }

  /** `Serialize for Exportable<T>`: the inner value's own serialiser. */
  function Serialize<T, S>(x: Paranoid<T>, enc: T -> S): S
    requires x.Exportable?
  {
    enc(Inner(x))
  }

  /** `Deserialize for Exportable<T>`: decode the inner value, then
      `Exportable::new`; a decoding error passes through. */
  function Deserialize<T, S, E>(shape: seq<Layer>, s: S, dec: S -> Result<T, E>): (r: Result<Paranoid<T>, E>)
    requires |shape| > 0 && shape[0] == ExportableLayer
    ensures r.Ok? <==> dec(s).Ok?
    ensures r.Ok? ==> r.value.Exportable? && Shape(r.value) == shape && Inner(r.value) == dec(s).value
    ensures r.Err? ==> r.error == dec(s).error
  {
    match dec(s)
    case Ok(v) => NewInner(shape, v, Protected(v)); Ok(New(shape, v))
    case Err(e) => Err(e)
  }

  /** Whenever the inner serialiser round-trips, so does an `Exportable`
      value at any nesting. */
  lemma ExportableRoundTrip<T, S, E>(x: Paranoid<T>, enc: T -> S, dec: S -> Result<T, E>)
    requires x.Exportable? && dec(enc(Inner(x))) == Ok(Inner(x))
    ensures Deserialize(Shape(x), Serialize(x, enc), dec) == Ok(x)
  {
    NewInner([], Inner(x), x);
  }

  /** `bincode` for a `u8`: the byte itself; reading needs one byte. */
  function BincodeU8(n: Byte): seq<Byte>
  {
    [n]
  }

  function UnbincodeU8(b: seq<Byte>): Result<Byte, ()>
  {
    if |b| >= 1 then Ok(b[0]) else Err(())
  }

  /** The tests: 42 in an `Exportable<Protected<u8>>` round-trips through
      bincode, and so does 42 in an `Exportable<Equatable<Protected<u8>>>`,
      which then compares equal to the original. */
  lemma ExportableExamples()
    ensures var x := New([ExportableLayer], 42 as Byte);
            var z := Deserialize([ExportableLayer], Serialize(x, BincodeU8), UnbincodeU8);
            z.Ok? && Inner(z.value) == 42
    ensures var x := New([ExportableLayer, EquatableLayer], 42 as Byte);
            var z := Deserialize([ExportableLayer, EquatableLayer], Serialize(x, BincodeU8), UnbincodeU8);
            z.Ok? && ExportableEq(z.value, x)
  {
    ExportableRoundTrip(New([ExportableLayer], 42 as Byte), BincodeU8, UnbincodeU8);
    ExportableRoundTrip(New([ExportableLayer, EquatableLayer], 42 as Byte), BincodeU8, UnbincodeU8);
  }
}

/** The legacy constant-time equality, shared word for word by the
    `paranoid` crate's `equatable` module and the root crate's
    src/safe_eq.rs: `ConstantTimeEq` for arrays, for the unsigned integer
    types only, and for `NonZeroU16`; `==` on `Equatable<T>` and `SafeEq<T>`
    against the same type through it. */
module ParanoidEq {
  import opened Bits
  import opened Paranoid
  import ConstantTime

  /** The unsigned integer types with an impl; there is none for a signed
      type. */
  datatype Width = W8 | W16 | W32 | W64 | W128 | WSize

  /** Values of the types with an impl. */
  datatype Value =
    | Unsigned(width: Width, n: nat)
    | NonZero16(v: NonZeroU16)
    | Array(elems: seq<Value>)

  /** Their types; `usize` is taken as 64 bits wide. */
  datatype Ty = UnsignedTy(width: Width) | NonZero16Ty | ArrayTy(elem: Ty, len: nat)

  function Limit(w: Width): nat
  {
    match w
    case W8 => Pow2(8)
    case W16 => Pow2(16)
    case W32 => Pow2(32)
    case W64 => Pow2(64)
    case W128 => Pow2(128)
    case WSize => Pow2(64)
  }

  predicate HasType(v: Value, t: Ty)
  {
    match v
    case Unsigned(w, n) => t == UnsignedTy(w) && n < Limit(w)
    case NonZero16(_) => t == NonZero16Ty
    case Array(xs) => t.ArrayTy? && |xs| == t.len && forall i :: 0 <= i < |xs| ==> HasType(xs[i], t.elem)
  }

  /** What `constant_time_eq` decides: integers (through `subtle`'s `ct_eq`)
      and `NonZeroU16`s by their values, arrays by every pair the zip of
      their iterators yields. Values of different types cannot meet in Rust. */
  function CtEq(a: Value, b: Value): bool
  {
    match (a, b)
    case (Unsigned(_, x), Unsigned(_, y)) => x == y
    case (NonZero16(x), NonZero16(y)) => x == y
    case (Array(xs), Array(ys)) => forall i :: 0 <= i < |xs| && i < |ys| ==> CtEq(xs[i], ys[i])
    case _ => false
  }

  /** On two values of one type, constant-time equality is equality. */
  lemma {:induction false} CtEqIsEquality(a: Value, b: Value, t: Ty)
    requires HasType(a, t) && HasType(b, t)
    ensures CtEq(a, b) <==> a == b
  {
    match (a, b)
    case (Array(xs), Array(ys)) =>
      forall i | 0 <= i < |xs|
        ensures CtEq(xs[i], ys[i]) <==> xs[i] == ys[i]
      {
        CtEqIsEquality(xs[i], ys[i], t.elem);
      }
      if CtEq(a, b) {
        assert xs == ys;
      }
    case _ =>
  }

  /** `constant_time_eq`. The array impl folds `x &= ai.constant_time_eq(bi)`
      over every pair without stopping at a mismatch, and `visited` lists
      the pairs it compared. The `NonZeroU16` impl compares copies of the
      underlying values and zeroizes both copies, whose final values are
      `copies`. */
  method ConstantTimeEq(a: Value, b: Value) returns (x: bool, ghost visited: seq<nat>, ghost copies: seq<U16>)
    ensures x == CtEq(a, b)
    ensures a.Array? && b.Array? ==>
      visited == ConstantTime.Indices(if |a.elems| <= |b.elems| then |a.elems| else |b.elems|)
    ensures a.NonZero16? && b.NonZero16? ==> copies == [0, 0]
    decreases a
  {
    visited, copies := [], [];
    match (a, b)
    case (Unsigned(_, p), Unsigned(_, q)) =>
      x := p == q;
    case (NonZero16(p), NonZero16(q)) =>
      var aInner: U16 := p;
      var bInner: U16 := q;
      x := aInner == bInner;
      aInner := 0;
      bInner := 0;
      copies := [aInner, bInner];
    case (Array(xs), Array(ys)) =>
      var n := if |xs| <= |ys| then |xs| else |ys|;
      x := true;
      var i := 0;
      while i < n
        invariant 0 <= i <= n
        invariant x <==> forall k :: 0 <= k < i ==> CtEq(xs[k], ys[k])
        invariant visited == ConstantTime.Indices(i)
      {
        var e, _, _ := ConstantTimeEq(xs[i], ys[i]);
        x := x && e;
        visited := visited + [i];
        i := i + 1;
      }
    case _ =>
      x := false;
  }

  /** `PartialEq` and `constant_time_eq` for `Equatable<T>` and `SafeEq<T>`:
      only against the same type, by constant-time equality of the inner
      values. */
  function LayerEq(x: Paranoid<Value>, y: Paranoid<Value>): (r: bool)
    requires (x.Equatable? || x.SafeEq?) && Shape(y) == Shape(x)
  {
    CtEq(Inner(x), Inner(y))
  }

  /** For values of one type, `==` through `Equatable` or `SafeEq` is
      equality of the inner values, and it agrees with the plain `==` that
      `Exportable<Equatable<T>>` uses: only the timing differs. */
  lemma LayerEqIsInnerEquality(x: Paranoid<Value>, y: Paranoid<Value>, t: Ty)
    requires (x.Equatable? || x.SafeEq?) && Shape(y) == Shape(x)
    requires HasType(Inner(x), t) && HasType(Inner(y), t)
    ensures LayerEq(x, y) <==> Inner(x) == Inner(y)
    ensures x.Equatable? ==> (LayerEq(x, y) <==> ExportableEq(Exportable(x), Exportable(y)))
  {
    CtEqIsEquality(Inner(x), Inner(y), t);
  }

  /** Sixteen zero bytes. */
  function ZeroBytes16(): (r: Value)
    ensures HasType(r, ArrayTy(UnsignedTy(W8), 16))
  {
    Array(seq(16, _ => Unsigned(W8, 0)))
  }

  /** The tests: `[0; 16]` equals `[0; 16]` through `Equatable` and through
      `SafeEq`; `[0; 16].into()` then `Equatable::from` equals
      `Equatable::new([0; 16])`; 27 equals 27 and differs from 0. */
  lemma EqualityExamples()
    ensures LayerEq(New([EquatableLayer], ZeroBytes16()), New([EquatableLayer], ZeroBytes16()))
    ensures LayerEq(New([SafeEqLayer], ZeroBytes16()), New([SafeEqLayer], ZeroBytes16()))
    ensures EquatableFrom(FromValue(ZeroBytes16())) == New([EquatableLayer], ZeroBytes16())
    ensures LayerEq(Equatable(Protected(Unsigned(W8, 27))), Equatable(Protected(Unsigned(W8, 27))))
    ensures !LayerEq(Equatable(Protected(Unsigned(W8, 27))), Equatable(Protected(Unsigned(W8, 0))))
  {
    var t := ArrayTy(UnsignedTy(W8), 16);
    NewInner([EquatableLayer], ZeroBytes16(), Protected(ZeroBytes16()));
    NewInner([SafeEqLayer], ZeroBytes16(), Protected(ZeroBytes16()));
    CtEqIsEquality(ZeroBytes16(), ZeroBytes16(), t);
  }
}
