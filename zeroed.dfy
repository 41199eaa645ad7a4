/** `Zeroed`: an all-zero value for the array sizes and integer types the
    library lists, and for `Protected`, `Equatable` and `Exportable` around
    one. */
module Zeroed {
  import opened Layers

  /** `[u8; N]` implements `Zeroed` for `N` in 1..=32 and 48, 64, 128, 256,
      512, 1024. */
  predicate U8ArraySupported(n: nat)
  {
    (1 <= n <= 32) || n == 48 || n == 64 || n == 128 || n == 256 || n == 512 || n == 1024
  }

  /** `[u16; N]`: the same sizes without 1024. */
  predicate U16ArraySupported(n: nat)
  {
    U8ArraySupported(n) && n != 1024
  }

  /** `zeroed()` for a supported array: `[0; N]`. */
  function ZeroedArray(n: nat): (r: seq<nat>)
    requires U8ArraySupported(n)
    ensures |r| == n && forall i :: 0 <= i < n ==> r[i] == 0
  {
    seq(n, _ => 0)
  }

  /** The wrappers with a `Zeroed` impl: `Protected`, `Equatable` and
      `Exportable` (not `Usage` or `Indexable`). */
  predicate ZeroableShape(shape: seq<Adapter>)
  {
    forall i :: 0 <= i < |shape| ==> shape[i] == EquatableAdapter || shape[i] == ExportableAdapter
  }

  /** `zeroed()` for a wrapper: the wrapped type's `zeroed()`, wrapped. */
  function ZeroedControlled<T>(shape: seq<Adapter>, zero: T): (r: Controlled<T>)
    requires ZeroableShape(shape)
    ensures Shape(r) == shape && Inner(r) == zero
  {
    if shape == [] then Protected(zero)
    else if shape[0] == EquatableAdapter then Equatable(ZeroedControlled(shape[1..], zero))
    else Exportable(ZeroedControlled(shape[1..], zero))
  }

  /** Every size in the list, and no other, is supported; `u16` arrays stop
      at 512. A zeroed wrapped array unwraps to all zeros. */
  lemma ZeroedFacts(shape: seq<Adapter>, n: nat)
    requires ZeroableShape(shape) && U8ArraySupported(n)
    ensures U8ArraySupported(n) ==> n <= 1024
    ensures !U16ArraySupported(1024) && U16ArraySupported(512) && !U8ArraySupported(33)
    ensures IsControlled(ZeroedControlled(shape, ZeroedArray(n)))
    ensures forall i :: 0 <= i < n ==> RiskyUnwrap(ZeroedControlled(shape, ZeroedArray(n)))[i] == 0
  {
    var z := ZeroedControlled(shape, ZeroedArray(n));
    IsControlledIsShape(z);
  }
}
