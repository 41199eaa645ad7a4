/** The hashing traits: `OutputSize`, `FixedOutput::finalize_fixed`,
    `Update::chain` and `FixedOutputReset::finalize_reset`.

    The traits leave `update`, `finalize_into` and `finalize_into_reset` to
    the implementor. A deterministic hasher's state is a function of the
    inputs it has absorbed, so a hasher is modelled by that sequence of
    inputs, and `finalize_into` by a parameter `into` that writes the output
    for an input sequence into the buffer it is handed. */
module HashTraits {
  import opened Bits
  import opened Layers
  import opened Zeroed

  /** `OutputSize::SIZE` of a controlled type whose inner value is `[u8; N]`:
      `N`, the length of every value of the type. */
  function OutputSize(c: Controlled<seq<Byte>>): (size: nat)
  {
    |Inner(c)|
  }

  /** The output `finalize_fixed` produces after `inputs`: `zeroed()` of the
      output type, then `finalize_into` on it. */
  function Finalized<T>(shape: seq<Adapter>, n: nat, inputs: seq<T>, into: (seq<T>, seq<Byte>) -> seq<Byte>)
    : (r: Controlled<seq<Byte>>)
    requires ZeroableShape(shape) && U8ArraySupported(n)
    ensures Shape(r) == shape
  {
    var zero: seq<Byte> := ZeroedArray(n);
    SetInner(ZeroedControlled(shape, zero), into(inputs, zero))
  }

  /** The output is the buffer `finalize_into` wrote, in the output type's
      wrappers, and has the type's `OutputSize`; a `finalize_into` that
      leaves a byte alone leaves it zero. */
  lemma FinalizedOutput<T>(shape: seq<Adapter>, n: nat, inputs: seq<T>, into: (seq<T>, seq<Byte>) -> seq<Byte>, k: nat)
    requires ZeroableShape(shape) && U8ArraySupported(n) && |into(inputs, ZeroedArray(n))| == n
    requires k < n && into(inputs, ZeroedArray(n))[k] == ZeroedArray(n)[k]
    ensures IsControlled(Finalized(shape, n, inputs, into))
    ensures RiskyUnwrap(Finalized(shape, n, inputs, into)) == into(inputs, ZeroedArray(n))
    ensures OutputSize(Finalized(shape, n, inputs, into)) == n
    ensures RiskyUnwrap(Finalized(shape, n, inputs, into))[k] == 0
  {
    var zero: seq<Byte> := ZeroedArray(n);
    var z := ZeroedControlled(shape, zero);
    var r := Finalized(shape, n, inputs, into);
    SetInnerThenInner(z, into(inputs, zero), into(inputs, zero));
    IsControlledIsShape(r);
  }

  /** A hasher: the inputs it has absorbed since it was created or reset. */
  class Hasher<T> {
    var absorbed: seq<T>

    /** A fresh hasher has absorbed nothing. */
    constructor ()
      ensures absorbed == []
    {
      absorbed := [];
    }

    /** `Update::update(data)`. */
    method Update(data: T)
      modifies this
      ensures absorbed == old(absorbed) + [data]
    {
      absorbed := absorbed + [data];
    }

    /** `Update::chain(data)`: `update(data)`, then the same hasher back. */
    method Chain(data: T) returns (self: Hasher<T>)
      modifies this
      ensures self == this && absorbed == old(absorbed) + [data]
    {
      Update(data);
      self := this;
    }

    /** `FixedOutput::finalize_fixed`: start from `Zeroed::zeroed()` and let
        `finalize_into` write the output into it. The hasher is consumed. */
    method FinalizeFixed(shape: seq<Adapter>, n: nat, into: (seq<T>, seq<Byte>) -> seq<Byte>)
      returns (out: Controlled<seq<Byte>>)
      requires ZeroableShape(shape) && U8ArraySupported(n)
      ensures out == Finalized(shape, n, absorbed, into)
    {
      var zero: seq<Byte> := ZeroedArray(n);
      out := ZeroedControlled(shape, zero);
      out := SetInner(out, into(absorbed, Inner(out)));
    }

    /** `FixedOutputReset::finalize_reset`: the same output, after which
        `finalize_into_reset` leaves the hasher as if fresh. */
    method FinalizeReset(shape: seq<Adapter>, n: nat, into: (seq<T>, seq<Byte>) -> seq<Byte>)
      returns (out: Controlled<seq<Byte>>)
      requires ZeroableShape(shape) && U8ArraySupported(n)
      modifies this
      ensures out == Finalized(shape, n, old(absorbed), into)
      ensures absorbed == []
    {
      var zero: seq<Byte> := ZeroedArray(n);
      out := ZeroedControlled(shape, zero);
      out := SetInner(out, into(absorbed, Inner(out)));
      absorbed := [];
    }
  }

  /** Chaining two inputs into a fresh hasher and finalizing gives the
      output for both inputs in order; a reset hasher given the same inputs
      gives the same output again. */
  method ChainExample(a: seq<Byte>, b: seq<Byte>, into: (seq<seq<Byte>>, seq<Byte>) -> seq<Byte>)
    returns (first: Controlled<seq<Byte>>, second: Controlled<seq<Byte>>)
    ensures first == second == Finalized([], 32, [a, b], into)
  {
    var h := new Hasher<seq<Byte>>();
    var h2 := h.Chain(a);
    h2 := h2.Chain(b);
    assert h2.absorbed == [a, b];
    first := h2.FinalizeReset([], 32, into);
    h2 := h2.Chain(a);
    h2 := h2.Chain(b);
    assert h2.absorbed == [a, b];
    second := h2.FinalizeFixed([], 32, into);
  }
}
