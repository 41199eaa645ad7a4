/** `BitXor` for `Protected` and indexing an array by a `Protected<usize>`. */
module Ops {
  import opened Bits
  import opened Layers
  import Combinators

  /** `a ^ b` on two `Protected` integers: a `zip` that consumes both and
      wraps the xor of the inner values in a plain `Protected`. */
  function Xor(a: Controlled<nat>, b: Controlled<nat>): (r: Controlled<nat>)
    requires a.Protected? && b.Protected?
    ensures r.Protected? && Inner(r) == BitXor(Inner(a), Inner(b))
  {
    Combinators.Zip(a, b, BitXor)
  }

  /** Xor-ing twice with the same key gives the value back, and xor stays
      within the operands' width. */
  lemma XorTwice(a: Controlled<nat>, b: Controlled<nat>, width: nat)
    requires a.Protected? && b.Protected?
    ensures RiskyUnwrap(Xor(Xor(a, b), b)) == RiskyUnwrap(a)
    ensures Inner(a) < Pow2(width) && Inner(b) < Pow2(width) ==> Inner(Xor(a, b)) < Pow2(width)
  {
    XorInvolutive(Inner(a), Inner(b));
    if Inner(a) < Pow2(width) && Inner(b) < Pow2(width) {
      XorBounded(Inner(a), Inner(b), width);
    }
  }

  /** `Index<Protected<usize>> for [T; N]`: the element at the wrapped index.
      An index of `N` or more panics, so it is excluded. */
  function IndexByProtected<T>(arr: seq<T>, index: Controlled<nat>): (r: T)
    requires index.Protected? && Inner(index) < |arr|
    ensures r == arr[RiskyUnwrap(index)]
  {
    arr[index.raw]
  }
}
