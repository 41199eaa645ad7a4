/** `Indexable`: an adapter that lets a controlled array be indexed. The
    element comes back raw, not wrapped. */
module IndexableAccess {
  import opened Layers

  /** `Index<usize> for Indexable<T>`: element `i` of the inner value. An
      out-of-range index panics, so it is excluded. */
  function Index<T>(x: Controlled<seq<T>>, i: nat): (r: T)
    requires x.Indexable? && i < |Inner(x)|
    ensures r == Inner(x)[i]
  {
    Inner(x.wrapped)[i]
  }

  /** `Indexable::new(x)` wraps through the wrapped layer's `init_from_inner`,
      so indexing it reads `x`; the test reads 1 at index 0 of `[1, 2, 3, 4]`. */
  lemma IndexableNew<T>(shape: seq<Adapter>, x: seq<T>, i: nat)
    requires i < |x|
    ensures InitFromInner([IndexableAdapter] + shape, x).Indexable?
    ensures Index(InitFromInner([IndexableAdapter] + shape, x), i) == x[i]
    ensures Index(Indexable(Protected([1, 2, 3, 4])), 0) == 1
  {
    assert ([IndexableAdapter] + shape)[0] == IndexableAdapter;
  }
}
