/** `ProtectedRef`: a borrowed view of a controlled value's inner value (or
    of some `AsRef` projection of it) that only this library can open. */
module ProtectedRefs {
  import opened Bits
  import opened Layers
  import Utf8

  /** `ProtectedRef<'a, A>(&'a A)`. The field is private, so a reference is
      only ever built by `AsProtectedRef` and `StrAsProtectedRef` below. */
  datatype ProtectedRef<A> = ProtectedRef(target: A)

  /** `inner_ref` (crate-private): the referenced value, unchanged. */
  function InnerRef<A>(r: ProtectedRef<A>): A
  {
    r.target
  }

  /** The blanket `AsProtectedRef` impl for controlled values: a view, through
      the inner value's `AsRef<A>` (here `asRef`), of the inner value. */
  function AsProtectedRef<T, A>(c: Controlled<T>, asRef: T -> A): (r: ProtectedRef<A>)
    requires IsControlled(c)
    ensures InnerRef(r) == asRef(Inner(c))
  {
    ProtectedRef(asRef(RiskyUnwrap(c)))
  }

  /** `AsProtectedRef<[u8]>` for `str` and `Cow<str>`: the UTF-8 bytes. */
  function StrAsProtectedRef(s: string): (r: ProtectedRef<seq<Byte>>)
    ensures InnerRef(r) == Utf8.Encode(s)
  {
    ProtectedRef(Utf8.Encode(s))
  }

  /** A byte view of a string loses nothing: distinct strings give
      distinct views. */
  lemma StrViewsAreDistinct(s: string, t: string)
    ensures StrAsProtectedRef(s) == StrAsProtectedRef(t) <==> s == t
  {
    if StrAsProtectedRef(s) == StrAsProtectedRef(t) {
      Utf8.EncodeInjective(s, t);
    }
  }
}
