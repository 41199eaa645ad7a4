/** The default methods of the `Controlled` trait that build new values:
    `generate`, `generate_ok`, `map`, `zip`, `zip_ref` and `iter`. The
    in-place ones (`update`, `update_with`, `update_with_ref`) are methods of
    `Lifecycle.Cell`. Closures are modelled as Dafny functions. */
module Combinators {
  import opened Wrappers
  import opened Layers
  import opened ProtectedRefs

  /** `generate(f)`: wrap what `f` returns. */
  function Generate<T>(shape: seq<Adapter>, f: () -> T): (r: Controlled<T>)
    ensures Shape(r) == shape && Inner(r) == f()
  {
    InitFromInner(shape, f())
  }

  /** The doc example: a generator that fills eight bytes with `1..8`. */
  lemma GenerateExample()
    ensures RiskyUnwrap(Generate([], () => seq(8, i => i + 1))) == [1, 2, 3, 4, 5, 6, 7, 8]
  {
  }

  /** `generate_ok(f)`: wrap an `Ok` value; an `Err` passes through and
      nothing is wrapped. */
  function GenerateOk<T, E>(shape: seq<Adapter>, f: () -> Result<T, E>): (r: Result<Controlled<T>, E>)
    ensures r.Ok? <==> f().Ok?
    ensures r.Ok? ==> Shape(r.value) == shape && Inner(r.value) == f().value
    ensures r.Err? ==> r.error == f().error
  {
    f().Map(x => InitFromInner(shape, x))
  }

  /** `map(f)`: consume the value and rebuild the same adapter stack around
      `f` of its inner value. */
  function Map<T, U>(c: Controlled<T>, f: T -> U): (r: Controlled<U>)
    requires IsControlled(c)
    ensures Shape(r) == Shape(c) && Inner(r) == f(Inner(c))
  {
    InitFromInner(Shape(c), f(RiskyUnwrap(c)))
  }

  /** `map` is a functor map: the identity changes nothing and two maps are
      one map of the composition. */
  lemma MapFunctor<T, U, V>(c: Controlled<T>, f: T -> U, g: U -> V)
    requires IsControlled(c)
    ensures Map(c, x => x) == c
    ensures IsControlled(Map(c, f))
    ensures Map(Map(c, f), g) == Map(c, x => g(f(x)))
  {
    InitFromInnerOfParts(c);
    IsControlledIsShape(c);
    IsControlledIsShape(Map(c, f));
  }

  /** The tests' example: 100 maps to 110 under `x + 10` at every nesting of
      `Protected`, `Equatable` and `Exportable` they try. */
  lemma MapExample()
    ensures RiskyUnwrap(Map(Protected(100), x => x + 10)) == 110
    ensures RiskyUnwrap(Map(Exportable(Protected(100)), x => x + 10)) == 110
    ensures RiskyUnwrap(Map(Equatable(Protected(100)), x => x + 10)) == 110
    ensures RiskyUnwrap(Map(Exportable(Equatable(Protected(100))), x => x + 10)) == 110
    ensures RiskyUnwrap(Map(Equatable(Exportable(Protected(100))), x => x + 10)) == 110
  {
    NewThenUnwrap([ExportableAdapter], 110);
    NewThenUnwrap([EquatableAdapter], 110);
    NewThenUnwrap([ExportableAdapter, EquatableAdapter], 110);
    NewThenUnwrap([EquatableAdapter, ExportableAdapter], 110);
  }

  /** `zip(b, f)`: consume both values and wrap `f` of their inner values in a
      plain `Protected`, whatever adapters either had. */
  function Zip<T, U, V>(a: Controlled<T>, b: Controlled<U>, f: (T, U) -> V): (r: Controlled<V>)
    requires IsControlled(a) && IsControlled(b)
    ensures r.Protected? && Inner(r) == f(Inner(a), Inner(b))
  {
    Protected(f(RiskyUnwrap(a), RiskyUnwrap(b)))
  }

  /** `zip_ref(other, f)`: like `zip`, but `other` is only borrowed through a
      `ProtectedRef` view and stays as it was. */
  function ZipRef<T, A, V>(a: Controlled<T>, other: ProtectedRef<A>, f: (T, A) -> V): (r: Controlled<V>)
    requires IsControlled(a)
    ensures r.Protected? && Inner(r) == f(Inner(a), InnerRef(other))
  {
    Protected(f(RiskyUnwrap(a), InnerRef(other)))
  }

  /** The doc examples: `1 + 2 == 3` through `zip`, and `"hello " + "world"`
      through `zip_ref` over a borrowed string. */
  lemma ZipExamples()
    ensures RiskyUnwrap(Zip(Protected(1), Protected(2), (x, y) => x + y)) == 3
    ensures RiskyUnwrap(ZipRef(Protected("hello "), AsProtectedRef(Protected("world"), (s: string) => s),
                               (x: string, y: string) => x + y)) == "hello world"
  {
  }

  /** `iter`: one `Protected` per element of the inner slice, in index order. */
  function Iter<I>(c: Controlled<seq<I>>): (r: seq<Controlled<I>>)
    ensures |r| == |Inner(c)|
    ensures forall i :: 0 <= i < |r| ==> r[i] == Protected(Inner(c)[i])
  {
    seq(|Inner(c)|, i requires 0 <= i < |Inner(c)| => Protected(Inner(c)[i]))
  }

  /** `iter` and `flatten_array` undo each other: iterating a protected array
      and flattening the pieces gives the array back, and flattening an array
      of `Protected` values and iterating gives the pieces back. */
  lemma IterFlattenRoundTrip<I>(c: Controlled<seq<I>>, a: seq<Controlled<I>>)
    requires forall i :: 0 <= i < |a| ==> a[i].Protected?
    ensures FlattenedArray(Iter(c)) == Protected(Inner(c))
    ensures Iter(FlattenedArray(a)) == a
  {
    assert FlattenedArray(Iter(c)).raw == Inner(c);
  }
}
