/** The controlled-value wrapper family: `Protected<T>` owns one raw value and
    the adapters `Equatable`, `Exportable`, `Usage` and `Indexable` each wrap
    another controlled value. Every adapter delegates `init_from_inner`,
    `inner`, `inner_mut` and `risky_unwrap` to the layer it wraps, so any
    nesting reaches the same raw value at its bottom.

    Rust encodes the nesting in the type (`Exportable<Equatable<Protected<u8>>>`);
    here a value carries its layers and `Shape` lists them, outermost first,
    so that the type-directed `init_from_inner` becomes a function of a shape. */
module Layers {
  import opened Wrappers

  /** A usage scope tag (`DefaultScope` or a user-defined marker type). It has
      no runtime data: `Usage` holds it as `PhantomData`. */
  datatype Scope = DefaultScope | Named(name: string)

  /** One adapter layer, as it appears in a type. */
  datatype Adapter =
    | EquatableAdapter
    | ExportableAdapter
    | UsageAdapter(scope: Scope)
    | IndexableAdapter

  datatype Controlled<T> =
    | Protected(raw: T)
    | Equatable(wrapped: Controlled<T>)
    | Exportable(wrapped: Controlled<T>)
    | Usage(wrapped: Controlled<T>, scope: Scope)
    | Indexable(wrapped: Controlled<T>)

  /** The adapters around the `Protected` core, outermost first. */
  function Shape<T>(c: Controlled<T>): seq<Adapter>
  {
    match c
    case Protected(_) => []
    case Equatable(w) => [EquatableAdapter] + Shape(w)
    case Exportable(w) => [ExportableAdapter] + Shape(w)
    case Usage(w, s) => [UsageAdapter(s)] + Shape(w)
    case Indexable(w) => [IndexableAdapter] + Shape(w)
  }

  /** Put one adapter around a controlled value (the tuple-struct constructors
      `Equatable(x)`, `Exportable(x)`, `Usage(x, PhantomData)`, `Indexable(x)`). */
  function Wrap<T>(a: Adapter, c: Controlled<T>): (r: Controlled<T>)
    ensures Shape(r) == [a] + Shape(c)
  {
    match a
    case EquatableAdapter => Equatable(c)
    case ExportableAdapter => Exportable(c)
    case UsageAdapter(s) => Usage(c, s)
    case IndexableAdapter => Indexable(c)
  }

  /** `inner`: every adapter returns its wrapped layer's inner value. */
  function Inner<T>(c: Controlled<T>): T
  {
    match c
    case Protected(x) => x
    case Equatable(w) => Inner(w)
    case Exportable(w) => Inner(w)
    case Usage(w, _) => Inner(w)
    case Indexable(w) => Inner(w)
  }

  /** `init_from_inner` for the type whose adapters are `shape`: `Protected`
      wraps the value and each adapter wraps what the layer below built. */
  function InitFromInner<T>(shape: seq<Adapter>, x: T): (r: Controlled<T>)
    ensures Inner(r) == x
    ensures Shape(r) == shape
  {
    if shape == [] then Protected(x) else Wrap(shape[0], InitFromInner(shape[1..], x))
  }

  /** Rebuilding a value from its shape and inner value gives it back: the
      shape and the inner value are all a controlled value holds. */
  lemma {:induction false} InitFromInnerOfParts<T>(c: Controlled<T>)
    ensures InitFromInner(Shape(c), Inner(c)) == c
  {
    match c
    case Protected(_) =>
    case Equatable(w) => InitFromInnerOfParts(w);
    case Exportable(w) => InitFromInnerOfParts(w);
    case Usage(w, _) => InitFromInnerOfParts(w);
    case Indexable(w) => InitFromInnerOfParts(w);
  }

  /** Two values of the same type with the same inner value are the same value. */
  lemma SameShapeSameInner<T>(c: Controlled<T>, d: Controlled<T>)
    requires Shape(c) == Shape(d) && Inner(c) == Inner(d)
    ensures c == d
  {
    InitFromInnerOfParts(c);
    InitFromInnerOfParts(d);
  }

  /** A write through `inner_mut`: the value at the bottom is replaced and
      every layer above it, scope tags included, stays as it was. */
  function SetInner<T>(c: Controlled<T>, x: T): (r: Controlled<T>)
    ensures r == InitFromInner(Shape(c), x)
  {
    match c
    case Protected(_) => Protected(x)
    case Equatable(w) => Equatable(SetInner(w, x))
    case Exportable(w) => Exportable(SetInner(w, x))
    case Usage(w, s) => Usage(SetInner(w, x), s)
    case Indexable(w) => Indexable(SetInner(w, x))
  }

  lemma SetInnerThenInner<T>(c: Controlled<T>, x: T, y: T)
    ensures Inner(SetInner(c, x)) == x
    ensures Shape(SetInner(c, x)) == Shape(c)
    ensures SetInner(SetInner(c, x), y) == SetInner(c, y)
    ensures SetInner(c, Inner(c)) == c
  {
    InitFromInnerOfParts(c);
  }

  /** Whether the value implements `Controlled` (and so `risky_unwrap`):
      `Protected`, and `Equatable`, `Exportable` and `Usage` over a controlled
      layer. `Indexable` only implements the private accessor trait. */
  predicate IsControlled<T>(c: Controlled<T>)
  {
    match c
    case Protected(_) => true
    case Equatable(w) => IsControlled(w)
    case Exportable(w) => IsControlled(w)
    case Usage(w, _) => IsControlled(w)
    case Indexable(_) => false
  }

  predicate ControlledShape(shape: seq<Adapter>)
  {
    forall i :: 0 <= i < |shape| ==> shape[i] != IndexableAdapter
  }

  lemma ControlledShapeCons(a: Adapter, shape: seq<Adapter>)
    ensures ControlledShape([a] + shape) <==> a != IndexableAdapter && ControlledShape(shape)
  {
    if a != IndexableAdapter && ControlledShape(shape) {
      forall i | 0 <= i < |[a] + shape| ensures ([a] + shape)[i] != IndexableAdapter {
        if i > 0 { assert ([a] + shape)[i] == shape[i - 1]; }
      }
    }
    if ControlledShape([a] + shape) {
      assert ([a] + shape)[0] == a;
      forall i | 0 <= i < |shape| ensures shape[i] != IndexableAdapter {
        assert ([a] + shape)[i + 1] == shape[i];
      }
    }
  }

  lemma {:induction false} IsControlledIsShape<T>(c: Controlled<T>)
    ensures IsControlled(c) <==> ControlledShape(Shape(c))
  {
    match c
    case Protected(_) =>
    case Equatable(w) =>
      IsControlledIsShape(w);
      ControlledShapeCons(EquatableAdapter, Shape(w));
    case Exportable(w) =>
      IsControlledIsShape(w);
      ControlledShapeCons(ExportableAdapter, Shape(w));
    case Usage(w, s) =>
      IsControlledIsShape(w);
      ControlledShapeCons(UsageAdapter(s), Shape(w));
    case Indexable(w) =>
      ControlledShapeCons(IndexableAdapter, Shape(w));
  }

  /** `risky_unwrap`: consumes the value and gives back the raw value, each
      adapter asking the layer it wraps. */
  function RiskyUnwrap<T>(c: Controlled<T>): (r: T)
    requires IsControlled(c)
    ensures r == Inner(c)
  {
    match c
    case Protected(x) => x
    case Equatable(w) => RiskyUnwrap(w)
    case Exportable(w) => RiskyUnwrap(w)
    case Usage(w, _) => RiskyUnwrap(w)
  }

  /** `Protected::new(x)` followed by `risky_unwrap` gives `x` back, and so
      does `new` at any nesting of controlled adapters. */
  lemma NewThenUnwrap<T>(shape: seq<Adapter>, x: T)
    requires ControlledShape(shape)
    ensures IsControlled(InitFromInner(shape, x))
    ensures RiskyUnwrap(InitFromInner(shape, x)) == x
  {
    IsControlledIsShape(InitFromInner(shape, x));
  }

  // ---- Methods specific to `Protected` ----

  /** `Protected::<Protected<T>>::flatten`: removes exactly one level. */
  function Flatten<T>(p: Controlled<Controlled<T>>): (r: Controlled<T>)
    requires p.Protected? && p.raw.Protected?
    ensures r.Protected? && Inner(r) == Inner(Inner(p))
  {
    p.raw
  }

  /** `Protected::<Option<T>>::transpose`. */
  function Transpose<T>(p: Controlled<Option<T>>): (r: Option<Controlled<T>>)
    requires p.Protected?
    ensures r.Some? <==> p.raw.Some?
    ensures r.Some? ==> r.value.Protected? && Inner(r.value) == p.raw.value
  {
    match p.raw
    case None => None
    case Some(x) => Some(Protected(x))
  }

  /** Flattening only removes one level: twice-wrapped `x` unwraps to `x`
      after one `flatten`, and a `Some` keeps its value through `transpose`. */
  lemma FlattenUndoesDoubleWrap<T>(x: T)
    ensures Flatten(Protected(Protected(x))) == Protected(x)
    ensures RiskyUnwrap(Flatten(Protected(Protected(x)))) == x
    ensures Transpose(Protected(Some(x))) == Some(Protected(x))
    ensures Transpose(Protected(Option<T>.None)) == None
  {
  }

  /** The value `flatten_array` produces: a `Protected` array whose element `i`
      is the raw value of input element `i`. */
  function FlattenedArray<T>(a: seq<Controlled<T>>): (r: Controlled<seq<T>>)
    ensures r.Protected? && |r.raw| == |a|
    ensures forall i :: 0 <= i < |a| ==> r.raw[i] == Inner(a[i])
  {
    Protected(seq(|a|, i requires 0 <= i < |a| => Inner(a[i])))
  }

  /** `flatten_array`: fill a default-initialised `out` array in index order
      from the unwrapped elements, then wrap it. */
  method FlattenArray<T>(a: seq<Controlled<T>>, default: T) returns (r: Controlled<seq<T>>)
    requires forall i :: 0 <= i < |a| ==> a[i].Protected?
    ensures r == FlattenedArray(a)
  {
    var out := new T[|a|](_ => default);
    var i := 0;
    while i < |a|
      invariant 0 <= i <= |a|
      invariant forall j :: 0 <= j < i ==> out[j] == Inner(a[j])
    {
      out[i] := RiskyUnwrap(a[i]);
      i := i + 1;
    }
    assert out[..] == FlattenedArray(a).raw;
    r := Protected(out[..]);
  }

  /** The doc and test example: `[Protected(1), Protected(2), Protected(3)]`
      flattens to `Protected([1, 2, 3])`. */
  lemma FlattenArrayExample()
    ensures FlattenedArray([Protected(1), Protected(2), Protected(3)]) == Protected([1, 2, 3])
  {
    var r := FlattenedArray([Protected(1), Protected(2), Protected(3)]);
    assert r.raw == [1, 2, 3];
  }
}
