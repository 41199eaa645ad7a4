/** A controlled value as a place in memory: the operations that take
    `&mut self` or consume `self`, the derived `zeroize`, and the end of the
    value's life. The ghost flags record whether the value was moved out
    (`consumed`) or went out of scope here (`dropped`); neither is
    observable by the program. `value` is what the memory holds, also after
    the end of life: `Protected` is only marked `ZeroizeOnDrop` and has no
    `Drop`, so going out of scope leaves the bytes where they were
    (`Cell.Drop`); `Cell.DropZeroizing` is the wiping drop the marker
    promises. */
module Lifecycle {
  import opened Layers
  import opened ProtectedRefs

  class Cell<T> {
    var value: Controlled<T>
    ghost var consumed: bool
    ghost var dropped: bool

    /** Neither moved out nor dropped: the only state in which the value may
        be used. */
    ghost predicate Live()
      reads this
    {
      !consumed && !dropped
    }

    /** Bind a freshly built controlled value. */
    constructor (v: Controlled<T>)
      ensures value == v && Live()
    {
      value := v;
      consumed := false;
      dropped := false;
    }

    /** `update(f)`: `f` rewrites the inner value in place through
        `inner_mut`; the adapters around it stay. */
    method Update(f: T -> T)
      requires Live()
      modifies this
      ensures Live()
      ensures value == SetInner(old(value), f(Inner(old(value))))
      ensures Shape(value) == Shape(old(value)) && Inner(value) == f(Inner(old(value)))
    {
      value := SetInner(value, f(Inner(value)));
    }

    /** `update_with(other, f)`: `other` is consumed by `risky_unwrap` and its
        raw value handed to `f` together with this value's inner value.
        The raw value leaves its wrapper unwiped: `other` still holds it. */
    method UpdateWith<U>(other: Cell<U>, f: (T, U) -> T)
      requires other as object != this && Live() && other.Live() && IsControlled(other.value)
      modifies this, other
      ensures Live() && other.consumed && !other.dropped
      ensures other.value == old(other.value)
      ensures Shape(value) == Shape(old(value))
      ensures Inner(value) == f(Inner(old(value)), Inner(old(other.value)))
    {
      var x := Layers.RiskyUnwrap(other.value);
      other.consumed := true;
      value := SetInner(value, f(Inner(value), x));
    }

    /** `update_with_ref(other, f)`: like `update_with`, but `other` is a
        borrowed view and nothing is consumed. */
    method UpdateWithRef<A>(other: ProtectedRef<A>, f: (T, A) -> T)
      requires Live()
      modifies this
      ensures Live()
      ensures Shape(value) == Shape(old(value))
      ensures Inner(value) == f(Inner(old(value)), InnerRef(other))
    {
      value := SetInner(value, f(Inner(value), InnerRef(other)));
    }

    /** `risky_unwrap`: move the raw value out; the cell is consumed. */
    method RiskyUnwrap() returns (x: T)
      requires Live() && IsControlled(value)
      modifies this
      ensures x == Inner(old(value))
      ensures consumed && !dropped && value == old(value)
    {
      x := Layers.RiskyUnwrap(value);
      consumed := true;
    }

    /** `clone`, available for `Protected` and `Exportable` (over a clonable
        layer): a new cell with an equal value; this one is untouched. */
    method Clone() returns (c: Cell<T>)
      requires Live() && Cloneable(value)
      ensures fresh(c) && c.Live() && c.value == value
    {
      c := new Cell(value);
    }

    /** The derived `zeroize`, available for `Protected` and for
        `Equatable` and `Exportable` over a zeroizable layer: the raw value
        is overwritten with its zero and the adapters stay. The value stays
        usable. */
    method Zeroize(zero: T)
      requires Live() && Zeroizable(value)
      modifies this
      ensures Live()
      ensures Shape(value) == Shape(old(value)) && Inner(value) == zero
    {
      value := SetInner(value, zero);
    }

    /** End of life of a value that is still owned here, as the code has it
        (a moved-out value is dropped by its new owner, not here). No layer
        implements `Drop`, so nothing is overwritten: the memory still holds
        the value. */
    method Drop()
      requires Live()
      modifies this
      ensures dropped && !consumed
      ensures value == old(value)
    {
      dropped := true;
    }

    /** End of life as the `ZeroizeOnDrop` marker promises it: `zeroize`,
        then drop. The memory left behind holds the zero value. */
    method DropZeroizing(zero: T)
      requires Live() && Zeroizable(value)
      modifies this
      ensures dropped && !consumed
      ensures Shape(value) == Shape(old(value)) && Inner(value) == zero
    {
      Zeroize(zero);
      dropped := true;
    }
  }

  /** `Zeroize` is derived for `Protected`, and for `Equatable` and
      `Exportable` when the layer they wrap is `Zeroize`; `Usage` and
      `Indexable` do not implement it. */
  predicate Zeroizable<T>(c: Controlled<T>)
  {
    match c
    case Protected(_) => true
    case Equatable(w) => Zeroizable(w)
    case Exportable(w) => Zeroizable(w)
    case _ => false
  }

  /** `Clone` is derived for `Protected` and for `Exportable` over a clonable
      layer; `Equatable`, `Usage` and `Indexable` do not implement it. */
  predicate Cloneable<T>(c: Controlled<T>)
  {
    match c
    case Protected(_) => true
    case Exportable(w) => Cloneable(w)
    case _ => false
  }

  /** `update`'s doc example: `[0; 4]` incremented element-wise becomes
      `[1; 4]`; and `update_with`'s: copying `[1; 32]` over `[0; 32]`. */
  method UpdateExamples() returns (incremented: seq<int>, copied: seq<int>)
    ensures incremented == [1, 1, 1, 1]
    ensures copied == seq(32, _ => 1)
  {
    var x := new Cell(Protected(seq(4, _ => 0)));
    x.Update((a: seq<int>) => seq(|a|, i requires 0 <= i < |a| => a[i] + 1));
    incremented := Inner(x.value);
    var y := new Cell(Protected(seq(32, _ => 0)));
    var z := new Cell(Protected(seq(32, _ => 1)));
    y.UpdateWith(z, (a: seq<int>, b: seq<int>) => b);
    copied := Inner(y.value);
  }

  /** A `Protected([1u8; 32])` that goes out of scope: as the code stands the
      memory still holds the 32 ones afterwards; with the zeroizing drop it
      holds 32 zeros. */
  method DropLeavesSecret() returns (asWritten: seq<int>, intended: seq<int>)
    ensures asWritten == seq(32, _ => 1)
    ensures intended == seq(32, _ => 0)
    ensures asWritten != intended
  {
    var c := new Cell(Protected(seq(32, _ => 1)));
    c.Drop();
    asWritten := Inner(c.value);
    var d := new Cell(Protected(seq(32, _ => 1)));
    d.DropZeroizing(seq(32, _ => 0));
    intended := Inner(d.value);
    assert asWritten[0] != intended[0];
  }
}
