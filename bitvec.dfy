/** Indexing a bit slice by a `Protected<usize>` or `Protected<u8>` index
    (`BitSliceIndex`). A bit slice is the sequence of its bits in the
    slice's own order; a `BitRef` addresses one bit by its offset from the
    slice start. */
module BitIndex {
  import opened Wrappers
  import opened Bits
  import opened Layers

  datatype BitRef = BitRef(offset: nat)

  /** `get_unchecked` / `get_unchecked_mut`: the bit at offset `index`. */
  function GetUnchecked(index: Controlled<nat>): (r: BitRef)
    requires index.Protected?
    ensures r.offset == RiskyUnwrap(index)
  {
    BitRef(index.raw)
  }

  /** The bit a reference reads in `bits`. */
  function Read(bits: seq<bool>, r: BitRef): bool
    requires r.offset < |bits|
  {
    bits[r.offset]
  }

  /** Writing `v` through a reference. */
  function Write(bits: seq<bool>, r: BitRef, v: bool): (b: seq<bool>)
    requires r.offset < |bits|
    ensures |b| == |bits| && b[r.offset] == v
    ensures forall i :: 0 <= i < |bits| && i != r.offset ==> b[i] == bits[i]
  {
    bits[r.offset := v]
  }

  /** `get` with a `Protected<usize>` index: `Some` exactly when the index is
      below the length, and then the bit at that offset. */
  function Get(index: Controlled<nat>, bits: seq<bool>): (r: Option<bool>)
    requires index.Protected?
    ensures r.Some? <==> Inner(index) < |bits|
    ensures r.Some? ==> r.value == bits[Inner(index)]
  {
    if index.raw < |bits| then Some(Read(bits, GetUnchecked(index))) else None
  }

  /** `get_mut`: the same bounds rule, yielding a writable reference. */
  function GetMut(index: Controlled<nat>, bits: seq<bool>): (r: Option<BitRef>)
    requires index.Protected?
    ensures r.Some? <==> Inner(index) < |bits|
    ensures r.Some? ==> r.value.offset == Inner(index)
  {
    if index.raw < |bits| then Some(GetUnchecked(index)) else None
  }

  /** `index` / `index_mut`: `get` / `get_mut` unwrapped; an index at or past
      the length panics, so it is excluded. */
  function IndexBit(index: Controlled<nat>, bits: seq<bool>): (r: bool)
    requires index.Protected? && Inner(index) < |bits|
    ensures Get(index, bits) == Some(r)
  {
    Get(index, bits).value
  }

  function IndexBitMut(index: Controlled<nat>, bits: seq<bool>): (r: BitRef)
    requires index.Protected? && Inner(index) < |bits|
    ensures GetMut(index, bits) == Some(r)
  {
    GetMut(index, bits).value
  }

  /** A bit written through `get_mut`'s reference is what `get` then reads;
      no other bit changes. */
  lemma WriteThenGet(index: Controlled<nat>, bits: seq<bool>, v: bool, j: nat)
    requires index.Protected? && GetMut(index, bits).Some?
    ensures var b := Write(bits, GetMut(index, bits).value, v);
            Get(index, b) == Some(v) &&
            (j < |bits| && j != Inner(index) ==> Get(Protected(j), b) == Get(Protected(j), bits))
  {
  }

  /** The `Protected<u8>` impl: the index widened to `usize`, then the same rule. */
  function GetU8(index: Controlled<Byte>, bits: seq<bool>): (r: Option<bool>)
    requires index.Protected?
    ensures r.Some? <==> Inner(index) < |bits|
    ensures r.Some? ==> r.value == bits[Inner(index)]
  {
    Get(Protected(index.raw as nat), bits)
  }

  function GetMutU8(index: Controlled<Byte>, bits: seq<bool>): (r: Option<BitRef>)
    requires index.Protected?
    ensures r.Some? <==> Inner(index) < |bits|
    ensures r.Some? ==> r.value.offset == Inner(index)
  {
    GetMut(Protected(index.raw as nat), bits)
  }

  /** Both index widths give the same answers. */
  lemma U8IndexAgreesWithUsize(i: Byte, bits: seq<bool>)
    ensures GetU8(Protected(i), bits) == Get(Protected(i as nat), bits)
    ensures GetMutU8(Protected(i), bits) == GetMut(Protected(i as nat), bits)
  {
  }
}
