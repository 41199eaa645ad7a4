/** Element-wise `Permute` and `Depermute` of a protected array by a
    `PermutationKey`: `permute` gathers (`out[i] = source[key[i]]`),
    `depermute` scatters (`out[key[i]] = source[i]`). */
module Elementwise {
  import opened Bits
  import opened Layers
  import opened Permutations
  import Combinators
  import Ops

  /** Every entry of `key` indexes an array of length `n`; otherwise the
      source's indexing panics. */
  predicate IndicesBelow(key: seq<Byte>, n: nat)
  {
    forall i :: 0 <= i < |key| ==> key[i] < n
  }

  /** What `permute` computes: position `i` of the result is `src[key[i]]`. */
  function Permuted<T>(key: seq<Byte>, src: seq<T>): (r: seq<T>)
    requires IndicesBelow(key, |src|)
    ensures |r| == |key|
  {
    seq(|key|, i requires 0 <= i < |key| => src[key[i]])
  }

  /** What the first `k` steps of `depermute`'s fold leave in `out`: each
      step writes `src[i]` at position `key[i]`, later writes winning. */
  function Scattered<T>(key: seq<Byte>, src: seq<T>, out: seq<T>, k: nat): (r: seq<T>)
    requires k <= |key| && k <= |src| && IndicesBelow(key, |out|)
    ensures |r| == |out|
  {
    if k == 0 then out else Scattered(key, src, out, k - 1)[key[k - 1] := src[k - 1]]
  }

  /** What `depermute` computes, starting from `Default::default()`. */
  function Depermuted<T>(key: seq<Byte>, src: seq<T>, zero: T): (r: seq<T>)
    requires |src| == |key| && IndicesBelow(key, |key|)
    ensures |r| == |key|
  {
    Scattered(key, src, seq(|key|, _ => zero), |key|)
  }

  /** Under a permutation key no write is overwritten: position `key[i]`
      keeps `src[i]`. */
  lemma {:induction false} ScatteredAt<T>(key: seq<Byte>, src: seq<T>, out: seq<T>, k: nat, i: nat)
    requires IsPermutation(key) && k <= |key| && k <= |src| && IndicesBelow(key, |out|)
    requires i < k
    ensures Scattered(key, src, out, k)[key[i]] == src[i]
  {
    if i < k - 1 {
      PermutationDistinct(key, i, k - 1);
      ScatteredAt(key, src, out, k - 1, i);
    }
  }

  /** `depermute` undoes `permute` for a permutation key, as the
      `depermutation_case` test expects. */
  lemma DepermuteInvertsPermute<T>(key: seq<Byte>, x: seq<T>, zero: T)
    requires IsPermutation(key) && |x| == |key|
    ensures IndicesBelow(key, |key|)
    ensures Depermuted(key, Permuted(key, x), zero) == x
  {
    PermutationBounded(key);
    var y := Permuted(key, x);
    var d := Depermuted(key, y, zero);
    forall p | 0 <= p < |key| ensures d[p] == x[p] {
      PermutationCovers(key, p);
      var i :| 0 <= i < |key| && key[i] == p;
      ScatteredAt(key, y, seq(|key|, _ => zero), |key|, i);
    }
  }

  /** And `permute` undoes `depermute`. */
  lemma PermuteInvertsDepermute<T>(key: seq<Byte>, x: seq<T>, zero: T)
    requires IsPermutation(key) && |x| == |key|
    ensures IndicesBelow(key, |key|)
    ensures Permuted(key, Depermuted(key, x, zero)) == x
  {
    PermutationBounded(key);
    var d := Depermuted(key, x, zero);
    forall i | 0 <= i < |key| ensures Permuted(key, d)[i] == x[i] {
      ScatteredAt(key, x, seq(|key|, _ => zero), |key|, i);
    }
  }

  /** The composition law of the `test_associativity` tests: permuting by
      `k1` and then by `k2` is permuting once by `k2` applied to `k1`. */
  lemma PermuteComposition<T>(k1: seq<Byte>, k2: seq<Byte>, x: seq<T>)
    requires IndicesBelow(k1, |x|) && IndicesBelow(k2, |k1|)
    ensures IndicesBelow(Permuted(k2, k1), |x|)
    ensures Permuted(k2, Permuted(k1, x)) == Permuted(Permuted(k2, k1), x)
  {
  }

  lemma PermutedConcat<T>(x: seq<T>, a: seq<Byte>, b: seq<Byte>)
    requires IndicesBelow(a, |x|) && IndicesBelow(b, |x|)
    ensures IndicesBelow(a + b, |x|)
    ensures Permuted(a + b, x) == Permuted(a, x) + Permuted(b, x)
  {
  }

  /** Removing one occurrence of the same value from two sequences with
      the same entries leaves the same entries. */
  lemma RemoveMatching(a: seq<Byte>, b: seq<Byte>, j: nat)
    requires multiset(a) == multiset(b) && |a| > 0 && j < |b| && b[j] == a[0]
    ensures multiset(a[1..]) == multiset(b[..j] + b[j + 1..])
  {
    assert a == [a[0]] + a[1..];
    assert b == b[..j] + [b[j]] + b[j + 1..];
    calc {
      multiset(a[1..]);
      multiset(a) - multiset([a[0]]);
      multiset(b) - multiset([b[j]]);
      multiset(b[..j]) + multiset(b[j + 1..]);
      multiset(b[..j] + b[j + 1..]);
    }
  }

  /** Gathering through two index sequences with the same entries gives the
      same entries. */
  lemma {:induction false} GatherSameEntries<T>(x: seq<T>, a: seq<Byte>, b: seq<Byte>)
    requires IndicesBelow(a, |x|) && IndicesBelow(b, |x|)
    requires multiset(a) == multiset(b)
    ensures multiset(Permuted(a, x)) == multiset(Permuted(b, x))
    decreases |a|
  {
    if |a| == 0 {
      assert |multiset(b)| == 0;
    } else {
      var v := a[0];
      assert v in multiset(b);
      var j :| 0 <= j < |b| && b[j] == v;
      var rest := b[..j] + b[j + 1..];
      RemoveMatching(a, b, j);
      GatherSameEntries(x, a[1..], rest);
      assert a == [v] + a[1..];
      assert b == b[..j] + [v] + b[j + 1..];
      PermutedConcat(x, [v], a[1..]);
      PermutedConcat(x, b[..j], [v]);
      PermutedConcat(x, b[..j] + [v], b[j + 1..]);
      PermutedConcat(x, b[..j], b[j + 1..]);
    }
  }

  /** For a permutation key the output is a rearrangement of the input. */
  lemma PermutedKeepsEntries<T>(key: seq<Byte>, x: seq<T>)
    requires IsPermutation(key) && |x| == |key|
    ensures IndicesBelow(key, |x|)
    ensures multiset(Permuted(key, x)) == multiset(x)
  {
    PermutationBounded(key);
    var id := Identity(|key|);
    assert IndicesBelow(id, |x|);
    GatherSameEntries(x, key, id);
    assert Permuted(id, x) == x;
  }

  /** Permuting one permutation key by another gives a permutation key,
      so composed keys stay valid. */
  lemma ComposedIsPermutation(k1: seq<Byte>, k2: seq<Byte>)
    requires IsPermutation(k1) && IsPermutation(k2) && |k1| == |k2|
    ensures IndicesBelow(k2, |k1|)
    ensures IsPermutation(Permuted(k2, k1))
  {
    PermutedKeepsEntries(k2, k1);
  }

  /** `Permute::permute`: the key's entries, in index order, each read
      through `Protected` indexing. */
  method Permute<T>(key: PermutationKey, input: Controlled<seq<T>>, zero: T) returns (r: Controlled<seq<T>>)
    requires key.entries.Protected? && input.Protected?
    requires IsPermutableLength(|Inner(key.entries)|) && |Inner(input)| == |Inner(key.entries)|
    requires IndicesBelow(Inner(key.entries), |Inner(key.entries)|)
    ensures r == Protected(Permuted(Inner(key.entries), Inner(input)))
  {
    var source := RiskyUnwrap(input);
    var ks := KeyIter(key);
    var n := |ks|;
    var out := new T[n](_ => zero);
    var i := 0;
    while i < n
      invariant 0 <= i <= n
      invariant forall k :: 0 <= k < i ==> out[k] == source[Inner(key.entries)[k]]
    {
      var index: Controlled<nat> := Protected(RiskyUnwrap(ks[i]));
      out[i] := Ops.IndexByProtected(source, index);
      i := i + 1;
    }
    assert out[..] == Permuted(Inner(key.entries), source);
    r := Protected(out[..]);
  }

  /** `Depermute::depermute`: the same walk, writing `source[i]` at the
      position the key names. */
  method Depermute<T>(key: PermutationKey, input: Controlled<seq<T>>, zero: T) returns (r: Controlled<seq<T>>)
    requires key.entries.Protected? && input.Protected?
    requires IsPermutableLength(|Inner(key.entries)|) && |Inner(input)| == |Inner(key.entries)|
    requires IndicesBelow(Inner(key.entries), |Inner(key.entries)|)
    ensures r == Protected(Depermuted(Inner(key.entries), Inner(input), zero))
  {
    var source := RiskyUnwrap(input);
    var ks := KeyIter(key);
    var n := |ks|;
    var out := new T[n](_ => zero);
    var i := 0;
    while i < n
      invariant 0 <= i <= n
      invariant out[..] == Scattered(Inner(key.entries), source, seq(n, _ => zero), i)
    {
      var k := RiskyUnwrap(ks[i]);
      out[k] := source[i];
      i := i + 1;
    }
    r := Protected(out[..]);
  }
}
