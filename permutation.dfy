/** Permutation keys: the identity key, the `IsPermutable` sizes, and
    `PermutationKey` with its Fisher–Yates generation. A key is a
    `Protected` array of `u8` indices. */
module Permutations {
  import opened Wrappers
  import opened Bits
  import opened Layers
  import Combinators

  /** `IsPermutable`: arrays of `u8`, `u16` or `u32` of these lengths only;
      the element width plays no part. */
  predicate IsPermutableLength(n: nat)
  {
    n == 8 || n == 16 || n == 32 || n == 64 || n == 128
  }

  /** The key `[0, 1, …, n - 1]` written as `i as u8`, which wraps past 255. */
  function Identity(n: nat): seq<Byte>
  {
    seq(n, i => i % 256)
  }

  /** A key of length `n` that holds each of `0..n` exactly once. */
  predicate IsPermutation(key: seq<Byte>)
  {
    |key| <= 256 && multiset(key) == multiset(Identity(|key|))
  }

  /** `identity::<N>()`: a zeroed array whose position `i` is set to `i`. */
  method IdentityKey(n: nat) returns (r: seq<Byte>)
    requires IsPermutableLength(n)
    ensures |r| == n && forall i :: 0 <= i < n ==> r[i] == i
    ensures IsPermutation(r)
  {
    var out := new Byte[n](_ => 0);
    var i := 0;
    while i < n
      invariant 0 <= i <= n
      invariant forall k :: 0 <= k < i ==> out[k] == k
    {
      out[i] := i;
      i := i + 1;
    }
    r := out[..];
    assert r == Identity(n);
  }

  /** Each value below `n` occurs once in the identity key, larger ones
      never. */
  lemma {:induction false} IdentityCount(n: nat, v: int)
    requires n <= 256
    ensures multiset(Identity(n))[v] == if 0 <= v < n then 1 else 0
  {
    if n > 0 {
      IdentityCount(n - 1, v);
      assert Identity(n) == Identity(n - 1) + [n - 1];
    }
  }

  /** A value at two positions is counted twice. */
  lemma TwiceCounted<T>(s: seq<T>, i: nat, j: nat)
    requires i < j < |s| && s[i] == s[j]
    ensures multiset(s)[s[i]] >= 2
  {
    assert s == s[..i] + [s[i]] + s[i + 1..];
    assert s[i + 1..][j - i - 1] == s[j];
    assert s[j] in multiset(s[i + 1..]);
  }

  /** A permutation key never repeats an entry. */
  lemma PermutationDistinct(key: seq<Byte>, i: nat, j: nat)
    requires IsPermutation(key) && i < |key| && j < |key| && i != j
    ensures key[i] != key[j]
  {
    if key[i] == key[j] {
      if i < j { TwiceCounted(key, i, j); } else { TwiceCounted(key, j, i); }
      IdentityCount(|key|, key[i]);
    }
  }

  /** Every entry of a permutation key is a valid index. */
  lemma PermutationBounded(key: seq<Byte>)
    requires IsPermutation(key)
    ensures forall i :: 0 <= i < |key| ==> key[i] < |key|
  {
    forall i | 0 <= i < |key| ensures key[i] < |key| {
      assert key[i] in multiset(key);
      IdentityCount(|key|, key[i]);
    }
  }

  /** Every index occurs in a permutation key. */
  lemma PermutationCovers(key: seq<Byte>, p: nat)
    requires IsPermutation(key) && p < |key|
    ensures p in key
  {
    IdentityCount(|key|, p);
    assert p in multiset(key);
  }

  /** `PermutationKey<N>`: a protected key. */
  datatype PermutationKey = PermutationKey(entries: Controlled<seq<Byte>>)

  /** `new_unchecked`: stores any array, permutation or not. */
  function NewUnchecked(key: seq<Byte>): (r: PermutationKey)
    ensures r.entries.Protected? && Inner(r.entries) == key
  {
    PermutationKey(Protected(key))
  }

  /** The entries of a key built by `NewUnchecked`, read back. */
  lemma NewUncheckedKeepsEntries(key: seq<Byte>)
    ensures Inner(NewUnchecked(key).entries) == key
    ensures !IsPermutation(key) ==> !IsPermutation(Inner(NewUnchecked(key).entries))
  {
  }

  /** `iter`: each entry, wrapped, in index order. */
  function KeyIter(k: PermutationKey): (r: seq<Controlled<Byte>>)
    ensures |r| == |Inner(k.entries)|
    ensures forall i :: 0 <= i < |r| ==> Inner(r[i]) == Inner(k.entries)[i] && r[i].Protected?
  {
    Combinators.Iter(k.entries)
  }

  /** Swapping two positions. */
  function Swap(s: seq<Byte>, i: nat, j: nat): (r: seq<Byte>)
    requires i < |s| && j < |s|
    ensures |r| == |s|
  {
    seq(|s|, k requires 0 <= k < |s| => if k == i then s[j] else if k == j then s[i] else s[k])
  }

  /** A swap only moves entries. */
  lemma SwapKeepsEntries(s: seq<Byte>, i: nat, j: nat)
    requires i < |s| && j < |s|
    ensures multiset(Swap(s, i, j)) == multiset(s)
  {
    assert Swap(s, i, j) == s[i := s[j]][j := s[i]];
  }

  /** The draws of a Fisher–Yates shuffle of length `n`: the `k`-th draw,
      taken at position `i = n - 1 - k`, is at most `i`. */
  predicate ValidPicks(n: nat, picks: seq<nat>)
  {
    |picks| == n && forall k :: 0 <= k < n ==> picks[k] <= n - 1 - k
  }

  /** The first `steps` swaps of the shuffle, from the top position down. */
  function Shuffled(s: seq<Byte>, picks: seq<nat>, steps: nat): (r: seq<Byte>)
    requires ValidPicks(|s|, picks) && steps <= |s|
    ensures |r| == |s|
  {
    if steps == 0 then s
    else Swap(Shuffled(s, picks, steps - 1), |s| - steps, picks[steps - 1])
  }

  /** Each swap keeps the entries, only moving them. */
  lemma {:induction false} ShuffledKeepsEntries(s: seq<Byte>, picks: seq<nat>, steps: nat)
    requires ValidPicks(|s|, picks) && steps <= |s|
    ensures multiset(Shuffled(s, picks, steps)) == multiset(s)
  {
    if steps > 0 {
      ShuffledKeepsEntries(s, picks, steps - 1);
      SwapKeepsEntries(Shuffled(s, picks, steps - 1), |s| - steps, picks[steps - 1]);
    }
  }

  /** The first loop of `generate`: a fresh array set to `i as u8` at each
      position `i`. */
  method FreshIdentity(n: nat) returns (key: array<Byte>)
    ensures fresh(key) && key[..] == Identity(n)
  {
    key := new Byte[n](_ => 0);
    var i := 0;
    while i < n
      invariant 0 <= i <= n
      invariant forall k :: 0 <= k < i ==> key[k] == k % 256
    {
      key[i] := i % 256;
      i := i + 1;
    }
  }

  /** `key.swap(i, j)` on the array. */
  method SwapAt(key: array<Byte>, i: nat, j: nat)
    requires i < key.Length && j < key.Length
    modifies key
    ensures key[..] == Swap(old(key[..]), i, j)
  {
    key[i], key[j] := key[j], key[i];
  }

  /** The second loop of `generate`: for `i` from `n - 1` down to 0, swap
      `key[i]` with `key[j]`, `j` the next draw. The array ends up holding
      `Shuffled` of what it held. */
  method ShuffleInPlace(key: array<Byte>, picks: seq<nat>)
    requires ValidPicks(key.Length, picks)
    modifies key
    ensures key[..] == Shuffled(old(key[..]), picks, key.Length)
  {
    ghost var start := key[..];
    var n := key.Length;
    var steps := 0;
    while steps < n
      invariant steps <= n && |start| == n
      invariant key[..] == Shuffled(start, picks, steps)
    {
      SwapAt(key, n - 1 - steps, picks[steps]);
      steps := steps + 1;
    }
  }

  /** `PermutationKey::generate`: the identity key, then the Fisher–Yates
      pass. `gen_range` belongs to the `rand` crate, so its draws are the
      parameter `picks`. The result is always `Ok`; it holds the entries of
      the (wrapping) identity, so for `n <= 256` it is a permutation. */
  method GenerateKey(n: nat, picks: seq<nat>) returns (r: Result<PermutationKey, ()>)
    requires ValidPicks(n, picks)
    ensures r.Ok? && r.value.entries.Protected?
    ensures Inner(r.value.entries) == Shuffled(Identity(n), picks, n)
    ensures multiset(Inner(r.value.entries)) == multiset(Identity(n))
    ensures n <= 256 ==> IsPermutation(Inner(r.value.entries))
  {
    var key := FreshIdentity(n);
    ShuffleInPlace(key, picks);
    var entries := key[..];
    ShuffledKeepsEntries(Identity(n), picks, n);
    assert |entries| == n;
    r := Ok(PermutationKey(Protected(entries)));
  }
}
