/** `From` conversions into `Protected`. */
module Conversions {
  import opened Bits
  import opened Layers

  /** `From<T> for Protected<T>`: `init_from_inner`. */
  function FromValue<T>(x: T): (r: Controlled<T>)
    ensures r.Protected? && RiskyUnwrap(r) == x
  {
    InitFromInner([], x)
  }

  /** `From<[char; N]> for Protected<String>`: the characters collected, in
      order, into one string. */
  function FromChars(cs: seq<char>): (r: Controlled<string>)
    ensures r.Protected? && |RiskyUnwrap(r)| == |cs|
    ensures forall i :: 0 <= i < |cs| ==> RiskyUnwrap(r)[i] == cs[i]
  {
    Protected(CollectChars(cs))
  }

  /** `Iterator::collect::<String>` over characters: each one pushed in turn. */
  function CollectChars(cs: seq<char>): (s: string)
    ensures |s| == |cs| && forall i :: 0 <= i < |cs| ==> s[i] == cs[i]
  {
    if cs == [] then "" else CollectChars(cs[..|cs| - 1]) + [cs[|cs| - 1]]
  }

  /** `From<GenericArray<u8, U>> for Protected<[u8; N]>`: exists only when
      `U` is `N`, and keeps the bytes in order. */
  function FromGenericArray(g: seq<Byte>, n: nat): (r: Controlled<seq<Byte>>)
    requires |g| == n
    ensures r.Protected? && RiskyUnwrap(r) == g && |RiskyUnwrap(r)| == n
  {
    InitFromInner([], g)
  }

  /** The tests: "cookies!!!" from ten characters, `[1, 2, 3]` from a generic
      array, and `NonZeroU8`s and `String`s through `From`. */
  lemma ConversionExamples(x: NonZeroU8, s: string)
    ensures RiskyUnwrap(FromChars(['c', 'o', 'o', 'k', 'i', 'e', 's', '!', '!', '!'])) == "cookies!!!"
    ensures RiskyUnwrap(FromGenericArray([1, 2, 3], 3)) == [1, 2, 3]
    ensures RiskyUnwrap(FromValue(x)) == x && RiskyUnwrap(FromValue(s)) == s
  {
  }
}
