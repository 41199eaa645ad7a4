# vitaminc core, modelled in Dafny

This project models the core of `vitaminc`, a family of Rust crates for handling sensitive values, and proves properties of that model. The modelled parts are:

- **The controlled-value wrapper family.** `Protected<T>` and the adapters `Equatable`, `Exportable`, `Usage` and `Indexable` form one recursive datatype, `Layers.Controlled<T>`, with its combinators: `generate`, `map`, `zip`, `update`, `iter`, `flatten` and `risky_unwrap`.
- **The constant-time equality engine.**
- **Safe serialisation.** Byte arrays are written as lower-case hex or raw bytes.
- **The random crate.** The ChaCha-backed `SafeRand` is modelled as the finite stream of 32-bit words it will produce. Around it sit bounded sampling and the `Generatable` impls.
- **Permutations.** Element-wise and bit-wise permutation keys.
- **Password generation.**
- **Ciphertext framing.** Both builders are covered: the closure-based one and the buffer-based one.
- **The hashing traits.**
- **The legacy `paranoid` crate and `src/safe_eq.rs`.**

Code that works in place becomes imperative Dafny:

- **Classes.** A `SafeRand` class holds its word stream, `Lifecycle.Cell` models `&mut self`, `zeroize` and the end of a value's life, the ciphertext-buffer states own their byte buffers, and a hasher holds its absorbed inputs.
- **Methods with loops.** Loops over arrays and streams, such as the constant-time fold, the fill loop, the rejection loop, the Fisher-Yates shuffle and the permute fold, are methods proved against specification functions.

Pure code becomes functions and lemmas.

Modelling conventions:

- Integers are unbounded. The model writes out the fixed widths `u8`, `u16` and `u32` as subset types, and treats `usize` as 64 bits.
- Strings are sequences of chars. A string's byte view is its UTF-8 encoding (`Utf8.Encode`).
- A wrapper nesting, which Rust encodes in the type, is a value's `Shape`: the list of adapters, outermost first.
- A panic is either excluded by a precondition, when it marks a programming error (slicing past the end), or modelled as a value (`Passwords.Run`), when it is the behaviour under study.

## Model

| member | source | states |
|---|---|---|
| Bits.NextPowerOfTwo | packages/random/src/safe_rand.rs:20 | `next_power_of_two` yields a power of two that is at least `n` and, for `n >= 1`, below `2n` |
| Bits.BitAnd | packages/random/src/bounded.rs:30 | a bitwise AND is at most either operand |
| Bits.AndMaskIsMod | packages/random/src/bounded.rs:29-30 | masking with `2^k - 1` equals the remainder modulo `2^k`, so `& (max - 1)` and `% max` agree on powers of two |
| Bits.XorInvolutive | packages/protected/src/ops.rs:13-15 | XOR with the same operand twice gives back the original value |
| Bits.XorBounded | packages/protected/src/ops.rs:13-15 | XOR of two `k`-bit values is a `k`-bit value, so `^` stays in the integer type |
| Bits.FromBeBytes | packages/permutation/src/bitwise.rs:43 | `from_be_bytes` of `n` bytes is below `256^n` |
| Bits.ToBeBytes | packages/permutation/src/bitwise.rs:33 | `to_be_bytes` yields exactly `n` bytes |
| Bits.BeBytesRoundTrip | packages/permutation/src/bitwise.rs:33-43 | decoding the big-endian encoding of a value below `256^n` gives the value back |
| Bits.BeBytesOfValue | packages/permutation/src/bitwise.rs:33-43 | encoding the decoded value of `n` bytes gives the bytes back (the other direction of the round trip) |
| Bits.BeBytesZero | packages/permutation/src/bitwise.rs:43 | the decoded value is zero iff every byte is zero |
| Bits.FromBeBytes2 | packages/random/src/generatable.rs:33 | `u16::from_be_bytes` is first byte times 256 plus second byte |
| Bits.FromBeBytes4 | packages/random/src/generatable.rs:83 | `u32::from_be_bytes` is the four bytes read most-significant first |
| Bits.NatToBits | packages/permutation/src/bitwise.rs:34 | an MSB-first bit view of a width-`w` value has `w` bits |
| Bits.BitsToNat | packages/permutation/src/bitwise.rs:43 | reading `w` bits back gives a value below `2^w` |
| Bits.NatToBitsRoundTrip | packages/permutation/src/bitwise.rs:34-43 | reading back the bit view of a value below `2^w` gives the value |
| Bits.BitsOfValue | packages/permutation/src/bitwise.rs:34-43 | the bit view of the value read from bits is those bits |
| Bits.BitsToNatZero | packages/permutation/src/bitwise.rs:43 | bits read as zero iff no bit is set |
| Bits.BytesToBits | packages/permutation/src/bitwise.rs:34 | `BitArray<_, Msb0>::new` over `n` bytes has `8n` bits |
| Bits.BitsToBytes | packages/permutation/src/bitwise.rs:43 | `into_inner` of `8n` bits gives `n` bytes |
| Bits.BitsBytesRoundTrip | packages/permutation/src/bitwise.rs:34-43 | converting bits to bytes and back gives the same bits |
| Bits.BytesToBitsKeepsNonzero | packages/permutation/src/bitwise.rs:34 | a non-zero byte leaves a set bit in the bit view |
| Bits.BitsToBytesKeepsNonzero | packages/permutation/src/bitwise.rs:43 | a set bit leaves a non-zero byte |
| Layers.Wrap | packages/protected/src/equatable/mod.rs:96-104 | wrapping an adapter puts it in front of the shape and leaves the rest |
| Layers.InitFromInner | packages/protected/src/protected/mod.rs:65-67 | `init_from_inner` for a nesting stores `x` at the bottom and builds exactly that nesting |
| Layers.InitFromInnerOfParts | packages/protected/src/protected/mod.rs:59-76 | rebuilding from the shape and the inner value gives the same controlled value (`inner` and `init_from_inner` are inverse) |
| Layers.SameShapeSameInner | packages/protected/src/lib.rs:32-37 | a controlled value is determined by its shape and inner value |
| Layers.SetInner | packages/protected/src/protected/mod.rs:73-75 | writing through `inner_mut` gives the same nesting around the new value |
| Layers.SetInnerThenInner | packages/protected/src/protected/mod.rs:69-75 | after a write, `inner` reads the written value and the shape stays; a second write overrides the first; writing the current value changes nothing |
| Layers.ControlledShapeCons | packages/protected/src/indexable/mod.rs:32-46 | a nesting implements `Controlled` iff its outer adapter is not `Indexable` and the rest implements it |
| Layers.IsControlledIsShape | packages/protected/src/protected/mod.rs:78-85 | `Controlled` is implemented exactly for the nestings that contain no `Indexable` |
| Layers.RiskyUnwrap | packages/protected/src/controlled.rs:230 | `risky_unwrap` returns the inner value |
| Layers.NewThenUnwrap | packages/protected/src/controlled.rs:7-12 | `new(x)` then `risky_unwrap` gives `x` for every controlled nesting |
| Layers.Flatten | packages/protected/src/protected/mod.rs:36-38 | `flatten` of `Protected<Protected<T>>` is a `Protected` holding the innermost value |
| Layers.Transpose | packages/protected/src/protected/mod.rs:52-54 | `transpose` is `Some` iff the inner option is, and then holds it protected |
| Layers.FlattenUndoesDoubleWrap | packages/protected/src/protected/mod.rs:139-145 | flattening a double wrap gives the single wrap; transposing `Some`/`None` gives `Some(Protected)`/`None` |
| Layers.FlattenedArray | packages/protected/src/protected/mod.rs:112-121 | `flatten_array` yields a protected array of the same length holding each element's inner value in order |
| Layers.FlattenArray | packages/protected/src/protected/mod.rs:112-121 | the copying loop builds exactly `FlattenedArray` |
| Layers.FlattenArrayExample | packages/protected/src/protected/mod.rs:146-155 | `[Protected(1), Protected(2), Protected(3)]` flattens to `Protected([1, 2, 3])` |
| Utf8.EncodeChar | packages/protected/src/as_protected_ref.rs:48-52 | a char encodes to 1 to 4 bytes whose lead byte announces the length |
| Utf8.CodePointOfEncoding | packages/protected/src/as_protected_ref.rs:48-52 | decoding the encoding of a char gives its code point |
| Utf8.EncodeCharInjective | packages/protected/src/as_protected_ref.rs:48-52 | distinct chars have distinct encodings |
| Utf8.Encode | packages/protected/src/equatable/mod.rs:251-260 | `as_bytes` of a string is at least as long as the string |
| Utf8.EncodeAppend | packages/protected/src/equatable/mod.rs:262-271 | the bytes of a concatenation are the concatenated bytes |
| Utf8.EncodeInjective | packages/protected/src/equatable/mod.rs:251-260 | two strings with the same bytes are the same string |
| ProtectedRefs.AsProtectedRef | packages/protected/src/as_protected_ref.rs:34-42 | the reference views the `as_ref` of the inner value |
| ProtectedRefs.StrAsProtectedRef | packages/protected/src/as_protected_ref.rs:48-58 | a `str` (or `Cow<str>`) views its UTF-8 bytes |
| ProtectedRefs.StrViewsAreDistinct | packages/protected/src/as_protected_ref.rs:48-58 | two strings give the same byte view iff they are equal |
| Combinators.Generate | packages/protected/src/controlled.rs:33-39 | `generate(f)` has the requested nesting and holds `f()` |
| Combinators.GenerateExample | packages/protected/src/controlled.rs:20-31 | the doc example generates `[1, 2, ..., 8]` |
| Combinators.GenerateOk | packages/protected/src/controlled.rs:56-62 | `generate_ok(f)` is `Ok` iff `f()` is; it wraps the value or passes the error on |
| Combinators.Map | packages/protected/src/controlled.rs:77-85 | `map(f)` keeps the nesting and applies `f` to the inner value |
| Combinators.MapFunctor | packages/protected/src/controlled.rs:77-85 | mapping the identity changes nothing; mapping `f` then `g` equals mapping `g ∘ f` |
| Combinators.MapExample | packages/protected/src/controlled.rs:240-305 | `+10` mapped over `100` under each adapter nesting of the tests gives `110` |
| Combinators.Zip | packages/protected/src/controlled.rs:103-112 | `zip` yields a `Protected` holding `f` of both inner values |
| Combinators.ZipRef | packages/protected/src/controlled.rs:126-136 | `zip_ref` yields a `Protected` holding `f` of the inner value and the referenced value |
| Combinators.ZipExamples | packages/protected/src/controlled.rs:92-124 | the doc examples: `1 + 2 = 3` and `"hello " + "world"` |
| Combinators.Iter | packages/protected/src/controlled.rs:215-221 | `iter` yields one `Protected` per element, in order |
| Combinators.IterFlattenRoundTrip | packages/protected/src/controlled.rs:215-221 | `flatten_array(iter(c))` is `Protected(inner)`, and `iter` of a flattened array gives the array back |
| Lifecycle.Cell.constructor | packages/protected/src/protected/mod.rs:14-19 | a new cell holds the value and is live |
| Lifecycle.Cell.Update | packages/protected/src/controlled.rs:153-158 | `update(f)` rewrites the inner value to `f` of the old one in place and keeps the adapters |
| Lifecycle.Cell.UpdateWith | packages/protected/src/controlled.rs:177-187 | `update_with` consumes `other` (moved, not wiped) and sets the inner value to `f(self, other)` |
| Lifecycle.Cell.UpdateWithRef | packages/protected/src/controlled.rs:205-211 | `update_with_ref` sets the inner value to `f(self, referenced)` and leaves the borrowed value alone |
| Lifecycle.Cell.RiskyUnwrap | packages/protected/src/controlled.rs:230 | unwrapping moves the inner value out and consumes the cell without wiping it |
| Lifecycle.Cell.Clone | packages/protected/src/protected/mod.rs:89-96 | `clone` is a fresh live cell with an equal value, for clonable nestings only |
| Lifecycle.Cell.Zeroize | packages/protected/src/protected/mod.rs:7 | the derived `zeroize` (on `Protected`, and on `Equatable`/`Exportable` over a zeroizable layer) overwrites the inner value with its zero, keeps the nesting, and leaves the value usable |
| Lifecycle.Cell.Drop | packages/protected/src/protected/mod.rs:57 | as the code stands, a value going out of scope is no longer usable and its memory still holds the value: the `ZeroizeOnDrop` marker adds no `Drop` |
| Lifecycle.Cell.DropZeroizing | packages/protected/src/protected/mod.rs:57 | the drop the marker promises: afterwards the memory holds the zero value in the same nesting |
| Lifecycle.UpdateExamples | packages/protected/src/controlled.rs:142-172 | the doc examples: `update` adding one to each of `[0; 4]` gives `[1; 4]`; `update_with` copying `[1; 32]` into `[0; 32]` gives `[1; 32]` |
| Lifecycle.DropLeavesSecret | packages/protected/src/protected/mod.rs:57 | a dropped `Protected([1; 32])` leaves 32 ones in memory as written, and 32 zeros with the zeroizing drop |
| UsageScopes.UsageNew | packages/protected/src/usage/mod.rs:7-15 | `Usage::new(x)` holds `x` and is acceptable exactly for its own scope |
| UsageScopes.UsageScopeExamples | packages/protected/src/usage/mod.rs:46-86 | the tests' scope checks: the default scope, a named scope, a mismatch, and a bare `Protected` in the default scope |
| UsageScopes.ScopeIsPhantom | packages/protected/src/usage/mod.rs:17-41 | the scope never affects `inner`, `unwrap`, `Controlled`-ness or writes |
| ConstantTime.Indices | packages/protected/src/equatable/mod.rs:197-203 | the visiting order of the fold is `0, 1, ..., n-1` |
| ConstantTime.FoldPrefixIsAllPairs | packages/protected/src/equatable/mod.rs:197-203 | folding the first `k` pairs with `&` is true iff every one of those pairs compares equal |
| ConstantTime.ArrayFoldMeaning | packages/protected/src/equatable/mod.rs:192-205 | array `constant_time_eq` is true iff every pair is equal under the element comparison, and iff the arrays are equal when that comparison is equality |
| ConstantTime.ArrayConstantTimeEq | packages/protected/src/equatable/mod.rs:192-205 | the loop computes the fold and visits every index once, without early exit |
| ConstantTime.SliceEqIsEquality | packages/protected/src/equatable/mod.rs:236-249 | slice `constant_time_eq` holds iff the slices are equal |
| ConstantTime.SliceConstantTimeEq | packages/protected/src/equatable/mod.rs:236-249 | the loop computes slice equality, visits every index when the lengths agree and none otherwise |
| ConstantTime.StrEqIsEquality | packages/protected/src/equatable/mod.rs:251-271 | `str`/`String` `constant_time_eq` holds iff the strings are equal |
| ConstantTime.StrConstantTimeEq | packages/protected/src/equatable/mod.rs:251-271 | the comparison runs over the UTF-8 bytes and visits each byte when the byte lengths agree |
| ConstantTime.NonZeroU16ConstantTimeEq | packages/protected/src/equatable/mod.rs:221-234 | true iff the values are equal, and both local copies are zeroed afterwards |
| ConstantTime.AdapterEqIgnoresNesting | packages/protected/src/equatable/mod.rs:161-181 | `==` on `Equatable` (and `Exportable`) is the inner constant-time comparison, whatever adapters either side carries |
| ConstantTime.AdapterEqOnByteArrays | packages/protected/src/exportable/mod.rs:41-50 | for byte arrays `==` through the adapters holds iff the inner arrays are equal |
| ConstantTime.EquatableExamples | packages/protected/src/equatable/mod.rs:324-350 | the tests: 27 equals 27, 27 differs from 0, two zero arrays built two ways are equal, and `Equatable` equals `Exportable<Equatable>` holding 42 |
| SafeSerde.HexDigit | packages/protected/src/exportable/safe_serialize.rs:32 | each digit below 16 prints as a hex digit that reads back as that digit |
| SafeSerde.HexLower | packages/protected/src/exportable/safe_serialize.rs:26-34 | the hex form of `n` bytes has `2n` characters |
| SafeSerde.HexLowerIsLower | packages/protected/src/exportable/safe_serialize.rs:26-34 | every character of the hex form is a lower-case hex digit (`0-9`, `a-f`) |
| SafeSerde.HexLowerPair | packages/protected/src/exportable/safe_serialize.rs:26-34 | byte `k` appears as its high then low nibble at positions `2k`, `2k+1` |
| SafeSerde.DecodePairs | packages/protected/src/exportable/safe_serialize.rs:36-48 | decoding `k` hex pairs yields `k` bytes or an encoding error |
| SafeSerde.DecodeFailurePersists | packages/protected/src/exportable/safe_serialize.rs:36-48 | once a prefix fails to decode, every longer prefix fails |
| SafeSerde.DecodeHexLower | packages/protected/src/exportable/safe_serialize.rs:26-48 | decoding the hex form gives back each prefix of the bytes |
| SafeSerde.ToLowerHex | packages/protected/src/exportable/safe_serialize.rs:45 | normalising the case keeps the length |
| SafeSerde.DecodedReencodes | packages/protected/src/exportable/safe_serialize.rs:36-48 | re-encoding the decoded bytes gives the input with `A-F` lowered (hex decoding accepts either case) |
| SafeSerde.DecodeByteArray | packages/protected/src/exportable/safe_serialize.rs:36-48 | a successful `[u8; N]` decode yields exactly `N` bytes |
| SafeSerde.SafeDeserializeByteArray | packages/protected/src/exportable/safe_serialize.rs:40-47 | the decoder loop into the zeroed buffer computes exactly `DecodeByteArray` |
| SafeSerde.ByteArrayRoundTrip | packages/protected/src/exportable/safe_serialize.rs:26-48 | deserialising a serialised byte array gives it back in both formats |
| SafeSerde.ByteArrayDecodeThenEncode | packages/protected/src/exportable/safe_serialize.rs:26-48 | serialising what was decoded gives the token back, with hex lower-cased |
| SafeSerde.DeserializeU8 | packages/protected/src/exportable/safe_serialize.rs:50-51 | a `u8` decodes exactly from a `u8` token |
| SafeSerde.U8RoundTrip | packages/protected/src/exportable/safe_serialize.rs:50-51 | `u8` serialisation round-trips in both directions |
| SafeSerde.DeserializeControlled | packages/protected/src/exportable/mod.rs:90-101 | deserialising a nesting is `Ok` iff the inner decode is; then it builds the nesting around the decoded value; otherwise it passes the error on |
| SafeSerde.ControlledRoundTrip | packages/protected/src/exportable/mod.rs:77-101 | an inner round trip lifts through any adapter nesting: only the inner value is written, and the reader's nesting is rebuilt around it |
| SafeSerde.U8ControlledExamples | packages/protected/src/exportable/mod.rs:145-180 | the bincode tests: 42 flat, nested, and re-read under the other adapter order |
| SafeSerde.ByteArrayControlledRoundTrip | packages/protected/src/exportable/mod.rs:104-130 | a byte array inside any nesting round-trips through safe serialisation |
| Conversions.FromValue | packages/protected/src/conversions.rs:6-10 | `From<T>` wraps the value in a bare `Protected` |
| Conversions.FromChars | packages/protected/src/conversions.rs:12-16 | `From<[char; N]>` holds the string of those chars, in order |
| Conversions.CollectChars | packages/protected/src/conversions.rs:14 | collecting chars gives a string with exactly those chars in order |
| Conversions.FromGenericArray | packages/protected/src/conversions.rs:18-26 | `From<GenericArray>` holds the same `N` bytes |
| Conversions.ConversionExamples | packages/protected/src/conversions.rs:70-97 | the tests: `"cookies!!!"`, `[1, 2, 3]`, a `NonZeroU8`, a string |
| Zeroed.ZeroedArray | packages/protected/src/zeroed.rs:9-19 | `zeroed()` of a supported `[u8; N]` is `N` zeros |
| Zeroed.ZeroedControlled | packages/protected/src/zeroed.rs:33-58 | `zeroed()` of a `Protected`/`Equatable`/`Exportable` nesting has that nesting around the zero value |
| Zeroed.ZeroedFacts | packages/protected/src/zeroed.rs:60-62 | supported `u8` sizes are at most 1024, `u16` supports 512 but not 1024, `u8` does not support 33, and a zeroed nesting is controlled and unwraps to zeros |
| Ops.Xor | packages/protected/src/ops.rs:6-16 | `^` on two `Protected` values is a `Protected` of the XOR of the inner values |
| Ops.XorTwice | packages/protected/src/ops.rs:6-16 | `(a ^ b) ^ b` unwraps to `a`, and XOR of two width-`w` values stays in width `w` |
| Ops.IndexByProtected | packages/protected/src/slice_index.rs:5-11 | indexing an array by `Protected<usize>` gives the element at the unwrapped index |
| IndexableAccess.Index | packages/protected/src/indexable/mod.rs:18-29 | `Indexable[i]` is element `i` of the inner value |
| IndexableAccess.IndexableNew | packages/protected/src/indexable/mod.rs:6-14 | `Indexable::new(x)` is indexable and `[i]` reads `x[i]`; the test reads 1 at index 0 |
| BitIndex.GetUnchecked | packages/protected/src/bitvec.rs:37-39 | the unchecked reference points at the unwrapped offset |
| BitIndex.Write | packages/protected/src/bitvec.rs:42-44 | writing through a bit reference changes that bit alone |
| BitIndex.Get | packages/protected/src/bitvec.rs:18-25 | `get` is `Some` iff the index is in range, and then reads that bit |
| BitIndex.GetMut | packages/protected/src/bitvec.rs:28-34 | `get_mut` is `Some` iff the index is in range, and then refers to that bit |
| BitIndex.IndexBit | packages/protected/src/bitvec.rs:47-51 | `index` in range agrees with `get` |
| BitIndex.IndexBitMut | packages/protected/src/bitvec.rs:54-59 | `index_mut` in range agrees with `get_mut` |
| BitIndex.WriteThenGet | packages/protected/src/bitvec.rs:18-59 | after a write through `get_mut`, `get` reads the written bit and every other bit is unchanged |
| BitIndex.GetU8 | packages/protected/src/bitvec.rs:71-78 | `get` by `Protected<u8>` is `Some` iff in range, reading that bit |
| BitIndex.GetMutU8 | packages/protected/src/bitvec.rs:81-87 | `get_mut` by `Protected<u8>` is `Some` iff in range |
| BitIndex.U8IndexAgreesWithUsize | packages/protected/src/bitvec.rs:62-112 | indexing by a `u8` behaves as indexing by the same value as `usize` |
| Elementwise.Permuted | packages/permutation/src/elementwise.rs:15-28 | `permute` output has the key's length |
| Elementwise.Depermuted | packages/permutation/src/elementwise.rs:40-53 | `depermute` output has the key's length |
| Elementwise.DepermuteInvertsPermute | packages/permutation/src/elementwise.rs:108-119 | for a valid key, depermuting a permuted input gives it back |
| Elementwise.PermuteInvertsDepermute | packages/permutation/src/elementwise.rs:15-53 | for a valid key, permuting a depermuted input gives it back |
| Elementwise.PermuteComposition | packages/permutation/src/elementwise.rs:77-92 | permuting by `k1` then `k2` equals permuting by `k2.permute(k1)` (the associativity test) |
| Elementwise.PermutedKeepsEntries | packages/permutation/src/elementwise.rs:15-28 | permuting by a valid key keeps the multiset of elements |
| Elementwise.ComposedIsPermutation | packages/permutation/src/elementwise.rs:77-92 | a key permuted by a key is again a valid key |
| Elementwise.Permute | packages/permutation/src/elementwise.rs:15-28 | the fold computes `Protected(Permuted(key, input))` |
| Elementwise.Depermute | packages/permutation/src/elementwise.rs:40-53 | the scatter fold computes `Protected(Depermuted(key, input))` |
| Permutations.IdentityKey | packages/permutation/src/lib.rs:32-43 | `identity()` is `[0, 1, ..., N-1]` and is a permutation |
| Permutations.IdentityCount | packages/permutation/src/lib.rs:32-43 | the identity holds each value below `N` exactly once |
| Permutations.PermutationDistinct | packages/permutation/src/key.rs:9-14 | a valid key has no repeated entry |
| Permutations.PermutationBounded | packages/permutation/src/key.rs:9-14 | every entry of a valid key is below `N` |
| Permutations.PermutationCovers | packages/permutation/src/key.rs:9-14 | every position below `N` occurs in a valid key |
| Permutations.NewUnchecked | packages/permutation/src/key.rs:14-16 | `new_unchecked` stores the key as given, protected |
| Permutations.NewUncheckedKeepsEntries | packages/permutation/src/key.rs:9-16 | the stored key is the input; an invalid input stays invalid (nothing is checked) |
| Permutations.KeyIter | packages/permutation/src/key.rs:18-20 | `iter` yields the entries in order, each protected |
| Permutations.Swap | packages/permutation/src/key.rs:33 | `swap` keeps the length |
| Permutations.SwapKeepsEntries | packages/permutation/src/key.rs:33 | `swap` keeps the multiset of entries |
| Permutations.Shuffled | packages/permutation/src/key.rs:30-35 | the Fisher-Yates pass keeps the length |
| Permutations.ShuffledKeepsEntries | packages/permutation/src/key.rs:26-37 | the shuffle is a permutation of its input |
| Permutations.FreshIdentity | packages/permutation/src/key.rs:26-29 | the first loop fills a fresh buffer with the identity |
| Permutations.SwapAt | packages/permutation/src/key.rs:33 | `key.swap(i, j)` on the array leaves it holding `Swap` of its old contents |
| Permutations.ShuffleInPlace | packages/permutation/src/key.rs:30-35 | the second loop leaves the array holding `Shuffled` of its old contents, one swap per position from the top down |
| Permutations.GenerateKey | packages/permutation/src/key.rs:23-38 | `generate` returns `Ok` holding the shuffled identity, which has the identity's entries and, for `N <= 256`, is a valid permutation key |
| Bitwise.BitPermuted | packages/permutation/src/bitwise.rs:32-45 | the bit-permuted value fits the integer's width |
| Bitwise.BitPermutedBits | packages/permutation/src/bitwise.rs:35-41 | output bit `i` is input bit `key[i]` in MSB-first order |
| Bitwise.PermutedKeepsSetBit | packages/permutation/src/bitwise.rs:35-41 | permuting bits by a valid key keeps some bit set |
| Bitwise.BitPermutedNonZero | packages/permutation/src/bitwise.rs:43-44 | a non-zero input with a valid key gives a non-zero output, which justifies `new_unchecked` |
| Bitwise.NoBitSetReadsZero | packages/permutation/src/bitwise.rs:43 | an all-clear bit array reads as zero |
| Bitwise.RepeatedKeyCanZero | packages/permutation/src/key.rs:9-16 | an unchecked key that reads bit 7 at every position is in range but not a permutation, and maps the non-zero `0x80` to zero, so the `NonZero` claim needs a valid key |
| Bitwise.BitwisePermute | packages/permutation/src/bitwise.rs:30-47 | the bit loop computes `Protected(BitPermuted(key, x))`, non-zero and within width |
| Bitwise.PermuteWith | packages/permutation/src/bitwise.rs:9-19 | `BitwisePermutation::permute` delegates to the key's bitwise permutation |
| SafeRandom.WordsFor | packages/random/src/safe_rand.rs:48-50 | a fill of `n` bytes takes the fewest whole words that cover `n` bytes |
| SafeRandom.FillBytes | packages/random/src/safe_rand.rs:48-50 | a fill writes exactly `n` bytes |
| SafeRandom.FillPrefix | packages/random/src/safe_rand.rs:48-50 | a shorter fill writes a prefix of a longer one |
| SafeRandom.RejectionDraw | packages/random/src/safe_rand.rs:22-25 | the rejection loop yields a residue at most `limit` of some consumed word, or nothing |
| SafeRandom.RejectionDrawIsFirst | packages/random/src/safe_rand.rs:22-25 | the accepted word is the first acceptable one; on failure no word was acceptable |
| SafeRandom.ModuloBounded | packages/random/src/safe_rand.rs:16-28 | `next_bounded_u32` as written: result at most `max`; below `max` with one word when `max` is a power of two |
| SafeRandom.ExclusiveBounded | packages/random/src/safe_rand.rs:14-15 | the corrected sampler: result below `max` |
| SafeRandom.SamplersFailOnlyWhenAllRejected | packages/random/src/safe_rand.rs:16-28 | both samplers fail iff the stream is empty or, for non-powers of two, every word is rejected |
| SafeRandom.ExclusiveAgreesBelowMax | packages/random/src/safe_rand.rs:16-28 | on one word, the corrected sampler accepts exactly when the as-written one returns a value below `max`, and then both return the same value |
| SafeRandom.ModuloBoundedReachesMax | packages/random/src/safe_rand.rs:20-26 | as written, for a `max` that is not a power of two, every value up to and including `max` is returned for some stream |
| SafeRandom.InclusiveBoundExample | packages/random/src/safe_rand.rs:73-78 | for `max = 5` the stream `[5]` yields 5, which the test says is impossible |
| SafeRandom.ExclusiveBoundedReachesAll | packages/random/src/safe_rand.rs:14-15 | the corrected sampler reaches every value below `max` |
| SafeRandom.SafeRand.constructor | packages/random/src/safe_rand.rs:53-58 | a generator is the stream it will produce |
| SafeRandom.SafeRand.NextU32 | packages/random/src/safe_rand.rs:35-37 | `next_u32` returns the next word and advances by one |
| SafeRandom.SafeRand.TryFill | packages/random/src/safe_rand.rs:48-50 | `try_fill_bytes` succeeds iff enough words remain; on success it writes `FillBytes` and consumes those words; on failure the buffer and stream are unchanged |
| SafeRandom.SafeRand.Reject | packages/random/src/safe_rand.rs:22-25 | the `while value > limit` loop returns `RejectionDraw` and consumes exactly the words it drew |
| SafeRandom.SafeRand.NextBoundedU32 | packages/random/src/safe_rand.rs:16-28 | the method computes `ModuloBounded` and consumes its words |
| SafeRandom.SafeRand.NextBelowU32 | packages/random/src/safe_rand.rs:14-15 | the corrected method computes `ExclusiveBounded` |
| Bounded.MaskedBounded | packages/random/src/bounded.rs:28-40 | the free `next_bounded_u32`: at most `max`; below `max` in one word for powers of two |
| Bounded.MaskedAgreesWithModulo | packages/random/src/bounded.rs:28-40 | the `& (max-1)` version equals `SafeRand::next_bounded_u32`'s `% max` version on every stream |
| Bounded.ZeroBoundGivesZero | packages/random/src/bounded.rs:31-38 | `max = 0` (not a power of two; cap 1) returns 0 after one word |
| Bounded.RejectionTestVectors | packages/random/src/bounded.rs:74-84 | the tests: 8 for max 10 gives 8; 25 gives `25 % 16 = 9` |
| Bounded.MaskTestVectors | packages/random/src/bounded.rs:86-96 | the tests: 10 and 40 masked to 32 give 10 and 8 |
| Bounded.NextBoundedU32 | packages/random/src/bounded.rs:28-40 | the method computes `MaskedBounded` and consumes its words |
| Bounded.NextBounded | packages/random/src/bounded.rs:10-14 | `BoundedRng<u32>` delegates to it |
| Bounded.NextBoundedProtected | packages/random/src/bounded.rs:16-20 | `BoundedRng<Protected<u32>>` maps the sampler inside `Protected` |
| Generatable.U16Draw | packages/random/src/generatable.rs:64-67 | a 2-byte fill read big-endian: first little-endian byte high, second low |
| Generatable.U32DrawInjective | packages/random/src/generatable.rs:80-83 | distinct words give distinct `u32` draws |
| Generatable.U16DrawZero | packages/random/src/generatable.rs:31-37 | the `u16` draw is zero iff the word's low 16 bits are zero |
| Generatable.NonZeroDraw | packages/random/src/generatable.rs:27-40 | `NonZeroU16::random` returns the first non-zero draw, after only zero draws, or `GenerationFailed` when the stream holds none |
| Generatable.NonZeroRetryExample | packages/random/src/generatable.rs:33-38 | a zero draw is retried: `[0, 0x0102]` yields `0x0201` after two words |
| Generatable.RandomNonZeroU16 | packages/random/src/generatable.rs:27-40 | the recursive method computes `NonZeroDraw` and consumes its words |
| Generatable.RandomBytes | packages/random/src/generatable.rs:42-52 | `[u8; N]::random` is `Ok(FillBytes)` iff enough words remain, else `GenerationFailed` with the stream unchanged |
| Generatable.RandomProtectedBytes | packages/random/src/generatable.rs:54-58 | `Protected<[u8; N]>::random` is the same wrapped in `Protected` |
| Generatable.RandomProtectedU16 | packages/random/src/generatable.rs:61-75 | `Protected<u16>::random` is the big-endian draw of one word, or `GenerationFailed` with the buffer zeroed |
| Generatable.RandomProtectedU32 | packages/random/src/generatable.rs:77-91 | `Protected<u32>::random` is the big-endian draw of one word, or `GenerationFailed` with the buffer zeroed |
| Passwords.StandardCharsAsWrittenRepeats | packages/password/src/lib.rs:4-9 | the table as written has 94 entries, `e` at 29 and 30, `x` at 49 and 51, and neither `d` nor `z` |
| Passwords.StandardCharsLayout | packages/password/src/lib.rs:4-9 | the corrected table: `A-Z`, `a-z`, `0-9`, then the symbols, 94 entries |
| Passwords.StandardCharsClasses | packages/password/src/lib.rs:76-96 | in the corrected table the first 52 are letters, the first 62 alphanumerics, and every lower-case letter occurs |
| Passwords.Draw | packages/password/src/lib.rs:69 | one draw is at most the bound (below it when exclusive) |
| Passwords.SampleIndices | packages/password/src/lib.rs:68-71 | `n` draws give `n` indices within the bound |
| Passwords.Lookup | packages/password/src/lib.rs:70 | the lookup finishes iff every index is in range, giving `table[index]` in order; otherwise it panics at an out-of-range index |
| Passwords.LookupPanicsAtFirst | packages/password/src/lib.rs:68-71 | the panic reports the first out-of-range index |
| Passwords.LookupInRange | packages/password/src/lib.rs:68-71 | indices below `bound` pick only chars from the table's first `bound` entries |
| Passwords.DrawIndex | packages/password/src/lib.rs:69 | one call of the sampler computes `Draw` and consumes its words |
| Passwords.FillChars | packages/password/src/lib.rs:67-71 | the per-position loop computes `Lookup` of `SampleIndices` and, when it finishes, consumes those words |
| Passwords.NewPassword | packages/password/src/lib.rs:23-25 | `Password::new` protects the chars as given |
| Passwords.GeneratePasswordAsWritten | packages/password/src/lib.rs:65-74 | as written, generation panics exactly when a drawn index is out of range, and otherwise returns the looked-up chars and leaves the stream after the draws |
| Passwords.GenerateAlphaNumericAsWritten | packages/password/src/lib.rs:76-85 | as written, the alphanumeric password is the lookup of draws up to and including 62; the stream is left after the draws |
| Passwords.GenerateAlphaAsWritten | packages/password/src/lib.rs:87-96 | as written, the alphabetic password is the lookup of draws up to and including 52; the stream is left after the draws |
| Passwords.AsWrittenDrawsBound | packages/password/src/lib.rs:69 | the inclusive sampler can draw the bound itself; the exclusive one cannot |
| Passwords.AsWrittenLookups | packages/password/src/lib.rs:69-92 | as written, drawing 94 panics, 62 yields `~` (not alphanumeric), and 52 yields `0` (not a letter) |
| Passwords.GeneratePassword | packages/password/src/lib.rs:65-74 | the corrected generator returns the table's chars at the `n` exclusive draws below 94, so `n` chars all from the table, and leaves the stream after the draws |
| Passwords.GenerateAlphaNumeric | packages/password/src/lib.rs:76-85 | the corrected generator returns the table's chars at the `n` exclusive draws below 62, so `n` alphanumeric chars, and leaves the stream after the draws |
| Passwords.GenerateAlpha | packages/password/src/lib.rs:87-96 | the corrected generator returns the table's chars at the `n` exclusive draws below 52, so `n` letters, and leaves the stream after the draws |
| HashTraits.Finalized | packages/traits/src/lib.rs:27-34 | `finalize_fixed` output has the output type's nesting |
| HashTraits.FinalizedOutput | packages/traits/src/lib.rs:9-34 | the output unwraps to what `finalize_into` wrote into the zeroed buffer, has size `OutputSize`, and bytes left alone stay zero |
| HashTraits.Hasher.constructor | packages/traits/src/lib.rs:40-42 | a fresh hasher has absorbed nothing |
| HashTraits.Hasher.Update | packages/traits/src/lib.rs:42 | `update` appends the input to what was absorbed |
| HashTraits.Hasher.Chain | packages/traits/src/lib.rs:44-52 | `chain` updates and returns the same hasher |
| HashTraits.Hasher.FinalizeFixed | packages/traits/src/lib.rs:27-34 | `finalize_fixed` returns the output for the absorbed inputs |
| HashTraits.Hasher.FinalizeReset | packages/traits/src/lib.rs:60-69 | `finalize_reset` returns the same output and leaves the hasher as new |
| HashTraits.ChainExample | packages/traits/src/lib.rs:44-69 | chaining `a, b` and finalising gives the output for `[a, b]`; after a reset the same chain gives it again |
| CipherTextFraming.Frame | packages/traits/src/aead/ciphertext/write_monads.rs:66-73 | `build` lays out the nonce, then the body |
| CipherTextFraming.SplitNonce | packages/traits/src/aead/ciphertext/read_monads.rs:13-22 | reading the nonce splits off exactly `N` bytes; the two parts concatenate back to the input |
| CipherTextFraming.FrameSplitRoundTrip | packages/traits/src/aead/ciphertext/mod.rs:50-82 | splitting a framed ciphertext gives back the nonce and body, and framing the parts of a split gives back the bytes |
| CipherTextFraming.DeserializeCipherText | packages/traits/src/aead/ciphertext/mod.rs:8-10 | the transparent deserialiser accepts exactly a byte token |
| CipherTextFraming.CipherTextAccessors | packages/traits/src/aead/ciphertext/mod.rs:8-19 | `into_inner` and `into_reader` expose the bytes; the transparent serde form round-trips in both directions |
| CipherTextFraming.AcceptsCiphertextAndTag | packages/traits/src/aead/ciphertext/write_monads.rs:51-53 | the closure's output replaces the plaintext inside `Protected`; the nonce is kept |
| CipherTextFraming.MapOk | packages/traits/src/aead/ciphertext/read_monads.rs:38 | `map_ok` is `Ok` iff the closure is; it protects the value or passes the error on |
| CipherTextFraming.AcceptsCiphertextAndTagOk | packages/traits/src/aead/ciphertext/mod.rs:35-40 | the fallible form the tests use is `Ok` iff the closure is, keeping the nonce |
| CipherTextFraming.Build | packages/traits/src/aead/ciphertext/write_monads.rs:66-73 | the extend loop builds exactly `Frame(nonce, ciphertext)` |
| CipherTextFraming.ReadNonce | packages/traits/src/aead/ciphertext/read_monads.rs:13-29 | the byte-at-a-time read yields the first `N` bytes as the nonce and protects the rest |
| CipherTextFraming.WriteThenRead | packages/traits/src/aead/ciphertext/mod.rs:50-82 | writing then reading recovers the nonce and the ciphertext, and decryption sees exactly what encryption produced |
| CipherTextFraming.FramingExample | packages/traits/src/aead/ciphertext/mod.rs:29-82 | the tests' 38-byte layout, the twelve `1`s of the nonce, the 26 bytes seen by the decryptor, and the zeroed first ten bytes |
| CipherTextBuffer.AfterNonce | packages/traits/src/aead/ciphertext.rs:22-43 | `ciphertext()` is the bytes after the nonce |
| CipherTextBuffer.ReadNonce | packages/traits/src/aead/ciphertext.rs:22-36 | `read_nonce` copies the first `N` bytes; the next reader keeps the whole buffer, and nonce plus ciphertext gives it back |
| CipherTextBuffer.CipherTextBuilder.constructor | packages/traits/src/aead/ciphertext.rs:147-149 | an empty buffer with capacity for the nonce, the ciphertext and the tag |
| CipherTextBuffer.CipherTextBuilder.AppendNonce | packages/traits/src/aead/ciphertext.rs:151-154 | the nonce is appended and the buffer moves to `NonceWritten` |
| CipherTextBuffer.CipherTextBuilder.ReadNonce | packages/traits/src/aead/ciphertext.rs:156-160 | a copy of the first `N` bytes, which with the rest makes the buffer |
| CipherTextBuffer.CipherTextBuilder.AppendTag | packages/traits/src/aead/ciphertext.rs:162-165 | the tag is appended |
| CipherTextBuffer.CipherTextBuilder.AppendTargetPlaintext | packages/traits/src/aead/ciphertext.rs:167-170 | the unwrapped plaintext is appended |
| CipherTextBuffer.CipherTextBuilder.Extend | packages/traits/src/aead/ciphertext.rs:183-190 | `extend` appends the items |
| CipherTextBuffer.CipherTextBuilder.IntoPlaintext | packages/traits/src/aead/ciphertext.rs:172-174 | the whole buffer, protected |
| CipherTextBuffer.CipherTextBuilder.AsRef | packages/traits/src/aead/ciphertext.rs:212-216 | `as_ref` is the bytes after the nonce |
| CipherTextBuffer.CipherTextBuilder.Build | packages/traits/src/aead/ciphertext.rs:178-180 | `build` freezes the buffer as is |
| CipherTextBuffer.NonceWritten.constructor | packages/traits/src/aead/ciphertext.rs:71 | the state holds the buffer handed on |
| CipherTextBuffer.NonceWritten.CiphertextMut | packages/traits/src/aead/ciphertext.rs:72-74 | `ciphertext_mut` is `None` iff the buffer is shorter than `N`, otherwise the bytes after the nonce |
| CipherTextBuffer.NonceWritten.AppendCiphertext | packages/traits/src/aead/ciphertext.rs:76-80 | the ciphertext is appended |
| CipherTextBuffer.NonceWritten.AppendCiphertextAndTag | packages/traits/src/aead/ciphertext.rs:82-85 | append, then build: the result is the old buffer plus the ciphertext |
| CipherTextBuffer.NonceWritten.AppendTargetPlaintext | packages/traits/src/aead/ciphertext.rs:87-90 | the plaintext is appended and the buffer moves on with both flags clear |
| CipherTextBuffer.NonceWritten.Build | packages/traits/src/aead/ciphertext.rs:92-96 | `build` freezes the buffer unchecked |
| CipherTextBuffer.PlaintextWritten.constructor | packages/traits/src/aead/ciphertext.rs:115-125 | a new state has neither flag set |
| CipherTextBuffer.PlaintextWritten.AcceptsCiphertextAndTag | packages/traits/src/aead/ciphertext.rs:127-131 | the buffer moves on, not yet built |
| CipherTextBuffer.PlaintextWritten.TryBuild | packages/traits/src/aead/ciphertext.rs:133-139 | `try_build` succeeds iff both encrypted and tag-written are set |
| CipherTextBuffer.AcceptsCipherTextAndTag.constructor | packages/traits/src/aead/ciphertext.rs:99-104 | a new state is not built |
| CipherTextBuffer.AcceptsCipherTextAndTag.Extend | packages/traits/src/aead/ciphertext.rs:192-197 | `extend` appends and marks the buffer built |
| CipherTextBuffer.AcceptsCipherTextAndTag.AsMut | packages/traits/src/aead/ciphertext.rs:199-208 | `as_mut` marks the buffer built and hands out the bytes after the nonce |
| CipherTextBuffer.AcceptsCipherTextAndTag.TryBuild | packages/traits/src/aead/ciphertext.rs:105-113 | `try_build` succeeds iff `extend` or `as_mut` ran |
| CipherTextBuffer.AppendExample | packages/traits/src/aead/ciphertext.rs:144-181 | nonce, ciphertext and tag land at 0..12, 12..22 and 22..38, and the reader recovers them |
| CipherTextBuffer.FlagExample | packages/traits/src/aead/ciphertext.rs:105-139 | a `PlaintextWritten` never builds; `AcceptsCipherTextAndTag` builds only after `extend`, holding nonce, plaintext and tag in order |
| Paranoid.NewInner | packages/paranoid/src/protected/mod.rs:14-27 | `new` for a nesting stores the value and builds that nesting; `new(inner(c))` rebuilds `c` |
| Paranoid.EquatableFrom | packages/paranoid/src/equatable/mod.rs:29-33 | `Equatable::from` adds an `Equatable` layer over the same value |
| Paranoid.Zeroized | packages/paranoid/src/protected/mod.rs:9-10 | the derived `zeroize` on `Protected` (the only type of the crate that implements `Zeroize`) gives `Protected` of the zero value |
| Paranoid.FromValue | packages/paranoid/src/protected/conversions.rs:6-10 | `From<T>` wraps the value in a bare `Protected` |
| Paranoid.FromChars | packages/paranoid/src/protected/conversions.rs:12-16 | `From<[char; N]>` holds those chars in order |
| Paranoid.FromGenericArray | packages/paranoid/src/protected/conversions.rs:18-26 | `From<GenericArray>` holds the same bytes |
| Paranoid.ConversionExamples | packages/paranoid/src/protected/conversions.rs:32-58 | the tests: `[0; 32]`, 42, `[42; 32]`, `"cookies!!!"`, `[1, 2, 3]` |
| Paranoid.ExportableEq | packages/paranoid/src/exportable/mod.rs:10-18 | `==` on `Exportable<Equatable<T>>` holds iff the inner values are equal |
| Paranoid.Deserialize | packages/paranoid/src/exportable/mod.rs:45-56 | deserialising is `Ok` iff the inner decode is, and then builds the requested nesting around the value |
| Paranoid.ExportableRoundTrip | packages/paranoid/src/exportable/mod.rs:32-56 | a value whose inner encoding round-trips deserialises to itself |
| Paranoid.ExportableExamples | packages/paranoid/src/exportable/mod.rs:63-79 | the bincode tests: 42 flat, and nested compared with `==` |
| ParanoidEq.CtEqIsEquality | packages/paranoid/src/equatable/mod.rs:52-115 | for values of one type (integers, `NonZeroU16`, arrays of them), `constant_time_eq` holds iff they are equal |
| ParanoidEq.ConstantTimeEq | src/safe_eq.rs:44-107 | the recursive comparison computes `CtEq`, visits every index of the shorter array in order without early exit, and zeroes the `NonZeroU16` copies |
| ParanoidEq.LayerEqIsInnerEquality | src/safe_eq.rs:13-35 | `==` on `Equatable` and `SafeEq` holds iff the inner values are equal, and on `Equatable` agrees with the `Exportable` comparison |
| ParanoidEq.ZeroBytes16 | packages/paranoid/src/equatable/mod.rs:121-128 | the tests' `[0u8; 16]` is a 16-byte array value |
| ParanoidEq.EqualityExamples | packages/paranoid/src/equatable/mod.rs:121-153 | the tests: zero arrays equal under both adapters, `from` equals `new`, 27 equals 27, 27 differs from 0 |

## Left out

- **The ChaCha20 generator and seeding.** The output is a word stream given to the model (`SafeRand` constructor). `from_entropy`, `from_seed` and seed-dependent test vectors (the permutation tests' expected arrays) cannot be reproduced without it.
- **`next_u64` and `fill_bytes`.** Not modelled; the model covers `next_u32` and `try_fill_bytes`.
- **Generator errors.** A stream that runs out stands for the generator's error. The real generator never runs out, so the bounded samplers require a stream that holds an accepted draw.
- **SafeRandom.ModuloBounded:** does not cover `max > 2^31`, where `next_power_of_two` overflows (it panics in debug builds and returns 0 in release).
- **SafeRandom.SafeRand.NextBoundedU32:** requires `max <= 2^31`, for the same overflow.
- **Bounded.MaskedBounded:** requires `max <= 2^31`, for the same overflow of `next_power_of_two` in bounded.rs.
- **Bounded.NextBoundedU32:** requires `max <= 2^31`, as `Bounded.MaskedBounded`.
- **Bounded.NextBounded:** requires `max <= 2^31`, as `Bounded.MaskedBounded`.
- **Bounded.NextBoundedProtected:** requires `max <= 2^31`, as `Bounded.MaskedBounded`.
- **Passwords.Draw:** requires a bound of at most `2^31`, as the sampler it calls; the password bounds 94, 62 and 52 are far below it.
- **Passwords.DrawIndex:** requires a bound of at most `2^31`, as `Passwords.Draw`.
- **The `Indexable` layer.** packages/protected/src/lib.rs declares no `mod indexable`, and indexable/mod.rs refers to a `ParanoidPrivate` trait that does not exist, so that file is not compiled. `IndexableAccess` and the `Indexable` case of `Layers` (`Layers.ControlledShapeCons`, `Layers.IsControlledIsShape`) model what the file states.
- **`gen_range(0..=i)` in `PermutationKey::generate`.** It is the `rand` crate's internal sampler, so it is modelled as a sequence of picks given with the stream (`Permutations.GenerateKey`).
- **`BoundedRng<usize>` and `into_unprotected_string`/`into_protected_string` of passwords.** These are `unimplemented!()` stubs.
- **Debug and Display formatting** (`opaque_debug`).
- **Timing.** Constant-time behaviour is stated as "visits every index, no early exit" (the ghost `visited` sequence). It is not stated as a timing property.
- **`subtle`'s `ct_eq` on integers.** It is modelled as equality.
- **Memory.** A cell's `value` stands for the memory it occupies. Zeroising is an assignment of the zero value, and the end of life is the ghost `dropped` flag; real memory overwrite, compiler elision of writes and copies made by `Copy` are not modelled.
- **Zeroizing in the `paranoid` crate.** Only `Protected` derives `Zeroize` there (packages/paranoid/src/protected/mod.rs:9), so `Paranoid.Zeroized` is defined on `Protected` alone. Its `ZeroizeOnDrop` (line 12) is the same empty marker as in `vitaminc-protected`.
- **serde and bincode.** Their internals are abstracted as tokens and encoder/decoder parameters. Only the hex/binary codec of `serdect` is spelled out.
- **`Lifecycle.Cell.Update`:** the closure's in-place mutation is modelled as a pure function of the old inner value.
- **Writes through `&mut [u8]`.** The slices handed out by `ciphertext_mut` and `as_mut` are returned as values; later writes through them are not modelled.
- **Panics on short ciphertexts.** `read_nonce` on fewer than `N` bytes and the unchecked `as_mut` are preconditions.
- **`read_ciphertext` in `aead/ciphertext.rs`, and the private no-op `accepts_ciphertext`.** `read_ciphertext` refers to names that do not exist; `accepts_ciphertext` does nothing. Neither is modelled.
- **`accepts_ciphertext_and_tag_ok` and `map_ok`.** Their definitions are not part of this model. They are modelled from how the tests use them.
- **The hasher's internal state.** It is the sequence of absorbed inputs. `finalize_into` is a parameter.
- **`usize`.** It is taken to be 64 bits.
- **Not part of this model:** `kms`, `aws-lc`, `vitaminc-aws-lc`, `async-traits`, `aead/mod.rs`, `aead.rs`, `digest.rs`, `random/impls.rs`, `paranoid/generic_array.rs`, `paranoid/debug.rs`, `private.rs` and the demo `main.rs` files. These are external bindings, re-exports, trait glue or demos.

## Findings

| source | as written | input that shows it | evidently intended | confidence | as-written member | corrected member |
|---|---|---|---|---|---|---|
| packages/random/src/safe_rand.rs:14-28 | the doc comment (line 14) and the rejection branch (`while value > max`, line 23) are inclusive: `max` itself can be returned; the power-of-two branch (`% max`, line 18) is exclusive | `max = 5`, next word 5: returns 5, while the test at lines 73-78 asserts `value < 5` | a value in `0..max`, i.e. redraw while `value >= max`. The tests (lines 66-78, `< 4` and `< 5`), the power-of-two branch, and the password callers (packages/password/src/lib.rs:69, 80, 91), which pass the size of the table they index, all need the exclusive bound; only the doc comment says inclusive | not executed | SafeRandom.InclusiveBoundExample | SafeRandom.ExclusiveBounded |
| packages/protected/src/protected/mod.rs:57 | `ZeroizeOnDrop` is an empty marker impl; no type has a `Drop` impl (and the `Copy` impl at line 87 rules one out), so dropping a `Protected` overwrites nothing. packages/paranoid/src/protected/mod.rs:12 is the same marker | `Protected::new([1u8; 32])` going out of scope: its 32 bytes of ones stay in memory | zeroize the inner value on drop, as the marker (and packages/protected/src/controlled.rs:183) assume; for a `Copy` inner type this needs the `Copy` impl gone | not executed | Lifecycle.DropLeavesSecret | Lifecycle.Cell.DropZeroizing |
| packages/password/src/lib.rs:68-71 | indices come from the inclusive sampler and index `STANDARD_CHARS` directly | a draw of 94 panics (index out of bounds); a draw of 62 in the alphanumeric generator gives `~`; a draw of 52 in the alphabetic one gives `0` | every index below the table size or class size | not executed | Passwords.AsWrittenLookups | Passwords.GeneratePassword |
| packages/password/src/lib.rs:4-9 | `STANDARD_CHARS` lists `e` twice instead of `d, e`, and `x` twice instead of `x, y, z` (the row ends `w, x, y, x`) | indices 29/30 are both `e`; 49/51 are both `x`; `d` and `z` never occur | the 26 lower-case letters in order | not executed | Passwords.StandardCharsAsWrittenRepeats | Passwords.StandardCharsClasses |
