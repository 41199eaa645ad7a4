/** Password generation: `STANDARD_CHARS` and the `Generatable` impls of
    `Password`, `AlphaNumericPassword` and `AlphaPassword`, each of which
    fills `N` positions with `STANDARD_CHARS[rng.next_bounded_u32(bound)]`.
    Both the code as written (an inclusive bound and a table with repeated
    letters) and the corrected generators are modelled. */
module Passwords {
  import opened Wrappers
  import opened Bits
  import opened Layers
  import opened SafeRandom

  /** The rows of `STANDARD_CHARS`: upper-case letters, lower-case
      letters, digits and the 32 symbols. */
  const Upper: seq<char> := seq(26, i requires 0 <= i < 26 => ('A' as int + i) as char)
  const Lower: seq<char> := seq(26, i requires 0 <= i < 26 => ('a' as int + i) as char)
  const Digits: seq<char> := seq(10, i requires 0 <= i < 10 => ('0' as int + i) as char)
  const Symbols: seq<char> := "~`!@#$%^&*()_-+={[}]|\\:;\"'<,>.?/"

  /** The lower-case row as written: `e` twice and no `d`, `x` twice and no
      `z`. */
  const LowerAsWritten: seq<char> := "abceefghijklmnopqrstuvwxyx"

  /** `STANDARD_CHARS` as written. */
  const StandardCharsAsWritten: seq<char> := Upper + LowerAsWritten + Digits + Symbols

  /** The table as evidently intended: each letter of the alphabet once. */
  const StandardChars: seq<char> := Upper + Lower + Digits + Symbols

  predicate IsLetter(c: char)
  {
    ('A' <= c <= 'Z') || ('a' <= c <= 'z')
  }

  predicate IsAlphanumeric(c: char)
  {
    IsLetter(c) || ('0' <= c <= '9')
  }

  /** The table as written holds 94 characters but repeats two letters and
      leaves out two. */
  lemma StandardCharsAsWrittenRepeats()
    ensures |StandardCharsAsWritten| == 94
    ensures StandardCharsAsWritten[29] == StandardCharsAsWritten[30] == 'e'
    ensures StandardCharsAsWritten[49] == StandardCharsAsWritten[51] == 'x'
    ensures 'd' !in StandardCharsAsWritten[26..52] && 'z' !in StandardCharsAsWritten[26..52]
  {
    assert StandardCharsAsWritten[26..52] == LowerAsWritten;
  }

  /** The corrected table: 94 characters, the first 52 letters (upper case,
      then lower case, each in alphabetical order) and the next 10 digits. */
  lemma StandardCharsLayout()
    ensures |StandardChars| == 94
    ensures forall i :: 0 <= i < 26 ==> StandardChars[i] == ('A' as int + i) as char
    ensures forall i :: 26 <= i < 52 ==> StandardChars[i] == ('a' as int + (i - 26)) as char
    ensures forall i :: 52 <= i < 62 ==> StandardChars[i] == ('0' as int + (i - 52)) as char
  {
  }

  /** So the first 52 entries are letters and the first 62 alphanumeric,
      and every lower-case letter is there. */
  lemma StandardCharsClasses()
    ensures forall i :: 0 <= i < 52 ==> IsLetter(StandardChars[i])
    ensures forall i :: 0 <= i < 62 ==> IsAlphanumeric(StandardChars[i])
    ensures forall c: char :: 'a' <= c <= 'z' ==> c in StandardChars[26..52]
  {
    StandardCharsLayout();
    forall c: char | 'a' <= c <= 'z'
      ensures c in StandardChars[26..52]
    {
      assert StandardChars[26..52][c as int - 'a' as int] == c;
    }
  }

  /** One bounded draw: the sampler as written, or the corrected one. */
  function Draw(words: seq<U32>, bound: U32, exclusive: bool): (r: Option<(U32, nat)>)
    requires 1 <= bound <= 0x8000_0000
    ensures r.Some? ==> r.value.0 <= bound && 1 <= r.value.1 <= |words|
    ensures r.Some? && exclusive ==> r.value.0 < bound
  {
    if exclusive then ExclusiveBounded(words, bound) else ModuloBounded(words, bound)
  }

  /** The `n` indices a generator draws, in order, with the number of words
      they consume; `None` when the stream runs out first. */
  function SampleIndices(words: seq<U32>, n: nat, bound: U32, exclusive: bool): (r: Option<(seq<U32>, nat)>)
    requires 1 <= bound <= 0x8000_0000
    decreases n
    ensures r.Some? ==> |r.value.0| == n && r.value.1 <= |words|
    ensures r.Some? ==> forall i :: 0 <= i < n ==> r.value.0[i] <= bound
    ensures r.Some? && exclusive ==> forall i :: 0 <= i < n ==> r.value.0[i] < bound
  {
    if n == 0 then Some(([], 0))
    else
      var first := Draw(words, bound, exclusive);
      if first.None? then None
      else
        var rest := SampleIndices(words[first.value.1..], n - 1, bound, exclusive);
        if rest.None? then None
        else Some(([first.value.0] + rest.value.0, first.value.1 + rest.value.1))
  }

  /** A run that either finishes with a value or panics on an out-of-range
      index into the table. */
  datatype Run<T> = Finished(value: T) | PanickedAt(index: nat)

  /** Position of the first index that is at least `bound`. */
  function FirstOutOfRange(indices: seq<U32>, bound: nat): (r: nat)
    requires exists i :: 0 <= i < |indices| && indices[i] >= bound
    ensures r < |indices| && indices[r] >= bound
    ensures forall k :: 0 <= k < r ==> indices[k] < bound
  {
    if indices[0] >= bound then 0
    else
      assert exists i :: 0 <= i < |indices[1..]| && indices[1..][i] >= bound by {
        var i :| 0 <= i < |indices| && indices[i] >= bound;
        assert indices[1..][i - 1] == indices[i];
      }
      1 + FirstOutOfRange(indices[1..], bound)
  }

  /** Looking the indices up in the table, in order: the first index past
      its end panics. */
  function Lookup(indices: seq<U32>, table: seq<char>): (r: Run<seq<char>>)
    ensures r.Finished? <==> forall i :: 0 <= i < |indices| ==> indices[i] < |table|
    ensures r.Finished? ==> |r.value| == |indices|
    ensures r.Finished? ==> forall i :: 0 <= i < |indices| ==> r.value[i] == table[indices[i]]
    ensures r.PanickedAt? ==> exists i :: 0 <= i < |indices| && indices[i] == r.index && r.index >= |table|
  {
    if forall i :: 0 <= i < |indices| ==> indices[i] < |table| then
      Finished(seq(|indices|, i requires 0 <= i < |indices| => table[indices[i]]))
    else
      PanickedAt(indices[FirstOutOfRange(indices, |table|)])
  }

  /** The run panics at the first index past the end of the table. */
  lemma LookupPanicsAtFirst(indices: seq<U32>, table: seq<char>, j: nat)
    requires j < |indices| && indices[j] >= |table|
    requires forall k :: 0 <= k < j ==> indices[k] < |table|
    ensures Lookup(indices, table) == PanickedAt(indices[j])
  {
  }

  /** A buffer holding `table[indices[i]]` at every position is what the
      run finishes with. */
  lemma LookupFilled(indices: seq<U32>, table: seq<char>, chars: seq<char>)
    requires |chars| == |indices|
    requires forall k :: 0 <= k < |indices| ==> indices[k] < |table|
    requires forall k :: 0 <= k < |indices| ==> chars[k] == table[indices[k]]
    ensures Lookup(indices, table) == Finished(chars)
  {
    assert Lookup(indices, table).value == chars;
  }

  /** Indices below the table's length never panic, and every character
      then comes from the table's first `bound` entries. */
  lemma LookupInRange(indices: seq<U32>, table: seq<char>, bound: nat)
    requires bound <= |table|
    requires forall i :: 0 <= i < |indices| ==> indices[i] < bound
    ensures Lookup(indices, table).Finished?
    ensures forall i :: 0 <= i < |indices| ==> Lookup(indices, table).value[i] in table[..bound]
  {
    forall i | 0 <= i < |indices|
      ensures Lookup(indices, table).value[i] in table[..bound]
    {
      assert table[..bound][indices[i]] == table[indices[i]];
    }
  }

  /** One call of the sampler as written, or of the corrected one. */
  method DrawIndex(rng: SafeRand, bound: U32, exclusive: bool) returns (c: U32)
    requires 1 <= bound <= 0x8000_0000
    requires Draw(rng.words, bound, exclusive).Some?
    modifies rng
    ensures c == Draw(old(rng.words), bound, exclusive).value.0
    ensures rng.words == old(rng.words)[Draw(old(rng.words), bound, exclusive).value.1..]
  {
    if exclusive {
      c := rng.NextBelowU32(bound);
    } else {
      c := rng.NextBoundedU32(bound);
    }
  }

  /** One step of `SampleIndices`: the first draw, then the rest from the
      words after it. */
  lemma SampleIndicesStep(words: seq<U32>, n: nat, bound: U32, exclusive: bool)
    requires 1 <= bound <= 0x8000_0000 && n > 0
    requires SampleIndices(words, n, bound, exclusive).Some?
    ensures Draw(words, bound, exclusive).Some?
    ensures SampleIndices(words[Draw(words, bound, exclusive).value.1..], n - 1, bound, exclusive).Some?
    ensures SampleIndices(words, n, bound, exclusive).value
      == ([Draw(words, bound, exclusive).value.0]
          + SampleIndices(words[Draw(words, bound, exclusive).value.1..], n - 1, bound, exclusive).value.0,
          Draw(words, bound, exclusive).value.1
          + SampleIndices(words[Draw(words, bound, exclusive).value.1..], n - 1, bound, exclusive).value.1)
  {
    var first := Draw(words, bound, exclusive);
    assert first.Some?;
    var rest := SampleIndices(words[first.value.1..], n - 1, bound, exclusive);
    assert rest.Some?;
    assert SampleIndices(words, n, bound, exclusive)
      == Some(([first.value.0] + rest.value.0, first.value.1 + rest.value.1));
  }

  /** Where each of the `n` draws starts in the stream: draw `i` is a
      plain draw from the words after position `at[i]`, the next draw
      starts where it stops, and the last position is what `SampleIndices`
      reports as consumed. */
  lemma {:induction false} DrawPositions(words: seq<U32>, n: nat, bound: U32, exclusive: bool)
      returns (at: seq<nat>)
    requires 1 <= bound <= 0x8000_0000
    requires SampleIndices(words, n, bound, exclusive).Some?
    ensures |at| == n + 1 && at[0] == 0 && at[n] == SampleIndices(words, n, bound, exclusive).value.1
    ensures forall i :: 0 <= i <= n ==> at[i] <= |words|
    ensures forall i {:trigger Draw(words[at[i]..], bound, exclusive)} :: 0 <= i < n ==>
      Draw(words[at[i]..], bound, exclusive).Some?
      && Draw(words[at[i]..], bound, exclusive).value.0 == SampleIndices(words, n, bound, exclusive).value.0[i]
      && at[i + 1] == at[i] + Draw(words[at[i]..], bound, exclusive).value.1
  {
    if n == 0 {
      at := [0];
    } else {
      SampleIndicesStep(words, n, bound, exclusive);
      var k := Draw(words, bound, exclusive).value.1;
      var rest := DrawPositions(words[k..], n - 1, bound, exclusive);
      at := ShiftedPositions(words, k, words[k..], n, bound, exclusive,
        SampleIndices(words, n, bound, exclusive).value.0,
        SampleIndices(words[k..], n - 1, bound, exclusive).value.0, rest);
    }
  }

  /** The inductive step of `DrawPositions`: the positions in the tail after
      the first draw, moved up by the words that draw consumed. */
  lemma ShiftedPositions(words: seq<U32>, k: nat, tail: seq<U32>, n: nat, bound: U32, exclusive: bool,
                         all: seq<U32>, later: seq<U32>, rest: seq<nat>)
      returns (at: seq<nat>)
    requires 1 <= bound <= 0x8000_0000 && n > 0
    requires k <= |words| && tail == words[k..]
    requires Draw(words, bound, exclusive).Some? && Draw(words, bound, exclusive).value.1 == k
    requires |all| == n && all == [Draw(words, bound, exclusive).value.0] + later
    requires |rest| == n && rest[0] == 0
    requires forall i :: 0 <= i <= n - 1 ==> rest[i] <= |tail|
    requires forall i {:trigger Draw(tail[rest[i]..], bound, exclusive)} :: 0 <= i < n - 1 ==>
      Draw(tail[rest[i]..], bound, exclusive).Some?
      && Draw(tail[rest[i]..], bound, exclusive).value.0 == later[i]
      && rest[i + 1] == rest[i] + Draw(tail[rest[i]..], bound, exclusive).value.1
    ensures |at| == n + 1 && at[0] == 0 && at[n] == k + rest[n - 1]
    ensures forall i :: 0 <= i <= n ==> at[i] <= |words|
    ensures forall i {:trigger Draw(words[at[i]..], bound, exclusive)} :: 0 <= i < n ==>
      Draw(words[at[i]..], bound, exclusive).Some?
      && Draw(words[at[i]..], bound, exclusive).value.0 == all[i]
      && at[i + 1] == at[i] + Draw(words[at[i]..], bound, exclusive).value.1
  {
    at := ShiftedBy(k, rest, |tail|);
    forall i | 0 <= i < n
      ensures Draw(words[at[i]..], bound, exclusive).Some?
      ensures Draw(words[at[i]..], bound, exclusive).value.0 == all[i]
      ensures at[i + 1] == at[i] + Draw(words[at[i]..], bound, exclusive).value.1
    {
      if i > 0 {
        assert all[i] == later[i - 1];
        ShiftedDraw(words, k, tail, bound, exclusive, rest[i - 1], rest[i], at[i], at[i + 1], all[i]);
      } else {
        assert words[at[0]..] == words;
      }
    }
  }

  /** `0` followed by every entry of `rest` moved up by `k`. */
  lemma ShiftedBy(k: nat, rest: seq<nat>, bound: nat) returns (at: seq<nat>)
    requires forall i :: 0 <= i < |rest| ==> rest[i] <= bound
    ensures |at| == |rest| + 1 && at[0] == 0
    ensures forall i :: 0 < i <= |rest| ==> at[i] == k + rest[i - 1]
    ensures forall i :: 0 <= i <= |rest| ==> at[i] <= k + bound
  {
    at := [0] + seq(|rest|, j requires 0 <= j < |rest| => k + rest[j]);
  }

  /** A draw from the tail at position `r0` is the draw from the whole
      stream at position `k + r0`. */
  lemma ShiftedDraw(words: seq<U32>, k: nat, tail: seq<U32>, bound: U32, exclusive: bool,
                    r0: nat, r1: nat, a0: nat, a1: nat, x: U32)
    requires 1 <= bound <= 0x8000_0000
    requires k <= |words| && tail == words[k..] && r0 <= |tail|
    requires Draw(tail[r0..], bound, exclusive).Some? && Draw(tail[r0..], bound, exclusive).value.0 == x
    requires r1 == r0 + Draw(tail[r0..], bound, exclusive).value.1
    requires a0 == k + r0 && a1 == k + r1
    ensures a0 <= |words| && Draw(words[a0..], bound, exclusive).Some?
    ensures Draw(words[a0..], bound, exclusive).value.0 == x
    ensures a1 == a0 + Draw(words[a0..], bound, exclusive).value.1
  {
    SliceOfSlice(words, k, r0);
  }

  lemma SliceOfSlice(s: seq<U32>, a: nat, b: nat)
    requires a <= |s| && b <= |s| - a
    ensures s[a..][b..] == s[a + b..]
  {
  }

  /** The loop the three generators share: a buffer of `n` NUL characters
      whose position `i` is set to `table[next_bounded_u32(bound)]`. */
  method FillChars(rng: SafeRand, n: nat, bound: U32, table: seq<char>, exclusive: bool) returns (r: Run<seq<char>>)
    requires 1 <= bound <= 0x8000_0000
    requires SampleIndices(rng.words, n, bound, exclusive).Some?
    modifies rng
    ensures r == Lookup(SampleIndices(old(rng.words), n, bound, exclusive).value.0, table)
    ensures r.Finished? ==> rng.words == old(rng.words)[SampleIndices(old(rng.words), n, bound, exclusive).value.1..]
  {
    ghost var words0 := rng.words;
    ghost var all := SampleIndices(words0, n, bound, exclusive).value.0;
    ghost var at := DrawPositions(words0, n, bound, exclusive);
    var out := new char[n](_ => 0 as char);
    var i := 0;
    while i < n
      invariant 0 <= i <= n
      invariant rng.words == words0[at[i]..]
      invariant forall k :: 0 <= k < i ==> all[k] < |table|
      invariant forall k :: 0 <= k < i ==> out[k] == table[all[k]]
    {
      ghost var drawn := Draw(words0[at[i]..], bound, exclusive).value;
      assert drawn.0 == all[i] && at[i + 1] == at[i] + drawn.1;
      SliceOfSlice(words0, at[i], drawn.1);
      var c := DrawIndex(rng, bound, exclusive);
      ghost var after := rng.words;
      assert after == words0[at[i + 1]..];
      if c >= |table| {
        LookupPanicsAtFirst(all, table, i);
        return PanickedAt(c);
      }
      out[i] := table[c];
      assert rng.words == after;
      assert forall k :: 0 <= k < i + 1 ==> all[k] < |table| && out[k] == table[all[k]] by {
        forall k | 0 <= k < i + 1
          ensures all[k] < |table| && out[k] == table[all[k]]
        {
          if k == i {
            assert all[k] == c;
          }
        }
      }
      i := i + 1;
    }
    LookupFilled(all, table, out[..]);
    r := Finished(out[..]);
  }

  /** `Password<N>`, `AlphaNumericPassword<N>` and `AlphaPassword<N>`. */
  datatype Password = Password(chars: Controlled<seq<char>>)
  datatype AlphaNumericPassword = AlphaNumericPassword(password: Password)
  datatype AlphaPassword = AlphaPassword(password: Password)

  /** `Password::new`: the characters wrapped unchanged. */
  function NewPassword(chars: seq<char>): (r: Password)
    ensures r.chars.Protected? && Inner(r.chars) == chars
  {
    Password(Protected(chars))
  }

  /** `Password::generate` as written: bound 94 through the inclusive
      sampler into the table as written. */
  method GeneratePasswordAsWritten(rng: SafeRand, n: nat) returns (r: Run<Result<Password, RandomError>>)
    requires SampleIndices(rng.words, n, 94, false).Some?
    modifies rng
    ensures r.PanickedAt? <==> Lookup(SampleIndices(old(rng.words), n, 94, false).value.0, StandardCharsAsWritten).PanickedAt?
    ensures r.Finished? ==> r.value == Ok(NewPassword(Lookup(SampleIndices(old(rng.words), n, 94, false).value.0, StandardCharsAsWritten).value))
    ensures r.Finished? ==> rng.words == old(rng.words)[SampleIndices(old(rng.words), n, 94, false).value.1..]
  {
    StandardCharsAsWrittenRepeats();
    var chars := FillChars(rng, n, 94, StandardCharsAsWritten, false);
    match chars
    case PanickedAt(k) => r := PanickedAt(k);
    case Finished(cs) => r := Finished(Ok(NewPassword(cs)));
  }

  /** `AlphaNumericPassword::generate` as written: bound 62. */
  method GenerateAlphaNumericAsWritten(rng: SafeRand, n: nat) returns (r: Result<AlphaNumericPassword, RandomError>)
    requires SampleIndices(rng.words, n, 62, false).Some?
    modifies rng
    ensures r == Ok(AlphaNumericPassword(NewPassword(Lookup(SampleIndices(old(rng.words), n, 62, false).value.0, StandardCharsAsWritten).value)))
    ensures rng.words == old(rng.words)[SampleIndices(old(rng.words), n, 62, false).value.1..]
  {
    StandardCharsAsWrittenRepeats();
    LookupInRange(SampleIndices(rng.words, n, 62, false).value.0, StandardCharsAsWritten, 63);
    var chars := FillChars(rng, n, 62, StandardCharsAsWritten, false);
    r := Ok(AlphaNumericPassword(NewPassword(chars.value)));
  }

  /** `AlphaPassword::generate` as written: bound 52. */
  method GenerateAlphaAsWritten(rng: SafeRand, n: nat) returns (r: Result<AlphaPassword, RandomError>)
    requires SampleIndices(rng.words, n, 52, false).Some?
    modifies rng
    ensures r == Ok(AlphaPassword(NewPassword(Lookup(SampleIndices(old(rng.words), n, 52, false).value.0, StandardCharsAsWritten).value)))
    ensures rng.words == old(rng.words)[SampleIndices(old(rng.words), n, 52, false).value.1..]
  {
    StandardCharsAsWrittenRepeats();
    LookupInRange(SampleIndices(rng.words, n, 52, false).value.0, StandardCharsAsWritten, 53);
    var chars := FillChars(rng, n, 52, StandardCharsAsWritten, false);
    r := Ok(AlphaPassword(NewPassword(chars.value)));
  }

  /** As written, a stream whose next word is a non-power-of-two bound
      draws that bound itself as the index; the corrected sampler rejects
      it. */
  lemma {:induction false} AsWrittenDrawsBound(bound: U32)
    requires 1 <= bound <= 0x8000_0000 && !IsPowerOfTwo(bound)
    ensures SampleIndices([bound], 1, bound, false) == Some(([bound], 1))
    ensures SampleIndices([bound], 1, bound, true).None?
  {
    ModuloBoundedReachesMax(bound, bound);
    assert Draw([bound], bound, false) == Some((bound, 1));
    assert [bound][1..] == [];
    assert SampleIndices([], 0, bound, false) == Some(([], 0));
    assert [bound] + [] == [bound];
    assert ExclusiveBounded([bound], bound).None? by {
      ModOfMultiple(bound, NextPowerOfTwo(bound), 0, bound);
    }
  }

  /** Looking the bounds 94, 62 and 52 up in the table as written: 94 is
      past its end and panics, 62 gives `~` (not alphanumeric) and 52 gives
      `0` (not a letter). None of the three is a power of two, so each is
      drawn by the stream holding only itself. */
  lemma AsWrittenLookups()
    ensures !IsPowerOfTwo(94) && !IsPowerOfTwo(62) && !IsPowerOfTwo(52)
    ensures Lookup([94], StandardCharsAsWritten) == PanickedAt(94)
    ensures Lookup([62], StandardCharsAsWritten) == Finished(['~']) && !IsAlphanumeric('~')
    ensures Lookup([52], StandardCharsAsWritten) == Finished(['0']) && !IsLetter('0')
  {
    assert !IsPowerOfTwo(47) && !IsPowerOfTwo(31) && !IsPowerOfTwo(13);
    StandardCharsAsWrittenRepeats();
    assert StandardCharsAsWritten[62] == '~' && StandardCharsAsWritten[52] == '0';
    assert [62 as U32][1..] == [] && [52 as U32][1..] == [];
    assert Lookup([62], StandardCharsAsWritten).value == ['~'];
    assert Lookup([52], StandardCharsAsWritten).value == ['0'];
  }

  /** `Password::generate`, corrected: the exclusive sampler and the
      corrected table, so it never panics and every character is one of
      the 94; the password is the lookup of the draws, which the stream
      gives up. */
  method GeneratePassword(rng: SafeRand, n: nat) returns (r: Result<Password, RandomError>)
    requires SampleIndices(rng.words, n, 94, true).Some?
    modifies rng
    ensures r.Ok? && r.value.chars.Protected? && |Inner(r.value.chars)| == n
    ensures forall i :: 0 <= i < n ==> Inner(r.value.chars)[i] in StandardChars
    ensures r.value == NewPassword(Lookup(SampleIndices(old(rng.words), n, 94, true).value.0, StandardChars).value)
    ensures rng.words == old(rng.words)[SampleIndices(old(rng.words), n, 94, true).value.1..]
  {
    StandardCharsLayout();
    LookupInRange(SampleIndices(rng.words, n, 94, true).value.0, StandardChars, 94);
    var chars := FillChars(rng, n, 94, StandardChars, true);
    assert StandardChars[..94] == StandardChars;
    r := Ok(NewPassword(chars.value));
  }

  /** `AlphaNumericPassword::generate`, corrected: only letters and digits. */
  method GenerateAlphaNumeric(rng: SafeRand, n: nat) returns (r: Result<AlphaNumericPassword, RandomError>)
    requires SampleIndices(rng.words, n, 62, true).Some?
    modifies rng
    ensures r.Ok? && r.value.password.chars.Protected? && |Inner(r.value.password.chars)| == n
    ensures forall i :: 0 <= i < n ==> IsAlphanumeric(Inner(r.value.password.chars)[i])
    ensures r.value == AlphaNumericPassword(NewPassword(Lookup(SampleIndices(old(rng.words), n, 62, true).value.0, StandardChars).value))
    ensures rng.words == old(rng.words)[SampleIndices(old(rng.words), n, 62, true).value.1..]
  {
    StandardCharsLayout();
    StandardCharsClasses();
    LookupInRange(SampleIndices(rng.words, n, 62, true).value.0, StandardChars, 62);
    var chars := FillChars(rng, n, 62, StandardChars, true);
    r := Ok(AlphaNumericPassword(NewPassword(chars.value)));
  }

  /** `AlphaPassword::generate`, corrected: only letters. */
  method GenerateAlpha(rng: SafeRand, n: nat) returns (r: Result<AlphaPassword, RandomError>)
    requires SampleIndices(rng.words, n, 52, true).Some?
    modifies rng
    ensures r.Ok? && r.value.password.chars.Protected? && |Inner(r.value.password.chars)| == n
    ensures forall i :: 0 <= i < n ==> IsLetter(Inner(r.value.password.chars)[i])
    ensures r.value == AlphaPassword(NewPassword(Lookup(SampleIndices(old(rng.words), n, 52, true).value.0, StandardChars).value))
    ensures rng.words == old(rng.words)[SampleIndices(old(rng.words), n, 52, true).value.1..]
  {
    StandardCharsLayout();
    StandardCharsClasses();
    LookupInRange(SampleIndices(rng.words, n, 52, true).value.0, StandardChars, 52);
    var chars := FillChars(rng, n, 52, StandardChars, true);
    r := Ok(AlphaPassword(NewPassword(chars.value)));
  }
}
