# KeyGenerator — a Dafny model of the key generation and validation engine

The system issues short keys over the alphabet `ACTG` for two key-spaces, vendors and
codecs. This project models its engine, in `src/Generator`:

- **KeyGenerator** (`KeyGenerator.dfy`, with ordinal string search in `StringSearch.dfy`)
  builds random candidates, with or without two equal neighbours. It runs the four
  structural checks in a fixed order: homopolymer, GC content, folding, repeats. A bounded
  retry loop ties these together. Every check that the C# code runs as a loop is a `method`
  with a loop. Each is proved equal to a specification function, and lemmas state what that
  function means without loops. `Validate` calls the check methods in the source's order and
  returns early. `Generate` checks its parameters and then runs attempts `0..maxAttempts`.
  Both keep the C# default arguments (`maxAttempts := 1000`, `allowHomopolymers := false`,
  `maxGcContent := 0.5`, `maxComplementaryBases := 8`, `minRepetitiveSequenceLength := 3`,
  `maxAllowedRepetitions := 1`).
- **KeyValidator** (`KeyValidator.dfy`) is the uniqueness gate. The Levenshtein
  nearest-neighbour library is a function-valued parameter, and its contract is the
  predicate `IsNearest`.
- **RecordManager** (`RecordManager.dfy`) is a class holding the two corpora, with the
  property setters and the callback-driven retrieval.

Exceptions are `Failure` values of `Wrappers.Result`. `ArgumentOutOfRange` and `ArgumentNull`
carry the parameter name; `InvalidBase` carries the offending character and stands for the
`ArgumentException("Invalid base: " + dnaBase)` of the complement switch. A nullable reference is a
`Wrappers.Option`.

Behaviour of the code as written that the model keeps, and proves:

- The retry loop counts from -1 and increments before each try. A run that exhausts its
  attempts therefore draws `maxAttempts + 1` candidates, every one rejected, and reports
  `maxAttempts` (the ghost `tried` of `Generate` lists the candidates).
- The folding loop skips the last window. On a string of bases this changes nothing:
  `LastWindowCannotFold` shows that this window has no room after it to fold with. On other
  strings the skip hides the exception for a non-base character that occurs only in the last
  window: `Validate("ACX", 0.5, 1, 2, 1)` is Valid where a loop over every window would throw
  (`LastWindowHidesInvalidBase`).
- The repeat loop visits only the windows at `i <= len - m*r`, so when `m*r` exceeds the
  length it examines nothing. `Generate` accepts such parameters, and the 18-character
  `ACAC…AC` validates with `(0.5, 18, 4, 5)` although `ACAC` occurs six times from index 4 on,
  where the search for the window at 0 would start, more than the five allowed (`UnvisitedWindowsExample`, `UnvisitedWindowsParameters`).
- With `maxAllowedRepetitions = 0`, the repeat loop runs past the last window that fits.
  It then reports a repeat or throws from `Substring`; it never reports "no repeats". So
  `Generate` never finds a key with that setting (`NoRepetitionsMeaning`,
  `NoRepetitionsThrowsExample`, and the `Found` clause of `Generate`).
- The `CodecKeys` setter writes the vendor list and leaves the codec list unchanged
  (`SetCodecKeys`, `CodecSetterLeavesCodecList`).
- The GC check of an empty string divides 0 by 0. The result is NaN, the comparison with
  the threshold is false, and the check passes. `GcExceeds` is false for the empty string.

## Model

| member | source | states |
|---|---|---|
| `StringSearch.IndexOf` | src/Generator/KeyGenerator.cs:247 | `s.IndexOf(p, start)` returns -1 or an index at or after `start` where `p` occurs, and `p` occurs at no earlier index from `start` on |
| `StringSearch.CountFromSkipsToIndexOf` | src/Generator/KeyGenerator.cs:284-295 | counting occurrences from a cursor equals counting from the occurrence IndexOf finds (0 when it finds none); this justifies the search loop that advances the cursor by 1 |
| `StringSearch.CountFromPositive` | src/Generator/KeyGenerator.cs:284-295 | the overlapping occurrence count from `start` is positive iff the pattern occurs at some index at or after `start` |
| `KeyGenerator.RandomBase` | src/Generator/KeyGenerator.cs:171-175 | the drawn character is one of `ACTG` |
| `KeyGenerator.RandomString` | src/Generator/KeyGenerator.cs:177-187 | the result has length `len` (0 for a negative `len`) and consists of bases only |
| `KeyGenerator.RandomStringWithoutHomopolymers` | src/Generator/KeyGenerator.cs:189-213 | the result has length `len` (0 for a negative `len`), consists of bases, and no base equals its predecessor |
| `KeyGenerator.HomopolymersExist` | src/Generator/KeyGenerator.cs:215-223 | true iff some index `i >= 1` has `s[i] == s[i-1]` |
| `KeyGenerator.GcCount` | src/Generator/KeyGenerator.cs:231-235 | the number of `C`/`G` characters is at most the length |
| `KeyGenerator.GcCountOfConcat` | src/Generator/KeyGenerator.cs:231-235 | the `C`/`G` count of a concatenation is the sum of the counts of its parts, which is what the loop relies on when it takes one more character |
| `KeyGenerator.CalculateGcContent` | src/Generator/KeyGenerator.cs:225-238 | the counting loop returns the `C`/`G` count over the full length of a non-empty string; other characters count in the denominator only, once per character (the source counts a character outside the BMP twice, see "Left out") |
| `KeyGenerator.GetComplementaryBase` | src/Generator/KeyGenerator.cs:253-268 | succeeds iff the character is a base, and then gives a different base; otherwise throws `InvalidBase` with that character |
| `KeyGenerator.ComplementBaseInvolution` | src/Generator/KeyGenerator.cs:253-268 | complementing a base twice gives it back (A↔T, C↔G) |
| `KeyGenerator.ComplementOf` | src/Generator/KeyGenerator.cs:270-275 | complementing a string succeeds iff every character is a base, and then keeps the length and complements position by position without reversing; otherwise it fails with the first non-base character |
| `KeyGenerator.ComplementOfFailurePropagates` | src/Generator/KeyGenerator.cs:273 | once a prefix fails to complement, the whole string fails with the same exception (the loop throws at the first bad character) |
| `KeyGenerator.ComplementInvolution` | src/Generator/KeyGenerator.cs:270-275 | complementing a string of bases twice gives it back |
| `KeyGenerator.GetComplementaryBases` | src/Generator/KeyGenerator.cs:270-275 | the accumulator loop computes `ComplementOf`, including the exception at the first bad character |
| `KeyGenerator.FoldingPotentialExists` | src/Generator/KeyGenerator.cs:240-251 | the loop over windows `i < len - k` computes `FoldingFrom(s, k, 0)`, including the exception on a non-base window |
| `KeyGenerator.LastWindowCannotFold` | src/Generator/KeyGenerator.cs:242 | the window at `len - k` (`len` the string's length), which the loop skips, can have no occurrence of its complement at a later start |
| `KeyGenerator.LastWindowHidesInvalidBase` | src/Generator/KeyGenerator.cs:242 | for `ACX` with window length 1 the last window, whose `X` would throw `InvalidBase`, is never complemented; the folding check answers false and `ACX` validates as Valid with `(0.5, 1, 2, 1)` |
| `KeyGenerator.FoldingMeaning` | src/Generator/KeyGenerator.cs:240-251 | on a string of bases the folding check never throws, and it is true iff some window of length `k` has its complement occurring at a later start index |
| `KeyGenerator.OccurrencesExceed` | src/Generator/KeyGenerator.cs:284-295 | the inner search loop (first lookup at `start`, later lookups at `pos + 1`, stop once the count exceeds `r`) answers true iff the pattern occurs more than `r` times from `start` on, overlaps included |
| `KeyGenerator.IsSequenceRepeated` | src/Generator/KeyGenerator.cs:277-300 | the loop over windows `i <= len - m*r`, taking each window with `Substring` and searching from `i + m`, computes `RepeatedFrom(s, m, r, 0)`, including the `Substring` exception |
| `KeyGenerator.RepeatsMeaning` | src/Generator/KeyGenerator.cs:277-300 | with `r >= 1` the repeat check never throws, and it is true iff some window at `i <= len - m*r` (`len` the string's length) occurs more than `r` times, overlaps included, at starts from `i + m` on |
| `KeyGenerator.NothingVisitedIsValid` | src/Generator/KeyGenerator.cs:240-300 | with a folding window at least the length and `m*r` above the length, neither loop examines a window, so a string with no homopolymer and a GC share within the threshold is Valid |
| `KeyGenerator.UnvisitedWindowsParameters` | src/Generator/KeyGenerator.cs:69-74 | the range checks accept length `n`, `maxComplementaryBases = n`, windows of length 4 and `r` with `4*r > n` (for instance `n = 18`, `r = 5`) |
| `KeyGenerator.UnvisitedWindowsExample` | src/Generator/KeyGenerator.cs:279 | with windows of length 4 and `4*r` above the even length `n`, the repeat loop visits no window: the alternating `ACAC…` of length `n` validates as Valid although its window `ACAC` occurs more than `r` times from index 4 on (six times against `r = 5` for `n = 18`) |
| `KeyGenerator.NoRepetitionsMeaning` | src/Generator/KeyGenerator.cs:279-281 | with `r = 0` the repeat check is true if some window recurs after itself, and otherwise throws `ArgumentOutOfRange`; it is never false |
| `KeyGenerator.StatusPrecedence` | src/Generator/KeyGenerator.cs:108-164 | each outcome holds exactly when its own check fails and all earlier ones pass, in the order Homopolymer, GCContent, Folding, Repeats; Valid holds iff all four pass |
| `KeyGenerator.Validate` | src/Generator/KeyGenerator.cs:108-164 | the sequence of check calls with early returns computes `Status`, exceptions included |
| `KeyGenerator.StatusMeaning` | src/Generator/KeyGenerator.cs:108-164 | on a string of bases, Valid iff `r >= 1` and the string has no homopolymer, a GC share at most the threshold, no folding window and no over-repeated window; the only exception is the repeat search's, when `r = 0` |
| `KeyGenerator.NoRepetitionsThrowsExample` | src/Generator/KeyGenerator.cs:279-281 | `ACA` passes the first three checks and makes the repeat search throw when `r = 0` |
| `KeyGenerator.ParameterError` | src/Generator/KeyGenerator.cs:69-74 | no parameter is rejected iff `len >= 1`, `maxAttempts >= 1`, `maxGcContent` in [0.01, 0.99], `maxComplementaryBases` in [1, len], `minRepetitiveSequenceLength` in [2, len] and `maxAllowedRepetitions >= 0`; otherwise the first failing one in the order len, maxAttempts, maxGcContent, maxComplementaryBases, minRepetitiveSequenceLength, maxAllowedRepetitions is named |
| `KeyGenerator.Generate` | src/Generator/KeyGenerator.cs:59-106 | a bad parameter throws before any attempt. A found key comes with its attempt index in `0..maxAttempts` (so up to `maxAttempts + 1` tries), has length `len`, consists of bases, validates as Valid, is structurally sound, and is only ever found with `maxAllowedRepetitions >= 1`. The ghost `tried` lists the candidates in order, each of length `len`, made of bases, and without homopolymers unless they are allowed: a found key is the last of `attempt + 1` candidates, all earlier ones rejected with a non-Valid status; exhaustion reports `maxAttempts` after `maxAttempts + 1` candidates, all rejected. The only other exception is the repeat search's, with `maxAllowedRepetitions = 0` |
| `KeyValidator.Validate` | src/Generator/KeyValidator.cs:31-49 | a null or empty key throws `ArgumentNull` even for an empty corpus; a null or empty corpus accepts; otherwise it rejects iff the nearest entry is non-empty and its distance is at most the threshold (a null or empty nearest entry accepts) |
| `KeyValidator.AcceptedIffEveryEntryFar` | src/Generator/KeyValidator.cs:39-43 | when the search returns a nearest entry and no entry is empty, the key is accepted iff every corpus entry is strictly farther than the threshold |
| `KeyValidator.IssuedKeyRejected` | src/Generator/KeyValidator.cs:42-43 | a key already in the corpus (distance 0) is rejected for every threshold `>= 0`, when only the key itself is at distance 0 from it |
| `RecordManager.NullToEmpty` | src/Generator/RecordManager.cs:21-22 | the setters store a fresh empty list for null and the given list otherwise |
| `RecordManager.RecordManager.constructor` | src/Generator/RecordManager.cs:43-44 | a new manager holds two empty lists |
| `RecordManager.RecordManager.SetVendorKeys` | src/Generator/RecordManager.cs:19-23 | the vendor list becomes the value, or empty for null; the codec list is unchanged |
| `RecordManager.RecordManager.SetCodecKeys` | src/Generator/RecordManager.cs:32-36 | as written, the vendor list becomes the value, or empty for null; the codec list is unchanged |
| `RecordManager.RecordManager.RetrieveVendorKeys` | src/Generator/RecordManager.cs:59-64 | a null callback throws `ArgumentNull` and changes nothing; otherwise the vendor list becomes the callback's result, null included, and the codec list is unchanged |
| `RecordManager.RecordManager.RetrieveCodecKeys` | src/Generator/RecordManager.cs:66-71 | a null callback throws `ArgumentNull` and changes nothing; otherwise the codec list becomes the callback's result, null included, and the vendor list is unchanged |
| `RecordManager.CodecSetterLeavesCodecList` | src/Generator/RecordManager.cs:32-36 | on a new manager, setting the codec keys to one key leaves the codec list empty and puts the key in the vendor list |

## Left out

- Randomness (`System.Random`) is a nondeterministic choice of a base. The model makes no claim about distribution or independence.
- `RandomStringWithoutHomopolymers`: the rejection loop `while (true)` terminates only with probability 1. The model draws once among the three bases that differ from the previous one. It has the same set of possible outcomes but does not model the number of redraws.
- `Logger` callbacks and the `logPrefix` parameter of `Validate` are diagnostic side effects and are dropped.
- `CalculateGcContent` and the GC comparison use `real`, not `double`. Rounding of the share, and of the bounds 0.01 and 0.99, is not modelled. Neither is a NaN `maxGcContent`: it passes both range tests of `Generate`, since every comparison with NaN is false, and the GC check then never fails.
- `KeyGenerator.Validate`: `maxComplementaryBases`, `minRepetitiveSequenceLength` and `maxAllowedRepetitions` are restricted to `>= 0`, `>= 1` and `>= 0`. In the source, a negative window length makes `Substring` throw and a zero `minRepetitiveSequenceLength` searches with an empty pattern. A negative `maxAllowedRepetitions` makes one later occurrence of a window too many: the check answers Repeats as soon as a visited window recurs, and throws from `Substring` past the end only when none does. Only direct callers can pass these values, since `Generate` rejects them first.
- The product `minRepetitiveSequenceLength * maxAllowedRepetitions` and the counters are unbounded integers; 32-bit overflow is not modelled.
- `string.IndexOf` is modelled as ordinal substring search; on .NET it is culture-sensitive. Both searches run only after the homopolymer check has passed, so neither the searched string nor the pattern (a window of it, or the complement of one) has two equal neighbours. The model assumes that culture search and ordinal search agree on such strings over `ACGT`; culture rules are not modelled.
- Strings are sequences of Unicode scalar values, not UTF-16 code units. The C# `Length`, indexing, `foreach` and `Substring` work on code units, so a character outside the Basic Multilingual Plane counts as one character here and as two (a surrogate pair) in the source. This changes the length, the GC share's denominator, the neighbour comparison and the `InvalidBase` character. The two agree on text within the Basic Multilingual Plane, which includes every key over `ACTG`.
- Null strings passed to `KeyGenerator.Validate` (a `NullReferenceException`) are not modelled; strings are values.
- `ClosestString.UsingLevenshtein` is an external library. It is a parameter of `KeyValidator.Validate`, and its contract (`IsNearest`, distance 0 for identical strings) is an assumption of the lemmas. Levenshtein distance itself is not defined here.
- Lists in `RecordManager` are values. The aliasing of a `List<string>` that the caller keeps and later mutates is not modelled. A retrieval callback, which reads the backing store, is a pure function value.
- The property getters `VendorKeys`/`CodecKeys` are reader functions with no contract of their own. The setter and retrieval contracts are stated through them.
- The console programs, the ORM record classes, and the one unit test are not part of this model. The test's assertion is probabilistic.
