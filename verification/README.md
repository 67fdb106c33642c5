# String periodicity checker, modelled in Dafny

`isPeriodic(str)` decides whether a string is some shorter non-empty unit
written `k >= 2` times in a row. It works in three steps:

1. It counts each symbol.
2. It reduces the counts to their greatest common divisor `gm`. That is 0 when
   there are no counts, the count itself when there is one, and a left fold
   of recursive Euclid otherwise.
3. It answers false when `gm <= 1`. Otherwise it tries every divisor `k` of
   `gm` from 2 upward. For each one it checks the string cyclically against
   its first `|str| / k` symbols (`isRepeating`), and it returns true on the
   first `k` that passes.

The model works over `seq<T>` for any symbol type with equality. It has five
modules, plus `Scenarios`:

- `Euclid` (euclid.dfy): divisibility on naturals, the remainder `a % b`
  as repeated subtraction (`Mod`), and `Gcd`, the source's `gcd`.
- `Frequency` (frequency.dfy): the frequency map, its keys in insertion
  order, and the list of values passed to the reduction.
- `Reduction` (reduction.dfy): the reduction fold and `gm`
  (`GcdOfCounts`).
- `Repetition` (repetition.dfy): writing a unit `k` times (`Repeat`), the
  cyclic comparison (`Cyclic`), and the `isRepeating` loop.
- `Periodicity` (periodicity.dfy): the periodicity predicate, the divisor
  loop, and the driver.

`Scenarios` (scenarios.dfy) states, as lemmas and methods with contracts, the
doc comment's worked example, a few small cases, and an input on which the
as-written function falls off the end.

The main theorem has two halves:

- Soundness: a divisor that passes proves the string is its candidate
  written `k` times.
- Completeness: if the string is `p` written `k` times, then `k` divides
  every count and so divides `gm`. The loop therefore reaches `k`, and its
  candidate is `p`.

Together these give `DivisorSearch`'s contract, `found <==> Periodic(s)`.

The function has no final `return`. When `gm > 1` and no divisor passes,
control falls off the end of its body and JavaScript yields `undefined`. That
value is falsy, but it is not the literal `false`. `Periodicity.IsPeriodic`
returns a `Completion` so that this case shows as its own value,
`FellOffEnd`, and its contract says the case happens exactly for
non-periodic strings with `gm > 1`. `Periodicity.IsPeriodicFixed` is the
version that returns `false` there.

The code tries divisors from 2 upward. So on success it has found the fewest
copies, which means the longest unit. The doc comment at is-periodic.js:15
says the same, and `DivisorSearch` proves this longest-unit property.

## Model

| member | source | states |
|---|---|---|
| Euclid.Gcd | is-periodic.js:67-73 | the result divides both arguments; it is 0 only when both are 0; `gcd(a, 0) = a` |
| Euclid.Mod | is-periodic.js:72 | the remainder `a % b` is below the positive divisor `b`, so the recursion of `gcd` terminates |
| Euclid.ModIsRemainder | is-periodic.js:72 | the subtractive `Mod(a, b)` that `Gcd` recurses on equals `a % b` for every natural `a` and positive `b` |
| Euclid.RemainderStep | is-periodic.js:72 | replacing `(a, b)` by `(b, a % b)` keeps exactly the same common divisors |
| Euclid.GcdGreatest | is-periodic.js:67-73 | every common divisor of `a` and `b` divides `gcd(a, b)`, so the result is the greatest common divisor |
| Frequency.Frequencies | is-periodic.js:35-36 | the map's keys are exactly the symbols of the string, and each key maps to its number of occurrences, which is at least 1 |
| Frequency.InsertionOrder | is-periodic.js:36-38 | the map's key order lists every symbol of the string, each exactly once |
| Frequency.CountValues | is-periodic.js:38 | the value list holds one positive count per distinct symbol, contains every symbol's count, and is empty exactly for the empty string |
| Frequency.CountValuesSumToLength | is-periodic.js:36-38 | the counts add up to the length of the string |
| Reduction.FoldGcd | is-periodic.js:45 | the fold divides every entry, and it is 0 only when all entries are 0 |
| Reduction.FoldGcdGreatest | is-periodic.js:45 | every common divisor of the entries divides the fold |
| Reduction.ReduceCounts | is-periodic.js:40-45 | with no entries, one entry or a fold over several, `gm` divides every entry, and it is 0 exactly when all entries are 0 (in particular for no entries) |
| Reduction.ReduceCountsGreatest | is-periodic.js:40-45 | every common divisor of the entries divides `gm` |
| Reduction.ReduceCountsOrderIndependent | is-periodic.js:38-45 | two lists with the same entries give the same `gm`, so the map's iteration order does not matter |
| Reduction.GcdOfCounts | is-periodic.js:35-45 | `gm` divides every symbol's count and the string's length, and it is 0 exactly for the empty string |
| Reduction.GcdOfCountsGreatest | is-periodic.js:35-45 | every common divisor of the symbol counts divides `gm` |
| Repetition.Repeat | is-periodic.js:12-16 | `p` written `k` times has length `k * |p|` |
| Repetition.RepeatIndex | is-periodic.js:12-16 | position `i` of `p` written `k` times holds `p[i mod |p|]` |
| Repetition.RepeatCount | is-periodic.js:12-13 | each symbol occurs `k` times as often in `p^k` as in `p` |
| Repetition.CyclicIffRepeat | is-periodic.js:52-65 | for a string `k` units long, the cyclic check passes iff the string is the unit written `k` times (both directions) |
| Repetition.IsRepeating | is-periodic.js:58-65 | returns true iff `str[i] == sub[i mod |sub|]` at every position; an empty `sub` fails on any non-empty string |
| Periodicity.Candidate | is-periodic.js:52 | `str.substring(0, str.length / k)` is a prefix of the string whose length is the truncated quotient `|s| / k` |
| Periodicity.PassesIsLoopTest | is-periodic.js:50-52 | a divisor passes exactly when `gm % k` is 0 (the `continue` is not taken) and `isRepeating` accepts its candidate |
| Periodicity.TestedLengthIsExact | is-periodic.js:49-52 | every divisor the loop tests divides the length, so `str.length / k` is exact and the candidate is non-empty and shorter than the string |
| Periodicity.VerifiedDivisorIsPeriod | is-periodic.js:49-54 | soundness: a tested divisor whose candidate passes makes the string that candidate written `k` times |
| Periodicity.RepetitionFactorIsTested | is-periodic.js:12-16 | completeness: if the string is `p^k` with `k >= 2`, then `k` divides `gm`, `k <= gm`, the candidate for `k` is `p`, and it passes |
| Periodicity.NoVerifiedDivisorMeansNotPeriodic | is-periodic.js:49-56 | if no divisor from 2 to `gm` passes, the string is not periodic |
| Periodicity.CoprimeCountsNotPeriodic | is-periodic.js:46-47 | `gm <= 1` rules out periodicity, so the early false is correct |
| Periodicity.ShortStringNotPeriodic | is-periodic.js:40-47 | the empty string has `gm = 0`, a one-symbol string has `gm = 1`, and neither is periodic |
| Periodicity.FirstPassingDivisorIsLongestUnit | is-periodic.js:15-16 | when the first passing divisor is `k`, the string is `k` copies of its candidate, and no smaller number of copies of any unit makes it up |
| Periodicity.FirstPassingDivisor | is-periodic.js:49-55 | the loop stops at the first divisor from 2 upward whose candidate passes; if it finds none, no divisor up to `gm` passes |
| Periodicity.DivisorSearch | is-periodic.js:49-56 | the search succeeds iff the string is periodic; on success the string is `k` copies of the candidate, and the unit found is the longest one |
| Periodicity.IsPeriodic | is-periodic.js:33-56 | returns false iff `gm <= 1`, returns true iff the string is periodic, and otherwise falls off the end (`undefined`); it is truthy iff the string is periodic |
| Periodicity.IsPeriodicFixed | is-periodic.js:33-56 | with an explicit final `false`, the result is a boolean equal to the string's periodicity |
| Periodicity.SingleSymbolRun | is-periodic.js:43-53 | one symbol written `n` times has `gm = n`; it is periodic iff `n >= 2`, and then the candidate for `k = n` is that single symbol |
| Scenarios.WorkedExample | is-periodic.js:19-24 | "aaabbbaaabbbaaabbb" has `gm = 9`, the candidate for 3 is "aaabbb", it passes, and the string is periodic |
| Scenarios.WorkedExampleRun | is-periodic.js:19-24 | the divisor loop on the worked example succeeds at `k = 3` |
| Scenarios.FallThroughRun | is-periodic.js:49-56 | the as-written function on "abba" ends by falling off its body (`undefined`), not by returning `false` |
| Scenarios.SmallCases | is-periodic.js:33-56 | "" and "a" are not periodic; "aa" and "abab" are; "abc" has `gm = 1` and is not |
| Scenarios.FallThroughExample | is-periodic.js:49-56 | "abba" has `gm = 2` and is not periodic, so the as-written function falls off the end for it |

## Left out

- Map mechanics: the JavaScript `Map` and `Array.from(freq.values())` are modelled as a Dafny `map` plus its keys in first-occurrence order. Any other order gives the same `gm` (`ReduceCountsOrderIndependent`).
- Code points and code units: `for…of` walks code points, while `.length`, indexing and `substring` use UTF-16 code units. The model treats the string as one abstract sequence of symbols.
- Complexity: the runtime claims in the doc comment are asymptotic statements, not behaviour.
- Stack depth: the recursion depth of `gcd` is not modelled, and naturals are unbounded.
- Loose typing: non-string inputs and the general JavaScript semantics of `/` and `%` are not modelled. Every divisor the loop tests divides the length exactly (`TestedLengthIsExact`), and `Candidate` truncates as `substring` does.
- Repetition.IsRepeating: the contract states only the boolean result. The loop does stop at the first mismatching position, but that position is not part of the result, so no contract speaks of it.
- Symbol values: the examples use symbol parameters `a`, `b`, `c` that are assumed distinct, not character literals.

## Findings

| source | as written | input that shows it | evidently intended | confidence | as-written member | corrected member |
|---|---|---|---|---|---|---|
| is-periodic.js:49-56 | when `gm > 1` and no tested divisor passes, the loop ends and the function has no final `return`, so it yields `undefined` | "abba": counts {a: 2, b: 2}, `gm = 2`, and the only candidate, "ab", fails at position 2 (`Scenarios.FallThroughExample`, `Scenarios.FallThroughRun`) | return `false`; the doc comment at line 30 promises a boolean | not executed | Periodicity.IsPeriodic | Periodicity.IsPeriodicFixed |
