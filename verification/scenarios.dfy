/** Concrete strings stated as lemmas and methods with contracts: the
    worked example of the source's doc comment, a few small cases, and an
    input on which the as-written function falls off the end of its body. Symbols are
    parameters, so "abba" below stands for any two distinct symbols `a`, `b`
    in that arrangement. */
module Scenarios {
  import opened Euclid
  import opened Frequency
  import opened Reduction
  import opened Repetition
  import opened Periodicity

  lemma UnitCounts<T>(a: T, b: T, x: T)
    requires a != b
    ensures Count([a, a, a, b, b, b], x) == if x == a || x == b then 3 else 0
  {
    assert multiset([a, a, a, b, b, b]) == multiset{a, a, a, b, b, b};
  }

  lemma TripledCounts<T>(a: T, b: T, x: T)
    requires a != b
    ensures Count(Repeat([a, a, a, b, b, b], 3), x) == if x == a || x == b then 9 else 0
  {
    RepeatCount([a, a, a, b, b, b], 3, x);
    UnitCounts(a, b, x);
  }

  /** "aaabbbaaabbbaaabbb", that is "aaabbb" written three times, counts
      {a: 9, b: 9} and so has `gm = 9`; 2 does not divide 9, and the
      candidate for 3 copies, "aaabbb", passes the cyclic check. */
  lemma WorkedExample<T(!new)>(a: T, b: T)
    requires a != b
    ensures GcdOfCounts(Repeat([a, a, a, b, b, b], 3)) == 9
    ensures Candidate(Repeat([a, a, a, b, b, b], 3), 3) == [a, a, a, b, b, b]
    ensures Cyclic(Repeat([a, a, a, b, b, b], 3), [a, a, a, b, b, b])
    ensures Periodic(Repeat([a, a, a, b, b, b], 3))
  {
    var u := [a, a, a, b, b, b];
    var s := Repeat(u, 3);
    forall x
      ensures Divides(9, Count(s, x))
    {
      TripledCounts(a, b, x);
    }
    TripledCounts(a, b, a);
    GcdOfCountsIs(s, a, 9);
    RepetitionFactorIsTested(s, u, 3);
  }

  /** On the worked example the loop's test fails at 2, which does not
      divide 9, and succeeds at 3. */
  lemma WorkedExampleTests<T(!new)>(a: T, b: T)
    requires a != b
    ensures !Passes(Repeat([a, a, a, b, b, b], 3), 9, 2)
    ensures Passes(Repeat([a, a, a, b, b, b], 3), 9, 3)
  {
    WorkedExample(a, b);
    DividesIffNoRemainder(3, 9);
    DividesIffNoRemainder(2, 9);
  }

  /** The divisor loop on the worked example stops at `k = 3`, the first
      divisor of 9 it tests. */
  method WorkedExampleRun<T(==,!new)>(a: T, b: T) returns (found: bool, k: nat)
    requires a != b
    ensures found && k == 3
  {
    var s := Repeat([a, a, a, b, b, b], 3);
    WorkedExample(a, b);
    WorkedExampleTests(a, b);
    found, k := FirstPassingDivisor(s, 9);
    assert k != 2;
  }

  lemma AbcCounts<T>(a: T, b: T, c: T, x: T)
    requires a != b && b != c && a != c
    ensures Count([a, b, c], x) == if x == a || x == b || x == c then 1 else 0
  {
    assert multiset([a, b, c]) == multiset{a, b, c};
  }

  /** "abc" counts one of each symbol, so `gm = 1`. */
  lemma AbcGcd<T(!new)>(a: T, b: T, c: T)
    requires a != b && b != c && a != c
    ensures GcdOfCounts([a, b, c]) == 1
  {
    forall x
      ensures Divides(1, Count([a, b, c], x))
    {
      DividesMultiple(1, Count([a, b, c], x));
    }
    AbcCounts(a, b, c, a);
    GcdOfCountsIs([a, b, c], a, 1);
  }

  /** The small cases: "" and "a" are not periodic, "aa" and "abab" are,
      and "abc" has `gm = 1` and is not. */
  lemma SmallCases<T(!new)>(a: T, b: T, c: T)
    requires a != b && b != c && a != c
    ensures !Periodic<T>([]) && !Periodic([a])
    ensures Periodic([a, a]) && Periodic([a, b, a, b])
    ensures GcdOfCounts([a, b, c]) == 1 && !Periodic([a, b, c])
  {
    ShortStringNotPeriodic<T>([]);
    ShortStringNotPeriodic([a]);
    assert [a, a] == Repeat([a], 2);
    assert [a, b, a, b] == Repeat([a, b], 2);
    AbcGcd(a, b, c);
    CoprimeCountsNotPeriodic([a, b, c]);
  }

  lemma AbbaCounts<T>(a: T, b: T, x: T)
    requires a != b
    ensures Count([a, b, b, a], x) == if x == a || x == b then 2 else 0
  {
    assert multiset([a, b, b, a]) == multiset{a, a, b, b};
  }

  lemma AbbaGcd<T(!new)>(a: T, b: T)
    requires a != b
    ensures GcdOfCounts([a, b, b, a]) == 2
  {
    forall x
      ensures Divides(2, Count([a, b, b, a], x))
    {
      AbbaCounts(a, b, x);
    }
    AbbaCounts(a, b, a);
    GcdOfCountsIs([a, b, b, a], a, 2);
  }

  /** "abba" counts {a: 2, b: 2}, so `gm = 2` and the loop tests only k = 2,
      whose candidate "ab" fails at position 2. The string is not periodic,
      so by the contract of `IsPeriodic` the as-written function yields
      `FellOffEnd` (JavaScript's `undefined`) here rather than `false`. */
  lemma FallThroughExample<T(!new)>(a: T, b: T)
    requires a != b
    ensures GcdOfCounts([a, b, b, a]) == 2
    ensures !Periodic([a, b, b, a])
  {
    AbbaGcd(a, b);
    AbbaNoDivisorPasses(a, b);
    assert forall j :: 2 <= j <= 2 ==> !Passes([a, b, b, a], 2, j);
    NoVerifiedDivisorMeansNotPeriodic([a, b, b, a]);
  }

  /** With `gm = 2` the loop tests only `k = 2`, and that test fails. */
  lemma AbbaNoDivisorPasses<T>(a: T, b: T)
    requires a != b
    ensures !Passes([a, b, b, a], 2, 2)
  {
    AbbaFailsAtTwo(a, b);
  }

  /** The candidate for two copies of "abba" is "ab", which differs from
      "abba" at position 2. */
  lemma AbbaFailsAtTwo<T>(a: T, b: T)
    requires a != b
    ensures !Cyclic([a, b, b, a], Candidate([a, b, b, a], 2))
  {
    var s := [a, b, b, a];
    assert Candidate(s, 2) == [a, b];
    assert s[2] != Candidate(s, 2)[2 % 2];
  }

  /** On "abba" the as-written `isPeriodic` ends by falling off its body:
      the result is `undefined`, not the boolean `false`. */
  method FallThroughRun<T(==,!new)>(a: T, b: T) returns (r: Completion)
    requires a != b
    ensures r == FellOffEnd
  {
    FallThroughExample(a, b);
    r := IsPeriodic([a, b, b, a]);
  }
}
