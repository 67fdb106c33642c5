/** The decision procedure `isPeriodic`: is a string some non-empty unit
    written two or more times? The counts' GCD `gm` bounds the number of
    copies, and each divisor `k` of `gm` from 2 upward is tried by checking
    the string against its first `|s| / k` symbols. */
module Periodicity {
  import opened Euclid
  import opened Frequency
  import opened Reduction
  import opened Repetition

  /** How a call of the JavaScript function ends: with an explicit `return`
      of a boolean, or by running off the end of the body, which yields
      `undefined`. */
  datatype Completion = Returned(value: bool) | FellOffEnd
  {
    /** Whether the result counts as true in a JavaScript condition;
        `undefined` is falsy. */
    predicate Truthy()
    {
      this == Returned(true)
    }
  }

  /** `s` is a non-empty unit written `k >= 2` times. */
  ghost predicate Periodic<T(!new)>(s: seq<T>)
  {
    exists p: seq<T>, k: nat :: |p| > 0 && k >= 2 && s == Repeat(p, k)
  }

  /** The candidate unit for `k` copies: `str.substring(0, str.length / k)`.
      `substring` truncates a fractional end index, as `/` on naturals does. */
  function Candidate<T>(s: seq<T>, k: nat): (c: seq<T>)
    requires k >= 1
    ensures c <= s && |c| == |s| / k
  {
    DivIsAtMost(|s|, k);
    s[..|s| / k]
  }

  /** Test `k` of the divisor loop succeeds: `k` divides `gm` and the
      candidate for `k` copies passes the cyclic check. */
  predicate Passes<T(==)>(s: seq<T>, gm: nat, k: nat)
    requires k >= 1
  {
    Divides(k, gm) && Cyclic(s, Candidate(s, k))
  }

  /** `Passes` is the loop body's test as written: `gm % k` is 0, so the
      `continue` is skipped, and `isRepeating` accepts the candidate. */
  lemma PassesIsLoopTest<T>(s: seq<T>, gm: nat, k: nat)
    requires k >= 1
    ensures Passes(s, gm, k) <==> gm % k == 0 && Cyclic(s, Candidate(s, k))
  {
    DividesIffNoRemainder(k, gm);
  }

  /** A divisor `k >= 2` of `gm` that the loop tests divides the length
      exactly, so its candidate unit is non-empty, shorter than the string,
      and `k` copies of it have the string's length. */
  lemma TestedLengthIsExact<T(!new)>(s: seq<T>, k: nat)
    requires 2 <= k <= GcdOfCounts(s) && Divides(k, GcdOfCounts(s))
    ensures Divides(k, |s|)
    ensures 0 < |Candidate(s, k)| < |s|
    ensures |s| == k * |Candidate(s, k)|
  {
    DividesTransitive(k, GcdOfCounts(s), |s|);
    ExactQuotient(|s|, k);
  }

  /** Soundness of one test: if the candidate for a tested divisor `k`
      passes the cyclic check, the string is that candidate written `k`
      times, so it is periodic. */
  lemma VerifiedDivisorIsPeriod<T(!new)>(s: seq<T>, k: nat)
    requires 2 <= k <= GcdOfCounts(s) && Divides(k, GcdOfCounts(s))
    requires Cyclic(s, Candidate(s, k))
    ensures s == Repeat(Candidate(s, k), k)
    ensures Periodic(s)
  {
    TestedLengthIsExact(s, k);
    CyclicIffRepeat(s, Candidate(s, k), k);
  }

  /** Completeness of the divisor search: if the string is `p` written
      `k >= 2` times, then `k` divides every count and hence `gm`, so the
      loop reaches `k`, the candidate for `k` is `p` itself, and it passes
      the cyclic check. */
  lemma RepetitionFactorIsTested<T(!new)>(s: seq<T>, p: seq<T>, k: nat)
    requires |p| > 0 && k >= 2 && s == Repeat(p, k)
    ensures 2 <= k <= GcdOfCounts(s) && Divides(k, GcdOfCounts(s))
    ensures Candidate(s, k) == p
    ensures Cyclic(s, Candidate(s, k))
  {
    forall c
      ensures Divides(k, Count(s, c))
    {
      RepeatCount(p, k, c);
      DividesMultiple(k, Count(p, c));
    }
    GcdOfCountsGreatest(s, k);
    var gm := GcdOfCounts(s);
    assert |s| == k * |p|;
    ProductIsNatural(k - 1, |p|);
    assert k * |p| == |p| + (k - 1) * |p|;
    DivisorIsAtMost(k, gm);
    DivOfMultiple(k, |p|);
    assert s == p + Repeat(p, k - 1);
    assert Candidate(s, k) == p;
    CyclicIffRepeat(s, p, k);
  }

  /** `RepetitionFactorIsTested` for every way of writing `s` as copies. */
  lemma AllRepetitionFactorsTested<T(!new)>(s: seq<T>)
    ensures forall p: seq<T>, k: nat :: |p| > 0 && k >= 2 && s == Repeat(p, k) ==>
      k <= GcdOfCounts(s) && Passes(s, GcdOfCounts(s), k)
  {
    forall p: seq<T>, k: nat | |p| > 0 && k >= 2 && s == Repeat(p, k)
      ensures k <= GcdOfCounts(s) && Passes(s, GcdOfCounts(s), k)
    {
      RepetitionFactorIsTested(s, p, k);
    }
  }

  /** If no divisor the loop tests passes, the string is not periodic. */
  lemma NoVerifiedDivisorMeansNotPeriodic<T(!new)>(s: seq<T>)
    requires forall j :: 2 <= j <= GcdOfCounts(s) ==> !Passes(s, GcdOfCounts(s), j)
    ensures !Periodic(s)
  {
    AllRepetitionFactorsTested(s);
  }

  /** Counts with GCD 0 or 1 rule periodicity out, which is why the source
      answers false before the loop. */
  lemma CoprimeCountsNotPeriodic<T(!new)>(s: seq<T>)
    requires GcdOfCounts(s) <= 1
    ensures !Periodic(s)
  {
    AllRepetitionFactorsTested(s);
  }

  /** The empty string has `gm = 0`, a one-symbol string has `gm = 1`, and
      neither is periodic. */
  lemma ShortStringNotPeriodic<T(!new)>(s: seq<T>)
    requires |s| <= 1
    ensures GcdOfCounts(s) == |s|
    ensures !Periodic(s)
  {
    if |s| == 1 {
      DivisorIsAtMost(GcdOfCounts(s), 1);
    }
    CoprimeCountsNotPeriodic(s);
  }

  /** When the loop stops at `k`, the string is `k` copies of the candidate
      and, since no smaller divisor passed, no fewer copies of any unit make
      it up. */
  lemma FirstPassingDivisorIsLongestUnit<T(!new)>(s: seq<T>, k: nat)
    requires 2 <= k <= GcdOfCounts(s) && Divides(k, GcdOfCounts(s))
    requires Cyclic(s, Candidate(s, k))
    requires forall j :: 2 <= j < k ==> !Passes(s, GcdOfCounts(s), j)
    ensures Periodic(s) && s == Repeat(Candidate(s, k), k)
    ensures forall p: seq<T>, j: nat :: |p| > 0 && 2 <= j < k ==> s != Repeat(p, j)
  {
    VerifiedDivisorIsPeriod(s, k);
    AllRepetitionFactorsTested(s);
  }

  /** The divisor loop of `isPeriodic`: `k` runs from 2 to `gm`, each
      divisor of `gm` has its candidate checked, and the loop stops at the
      first that passes. On success `k` is the first passing divisor; on
      failure no divisor up to `gm` passes. */
  method FirstPassingDivisor<T(==)>(s: seq<T>, gm: nat) returns (found: bool, k: nat)
    ensures found ==> 2 <= k <= gm && Passes(s, gm, k)
    ensures found ==> forall j :: 2 <= j < k ==> !Passes(s, gm, j)
    ensures !found ==> forall j :: 2 <= j <= gm ==> !Passes(s, gm, j)
  {
    k := 2;
    while k <= gm
      invariant 2 <= k <= if gm < 2 then 2 else gm + 1
      invariant forall j :: 2 <= j < k ==> !Passes(s, gm, j)
    {
      DividesIffNoRemainder(k, gm);
      if gm % k == 0 {
        var ok := IsRepeating(s, Candidate(s, k));
        if ok {
          return true, k;
        }
      }
      k := k + 1;
    }
    found := false;
  }

  /** The divisor search is a decision procedure for periodicity: it
      succeeds exactly when the string is periodic. On success the string is
      `k` copies of the candidate for `k`, and no smaller number of copies
      of any unit makes it up: the unit found is the longest one. */
  method DivisorSearch<T(==,!new)>(s: seq<T>, gm: nat) returns (found: bool, k: nat)
    requires gm == GcdOfCounts(s)
    ensures found <==> Periodic(s)
    ensures found ==> 2 <= k <= gm && Divides(k, gm) && s == Repeat(Candidate(s, k), k)
    ensures found ==> forall j :: 2 <= j < k ==> !Passes(s, gm, j)
    ensures found ==> forall p: seq<T>, j: nat :: |p| > 0 && 2 <= j < k ==> s != Repeat(p, j)
  {
    found, k := FirstPassingDivisor(s, gm);
    if found {
      FirstPassingDivisorIsLongestUnit(s, k);
    } else {
      NoVerifiedDivisorMeansNotPeriodic(s);
    }
  }

  /** `isPeriodic(str)` as written: false when `gm <= 1`, true when a tested
      divisor passes, and otherwise the loop ends and the function falls off
      the end of its body. The result is truthy exactly when the string is
      periodic. */
  method IsPeriodic<T(==,!new)>(str: seq<T>) returns (r: Completion)
    ensures r == Returned(false) <==> GcdOfCounts(str) <= 1
    ensures r == Returned(true) <==> Periodic(str)
    ensures r == FellOffEnd <==> GcdOfCounts(str) > 1 && !Periodic(str)
    ensures r.Truthy() <==> Periodic(str)
  {
    var gm := GcdOfCounts(str);
    if gm <= 1 {
      CoprimeCountsNotPeriodic(str);
      return Returned(false);
    }
    var found, _ := DivisorSearch(str, gm);
    if found {
      return Returned(true);
    }
    r := FellOffEnd;
  }

  /** `isPeriodic` with the fall-through answered by an explicit false, so
      the result is always a boolean: exactly the periodicity of `str`. */
  method IsPeriodicFixed<T(==,!new)>(str: seq<T>) returns (b: bool)
    ensures b <==> Periodic(str)
  {
    var gm := GcdOfCounts(str);
    if gm <= 1 {
      CoprimeCountsNotPeriodic(str);
      return false;
    }
    var found, _ := DivisorSearch(str, gm);
    return found;
  }

  /** A run of `n` copies of one symbol has `gm = n`; it is periodic exactly
      when `n >= 2`, and then the candidate for `k = n` is the single symbol
      and passes. */
  lemma SingleSymbolRun<T(!new)>(c: T, n: nat)
    ensures GcdOfCounts(Repeat([c], n)) == n
    ensures Periodic(Repeat([c], n)) <==> n >= 2
    ensures n >= 2 ==> Candidate(Repeat([c], n), n) == [c]
  {
    var s := Repeat([c], n);
    if n <= 1 {
      ShortStringNotPeriodic(s);
    } else {
      forall x
        ensures Divides(n, Count(s, x))
      {
        RepeatCount([c], n, x);
        DividesMultiple(n, Count([c], x));
      }
      RepeatCount([c], n, c);
      assert Count([c], c) == 1;
      GcdOfCountsIs(s, c, n);
      RepetitionFactorIsTested(s, [c], n);
    }
  }
}
