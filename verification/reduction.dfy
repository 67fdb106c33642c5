/** The reduction of the count list to a single value `gm`: 0 for no
    counts, the count itself for one, and a left fold of `Gcd` otherwise. */
module Reduction {
  import opened Euclid
  import opened Frequency

  /** `vals.reduce((a, c) => gcd(a, c))` without an initial value: the first
      entry seeds the accumulator and the rest are folded in from the left. */
  function FoldGcd(vals: seq<nat>): (r: nat)
    requires |vals| >= 1
    ensures forall i :: 0 <= i < |vals| ==> Divides(r, vals[i])
    ensures r == 0 <==> forall i :: 0 <= i < |vals| ==> vals[i] == 0
  {
    if |vals| == 1 then
      vals[0]
    else
      var init := vals[..|vals| - 1];
      var g := FoldGcd(init);
      var r := Gcd(g, vals[|vals| - 1]);
      DividesEach(r, g, init);
      r
  }

  lemma DividesEach(d: nat, g: nat, xs: seq<nat>)
    requires Divides(d, g)
    requires forall i :: 0 <= i < |xs| ==> Divides(g, xs[i])
    ensures forall i :: 0 <= i < |xs| ==> Divides(d, xs[i])
  {
    forall i | 0 <= i < |xs|
      ensures Divides(d, xs[i])
    {
      DividesTransitive(d, g, xs[i]);
    }
  }

  /** Every common divisor of the list divides the fold. */
  lemma {:induction false} FoldGcdGreatest(vals: seq<nat>, d: nat)
    requires |vals| >= 1
    requires forall i :: 0 <= i < |vals| ==> Divides(d, vals[i])
    ensures Divides(d, FoldGcd(vals))
  {
    if |vals| > 1 {
      var init := vals[..|vals| - 1];
      FoldGcdGreatest(init, d);
      GcdGreatest(FoldGcd(init), vals[|vals| - 1], d);
    }
  }

  /** The value `gm` computed from the count list, with the three branches of
      the source: no counts give 0, one count gives that count, and more are
      folded. The result divides every count and is 0 only when all are. */
  function ReduceCounts(vals: seq<nat>): (gm: nat)
    ensures forall i :: 0 <= i < |vals| ==> Divides(gm, vals[i])
    ensures gm == 0 <==> forall i :: 0 <= i < |vals| ==> vals[i] == 0
  {
    if |vals| == 0 then 0
    else if |vals| == 1 then vals[0]
    else FoldGcd(vals)
  }

  /** `ReduceCounts` is the greatest common divisor of the list: every common
      divisor of the entries divides it. */
  lemma ReduceCountsGreatest(vals: seq<nat>, d: nat)
    requires forall i :: 0 <= i < |vals| ==> Divides(d, vals[i])
    ensures Divides(d, ReduceCounts(vals))
  {
    if |vals| > 1 {
      FoldGcdGreatest(vals, d);
    }
  }

  /** The order in which the counts are listed does not matter: two lists
      with the same entries reduce to the same value. */
  lemma ReduceCountsOrderIndependent(xs: seq<nat>, ys: seq<nat>)
    requires forall v :: v in xs <==> v in ys
    ensures ReduceCounts(xs) == ReduceCounts(ys)
  {
    var gx, gy := ReduceCounts(xs), ReduceCounts(ys);
    forall i | 0 <= i < |ys|
      ensures Divides(gx, ys[i])
    {
      assert ys[i] in xs;
    }
    forall i | 0 <= i < |xs|
      ensures Divides(gy, xs[i])
    {
      assert xs[i] in ys;
    }
    ReduceCountsGreatest(ys, gx);
    ReduceCountsGreatest(xs, gy);
    DividesAntisymmetric(gx, gy);
  }

  /** `gm` of is-periodic.js: the reduction of the string's count list. It
      divides the count of every symbol and the length of the string, and it
      is 0 exactly for the empty string. */
  function GcdOfCounts<T(==,!new)>(s: seq<T>): (gm: nat)
    ensures forall c :: Divides(gm, Count(s, c))
    ensures Divides(gm, |s|)
    ensures gm == 0 <==> s == []
  {
    var gm := ReduceCounts(CountValues(s));
    ReducedCountsDivide(s, gm);
    gm
  }

  lemma ReducedCountsDivide<T(!new)>(s: seq<T>, gm: nat)
    requires gm == ReduceCounts(CountValues(s))
    ensures forall c :: Divides(gm, Count(s, c))
    ensures Divides(gm, |s|)
    ensures gm == 0 <==> s == []
  {
    var vals := CountValues(s);
    forall c
      ensures Divides(gm, Count(s, c))
    {
      if c in s {
        assert Count(s, c) in vals;
      } else {
        assert Count(s, c) == 0;
      }
    }
    CountValuesSumToLength(s);
    DividesSum(gm, vals);
    if s != [] {
      assert vals[0] != 0;
    }
  }

  /** Every common divisor of the symbol counts divides `gm`. */
  lemma GcdOfCountsGreatest<T(!new)>(s: seq<T>, d: nat)
    requires forall c :: Divides(d, Count(s, c))
    ensures Divides(d, GcdOfCounts(s))
  {
    ReduceCountsGreatest(CountValues(s), d);
  }

  /** `gm` is pinned down by a symbol whose count is a common divisor of all
      counts. */
  lemma GcdOfCountsIs<T(!new)>(s: seq<T>, c: T, g: nat)
    requires Count(s, c) == g > 0
    requires forall x :: Divides(g, Count(s, x))
    ensures GcdOfCounts(s) == g
  {
    GcdOfCountsGreatest(s, g);
    DividesAntisymmetric(g, GcdOfCounts(s));
  }
}
