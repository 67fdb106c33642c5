/** Repeating a unit and the cyclic comparison `isRepeating` performs. */
module Repetition {
  import Euclid
  import opened Frequency

  /** `p` written `k` times in a row: `k` copies of the unit, so `k` times
      its length. `RepeatIndex` says which symbol sits where. */
  function Repeat<T>(p: seq<T>, k: nat): (s: seq<T>)
    ensures |s| == k * |p|
  {
    if k == 0 then
      []
    else
      var rest := Repeat(p, k - 1);
      OneMoreCopy(k, |p|);
      p + rest
  }

  /** Position `i` of `p` written `k` times holds `p[i mod |p|]`. */
  lemma {:induction false} RepeatIndex<T>(p: seq<T>, k: nat)
    ensures forall i :: 0 <= i < |Repeat(p, k)| ==> Repeat(p, k)[i] == p[i % |p|]
    decreases k
  {
    if k > 0 {
      RepeatIndex(p, k - 1);
      RepeatStep(p, Repeat(p, k - 1), k);
    }
  }

  /** One more copy in front: the length grows by `|p|` and the cyclic
      indexing carries over, shifted by one period. */
  lemma RepeatStep<T>(p: seq<T>, rest: seq<T>, k: nat)
    requires k >= 1 && |rest| == (k - 1) * |p|
    requires forall i :: 0 <= i < |rest| ==> rest[i] == p[i % |p|]
    ensures |p + rest| == k * |p|
    ensures forall i :: 0 <= i < |p + rest| ==> (p + rest)[i] == p[i % |p|]
  {
    var s := p + rest;
    OneMoreCopy(k, |p|);
    forall i | 0 <= i < |s|
      ensures s[i] == p[i % |p|]
    {
      if i < |p| {
        assert i % |p| == i;
      } else {
        var j := i - |p|;
        assert s[i] == rest[j] == p[j % |p|];
        Euclid.ShiftMod(j, |p|);
      }
    }
  }

  lemma OneMoreCopy(k: nat, n: nat)
    requires k >= 1
    ensures (k - 1) * n + n == k * n
  {
  }

  /** A copy of `p` in front of `k - 1` copies' worth of a symbol gives
      `k` copies' worth. */
  lemma CountOneMoreCopy<T>(p: seq<T>, rest: seq<T>, k: nat, c: T)
    requires k >= 1 && Count(rest, c) == (k - 1) * Count(p, c)
    ensures Count(p + rest, c) == k * Count(p, c)
  {
    CountConcat(p, rest, c);
    OneMoreCopy(k, Count(p, c));
  }

  /** `k` copies are one copy followed by `k - 1` copies. */
  lemma RepeatUnfold<T>(p: seq<T>, k: nat)
    requires k >= 1
    ensures Repeat(p, k) == p + Repeat(p, k - 1)
  {
  }

  /** Counts add up over a concatenation. */
  lemma CountConcat<T>(x: seq<T>, y: seq<T>, c: T)
    ensures Count(x + y, c) == Count(x, c) + Count(y, c)
  {
    assert multiset(x + y) == multiset(x) + multiset(y);
  }

  /** Every symbol occurs `k` times as often in `Repeat(p, k)` as in `p`. */
  lemma {:induction false} RepeatCount<T>(p: seq<T>, k: nat, c: T)
    ensures Count(Repeat(p, k), c) == k * Count(p, c)
  {
    if k > 0 {
      RepeatCount(p, k - 1, c);
      RepeatUnfold(p, k);
      CountOneMoreCopy(p, Repeat(p, k - 1), k, c);
    }
  }

  /** Position `i` of `s` agrees with position `i mod |unit|` of `unit`, for
      every position of `s`. An empty unit matches only the empty string,
      since every position then compares against `undefined`. */
  predicate Cyclic<T(==)>(s: seq<T>, unit: seq<T>)
  {
    && (|s| > 0 ==> |unit| > 0)
    && forall i :: 0 <= i < |s| ==> s[i] == unit[i % |unit|]
  }

  /** For a string of exactly `k` units' length, the cyclic comparison
      succeeds exactly when the string is the unit written `k` times. */
  lemma CyclicIffRepeat<T>(s: seq<T>, p: seq<T>, k: nat)
    requires |p| > 0 && |s| == k * |p|
    ensures Cyclic(s, p) <==> s == Repeat(p, k)
  {
    var r := Repeat(p, k);
    RepeatIndex(p, k);
    if Cyclic(s, p) {
      assert forall i :: 0 <= i < |s| ==> s[i] == r[i];
    }
  }

  /** `isRepeating(str, sub)`: walks `str` and compares each position with
      `sub` taken cyclically, answering false at the first difference and
      true when every position agrees. */
  method IsRepeating<T(==)>(str: seq<T>, sub: seq<T>) returns (b: bool)
    ensures b <==> Cyclic(str, sub)
  {
    var i := 0;
    while i < |str|
      invariant 0 <= i <= |str|
      invariant i > 0 ==> |sub| > 0
      invariant forall j :: 0 <= j < i ==> str[j] == sub[j % |sub|]
    {
      // With an empty `sub` the index `i % 0` is NaN and `sub[NaN]` is
      // undefined, which differs from every symbol.
      if |sub| == 0 || str[i] != sub[i % |sub|] {
        return false;
      }
      i := i + 1;
    }
    return true;
  }
}
