/** The frequency map built by `isPeriodic` (one count per distinct symbol)
    and the list of its values handed to the GCD reduction. */
module Frequency {
  import opened Euclid

  /** Number of occurrences of `c` in `s`. */
  function Count<T(==)>(s: seq<T>, c: T): nat
  {
    multiset(s)[c]
  }

  /** Sum of a list of naturals, folded from the right end. */
  function Sum(xs: seq<nat>): nat
  {
    if xs == [] then 0 else Sum(xs[..|xs| - 1]) + xs[|xs| - 1]
  }

  /** The map built by scanning `s` left to right and bumping the entry of
      each symbol, starting from 0 when the symbol is new. Its keys are
      exactly the symbols of `s`, and each key maps to its number of
      occurrences, which is at least 1. */
  function Frequencies<T(==,!new)>(s: seq<T>): (m: map<T, nat>)
    ensures m.Keys == set x | x in s
    ensures forall c :: c in m ==> m[c] == Count(s, c) >= 1
  {
    if s == [] then
      map[]
    else
      var init, ch := s[..|s| - 1], s[|s| - 1];
      assert s == init + [ch];
      var m := Frequencies(init);
      m[ch := (if ch in m then m[ch] else 0) + 1]
  }

  /** The keys of `Frequencies(s)` in insertion order: each distinct symbol of
      `s` once, where it first occurs. */
  function InsertionOrder<T(==,!new)>(s: seq<T>): (keys: seq<T>)
    ensures forall c :: c in keys <==> c in s
    ensures forall i, j :: 0 <= i < j < |keys| ==> keys[i] != keys[j]
  {
    if s == [] then
      []
    else
      var keys := InsertionOrder(s[..|s| - 1]);
      var ch := s[|s| - 1];
      if ch in keys then keys else keys + [ch]
  }

  /** The array of map values taken for the GCD: one count per distinct
      symbol, in insertion order. Every symbol's count is in it, every entry
      is positive, and it is empty exactly when `s` is. */
  function CountValues<T(==,!new)>(s: seq<T>): (vals: seq<nat>)
    ensures |vals| == |InsertionOrder(s)|
    ensures forall i :: 0 <= i < |vals| ==> vals[i] == Count(s, InsertionOrder(s)[i]) >= 1
    ensures forall c :: c in s ==> Count(s, c) in vals
    ensures vals == [] <==> s == []
  {
    var keys := InsertionOrder(s);
    var freq := Frequencies(s);
    var vals := seq(|keys|, i requires 0 <= i < |keys| => freq[keys[i]]);
    assert forall c :: c in s ==> exists i :: 0 <= i < |keys| && keys[i] == c && vals[i] == Count(s, c);
    assert s != [] ==> s[0] in keys;
    vals
  }

  /** Two lists that differ only by one entry raised by one. */
  lemma SumBump(xs: seq<nat>, ys: seq<nat>, j: nat)
    requires |xs| == |ys| && j < |xs|
    requires ys[j] == xs[j] + 1
    requires forall i :: 0 <= i < |xs| && i != j ==> ys[i] == xs[i]
    ensures Sum(ys) == Sum(xs) + 1
    decreases |xs|
  {
    var n := |xs| - 1;
    if j < n {
      SumBump(xs[..n], ys[..n], j);
    } else {
      assert xs[..n] == ys[..n];
    }
  }

  /** Appending one symbol adds one to its own count and nothing else. */
  lemma CountSnoc<T>(s: seq<T>, ch: T, c: T)
    ensures Count(s + [ch], c) == Count(s, c) + (if c == ch then 1 else 0)
  {
    assert multiset(s + [ch]) == multiset(s) + multiset{ch};
  }

  /** Appending a symbol already seen leaves the key order as it was. */
  lemma SeenKeepsOrder<T(!new)>(init: seq<T>, ch: T)
    requires ch in init
    ensures InsertionOrder(init + [ch]) == InsertionOrder(init)
  {
    var s := init + [ch];
    assert s[..|s| - 1] == init;
  }

  /** Appending a symbol already seen, the `j`th key, raises entry `j` by
      one and leaves every other entry as it was, so the sum grows by one. */
  lemma SeenBumpsOne<T(!new)>(init: seq<T>, ch: T, j: nat)
    requires j < |InsertionOrder(init)| && InsertionOrder(init)[j] == ch
    ensures Sum(CountValues(init + [ch])) == Sum(CountValues(init)) + 1
  {
    var vals0, vals := CountValues(init), CountValues(init + [ch]);
    forall i | 0 <= i < |vals0|
      ensures |vals| == |vals0| && vals[i] == vals0[i] + (if i == j then 1 else 0)
    {
      EntryAfterSeen(init, ch, j, i);
    }
    SeenKeepsOrder(init, ch);
    SumBump(vals0, vals, j);
  }

  /** Entry `i` after appending the `j`th key: raised by one when `i` is
      `j`, unchanged otherwise. */
  lemma EntryAfterSeen<T(!new)>(init: seq<T>, ch: T, j: nat, i: nat)
    requires j < |InsertionOrder(init)| && InsertionOrder(init)[j] == ch
    requires i < |InsertionOrder(init)|
    ensures |CountValues(init + [ch])| == |CountValues(init)|
    ensures CountValues(init + [ch])[i] == CountValues(init)[i] + (if i == j then 1 else 0)
  {
    SeenKeepsOrder(init, ch);
    CountSnoc(init, ch, InsertionOrder(init)[i]);
  }

  /** Appending a symbol already seen bumps its entry in place. */
  lemma SumStepSeen<T(!new)>(init: seq<T>, ch: T)
    requires ch in init
    ensures Sum(CountValues(init + [ch])) == Sum(CountValues(init)) + 1
  {
    var keys := InsertionOrder(init);
    var j :| 0 <= j < |keys| && keys[j] == ch;
    SeenBumpsOne(init, ch, j);
  }

  /** Appending a new symbol appends an entry of 1. */
  lemma NewAppendsOne<T(!new)>(init: seq<T>, ch: T)
    requires ch !in init
    ensures CountValues(init + [ch]) == CountValues(init) + [1]
  {
    var s := init + [ch];
    assert s[..|s| - 1] == init;
    var keys, vals0, vals := InsertionOrder(init), CountValues(init), CountValues(s);
    assert InsertionOrder(s) == keys + [ch];
    forall i | 0 <= i < |vals0|
      ensures vals[i] == vals0[i]
    {
      CountSnoc(init, ch, keys[i]);
    }
    CountSnoc(init, ch, ch);
  }

  /** The sum grows by the appended entry. */
  lemma SumSnoc(xs: seq<nat>, x: nat)
    ensures Sum(xs + [x]) == Sum(xs) + x
  {
    assert (xs + [x])[..|xs|] == xs;
  }

  /** Appending a new symbol adds one to the sum of the counts. */
  lemma SumStepNew<T(!new)>(init: seq<T>, ch: T)
    requires ch !in init
    ensures Sum(CountValues(init + [ch])) == Sum(CountValues(init)) + 1
  {
    NewAppendsOne(init, ch);
    SumSnoc(CountValues(init), 1);
  }

  /** The counts handed to the reduction add up to the length of the string:
      every position is counted once, under its own symbol. */
  lemma {:induction false} CountValuesSumToLength<T(!new)>(s: seq<T>)
    ensures Sum(CountValues(s)) == |s|
  {
    if s != [] {
      var init, ch := s[..|s| - 1], s[|s| - 1];
      assert s == init + [ch];
      CountValuesSumToLength(init);
      if ch in init {
        SumStepSeen(init, ch);
      } else {
        SumStepNew(init, ch);
      }
    }
  }

  /** A number dividing every entry of a list divides its sum. */
  lemma {:induction false} DividesSum(d: nat, xs: seq<nat>)
    requires forall i :: 0 <= i < |xs| ==> Divides(d, xs[i])
    ensures Divides(d, Sum(xs))
  {
    if xs != [] {
      var n := |xs| - 1;
      DividesSum(d, xs[..n]);
      assert Divides(d, xs[n]);
      DividesSumOfTwo(d, Sum(xs[..n]), xs[n]);
    }
  }
}
