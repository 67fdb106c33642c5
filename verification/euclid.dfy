/** Divisibility on naturals and the recursive Euclidean algorithm used by the
    checker to reduce symbol counts to their greatest common divisor. */
module Euclid {

  /** `d` divides `n`: `n` is reached from 0 by steps of `d`. By the usual
      convention 0 divides only 0, so that `Divides(Gcd(a, b), a)` holds even
      when both arguments are 0. `DividesIffNoRemainder` relates it to `%`. */
  predicate Divides(d: nat, n: nat)
    decreases n
  {
    if n == 0 then true
    else if d == 0 || d > n then false
    else Divides(d, n - d)
  }

  lemma ProductIsNatural(a: nat, b: nat)
    ensures a * b >= 0
  {
  }

  /** Euclidean division is unique: a quotient and a remainder in range are
      the ones `/` and `%` compute. */
  lemma ModUnique(x: int, n: int, q: int, r: int)
    requires n > 0 && x == n * q + r && 0 <= r < n
    ensures x % n == r
  {
    var z := q - x / n;
    assert x % n - r == n * z;
    assert -n < n * z < n;
  }

  /** Adding one period does not change the residue. */
  lemma ShiftMod(j: nat, n: nat)
    requires n > 0
    ensures (j + n) % n == j % n
  {
    assert j + n == n * (j / n + 1) + j % n;
    ModUnique(j + n, n, j / n + 1, j % n);
  }

  /** `Divides` is the absence of a remainder. */
  lemma {:induction false} DividesIffNoRemainder(d: nat, n: nat)
    ensures Divides(d, n) <==> if d == 0 then n == 0 else n % d == 0
    decreases n
  {
    if n > 0 && d > 0 {
      if d > n {
        ModUnique(n, d, 0, n);
      } else {
        DividesIffNoRemainder(d, n - d);
        ShiftMod(n - d, d);
      }
    }
  }

  /** A multiple of a positive `d` leaves no remainder. */
  lemma MultipleHasNoRemainder(d: nat, q: int)
    requires d > 0
    ensures (d * q) % d == 0
  {
    var x := d * q;
    var z := q - x / d;
    assert x % d == d * z;
    assert 0 <= d * z < d;
  }

  /** Dividing an exact multiple recovers the other factor. */
  lemma DivOfMultiple(d: nat, q: nat)
    requires d > 0
    ensures (d * q) / d == q
  {
    var x := d * q;
    MultipleHasNoRemainder(d, q);
    assert x == d * (x / d);
    assert d * (x / d - q) == 0;
  }

  /** Dividing by a positive number never increases a natural. */
  lemma DivIsAtMost(n: nat, d: nat)
    requires d > 0
    ensures n / d <= n
  {
    var q := n / d;
    assert n == d * q + n % d;
    ProductIsNatural(d - 1, q);
    assert d * q == q + (d - 1) * q;
  }

  /** Splitting a positive multiple of `k >= 2` into `k` equal parts gives
      parts that are non-empty and shorter than the whole. */
  lemma ExactQuotient(n: nat, k: nat)
    requires k >= 2 && n > 0 && Divides(k, n)
    ensures n == k * (n / k)
    ensures 0 < n / k < n
  {
    DividesIffNoRemainder(k, n);
    var q := n / k;
    assert n == k * q + n % k;
    ProductIsNatural(k - 2, q);
    assert k * q == 2 * q + (k - 2) * q;
  }

  /** Below a multiple `b` of `d`, `a` and `a - b` are multiples of `d`
      together. */
  lemma {:induction false} DividesDifference(d: nat, a: nat, b: nat)
    requires b <= a && Divides(d, b)
    ensures Divides(d, a) <==> Divides(d, a - b)
    decreases b
  {
    if b > 0 {
      DividesDifference(d, a - d, b - d);
    }
  }

  /** Common divisors divide sums. */
  lemma DividesSumOfTwo(d: nat, x: nat, y: nat)
    requires Divides(d, x) && Divides(d, y)
    ensures Divides(d, x + y)
  {
    DividesDifference(d, x + y, y);
  }

  /** `d` divides each of its multiples. */
  lemma {:induction false} DividesMultiple(d: nat, q: nat)
    ensures Divides(d, d * q)
    decreases q
  {
    if q > 0 {
      ProductIsNatural(d, q - 1);
      DividesMultiple(d, q - 1);
      assert d * q == d * (q - 1) + d;
      assert Divides(d, d);
      DividesSumOfTwo(d, d * (q - 1), d);
    }
  }

  /** A positive multiple of `d` is at least `d`. */
  lemma DivisorIsAtMost(d: nat, n: nat)
    requires Divides(d, n) && n > 0
    ensures 0 < d <= n
  {
  }

  lemma {:induction false} DividesTransitive(a: nat, b: nat, c: nat)
    requires Divides(a, b) && Divides(b, c)
    ensures Divides(a, c)
    decreases c
  {
    if c > 0 {
      DividesTransitive(a, b, c - b);
      DividesSumOfTwo(a, c - b, b);
    }
  }

  lemma DividesAntisymmetric(a: nat, b: nat)
    requires Divides(a, b) && Divides(b, a)
    ensures a == b
  {
    if a > 0 && b > 0 {
      DivisorIsAtMost(a, b);
      DivisorIsAtMost(b, a);
    }
  }

  /** JavaScript's `a % b` for a natural `a` and a positive `b`, computed by
      repeated subtraction. */
  function Mod(a: nat, b: nat): (r: nat)
    requires b > 0
    ensures r < b
    decreases a
  {
    if a < b then a else Mod(a - b, b)
  }

  /** `Mod` is the remainder of Euclidean division: `a = b * q + Mod(a, b)`
      for some quotient `q`, so it is Dafny's `%` as well. */
  lemma {:induction false} ModIsRemainder(a: nat, b: nat)
    requires b > 0
    ensures Mod(a, b) == a % b
    decreases a
  {
    if a < b {
      ModUnique(a, b, 0, a);
    } else {
      ModIsRemainder(a - b, b);
      ShiftMod(a - b, b);
    }
  }

  /** The remainder step of Euclid's algorithm keeps every common divisor:
      the common divisors of `a` and `b` are those of `b` and `a mod b`. */
  lemma {:induction false} RemainderStep(a: nat, b: nat, d: nat)
    requires b > 0
    ensures Divides(d, a) && Divides(d, b) <==> Divides(d, b) && Divides(d, Mod(a, b))
    decreases a
  {
    if a >= b {
      RemainderStep(a - b, b, d);
      if Divides(d, b) {
        DividesDifference(d, a, b);
      }
    }
  }

  /** `gcd(a, b)` of is-periodic.js: `gcd(a, 0) = a`, otherwise
      `gcd(b, a % b)`. The result is a common divisor of both arguments and
      is 0 only when both are 0. */
  function Gcd(a: nat, b: nat): (r: nat)
    ensures Divides(r, a) && Divides(r, b)
    ensures r == 0 <==> a == 0 && b == 0
    ensures b == 0 ==> r == a
    decreases b
  {
    if b == 0 then
      a
    else
      var r := Gcd(b, Mod(a, b));
      RemainderStep(a, b, r);
      r
  }

  /** Every common divisor of `a` and `b` divides `Gcd(a, b)`: the result is
      the greatest common divisor in the divisibility order. */
  lemma {:induction false} GcdGreatest(a: nat, b: nat, d: nat)
    requires Divides(d, a) && Divides(d, b)
    ensures Divides(d, Gcd(a, b))
    decreases b
  {
    if b > 0 {
      RemainderStep(a, b, d);
      GcdGreatest(b, Mod(a, b), d);
    }
  }
}
