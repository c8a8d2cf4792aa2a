/**
 * Trial-division primality test and the count of primes in an inclusive
 * range (HW1/count_primes.cc).  `long long` is modelled by unbounded `int`;
 * the OpenMP `+` reduction over the counting loop is modelled by the
 * sequential loop together with the lemma `PrimeCountSplit`, which is the
 * fact that lets the range be cut into pieces counted independently.
 */
module CountPrimes {

  /** x is prime: at least 2, and no divisor strictly between 1 and x. */
  ghost predicate Prime(x: int) {
    x >= 2 && forall d :: 2 <= d < x ==> x % d != 0
  }

  /** No trial divisor t with t * t <= x divides x (what the loop checks). */
  ghost predicate NoTrialDivisor(x: int) {
    forall t :: 2 <= t && t * t <= x ==> x % t != 0
  }

  /** If d*d > x then any t with t*t <= x is below d. */
  lemma SquareBelow(t: int, d: int, x: int)
    requires 2 <= t && 2 <= d && t * t <= x < d * d
    ensures t < d
  {
    assert d <= t ==> d * d <= d * t;
    assert d <= t ==> d * t <= t * t;
  }

  /**
   * A divisor d of x with d*d > x has a cofactor e = x / d with 2 <= e and
   * e*e <= x, which also divides x.
   */
  lemma CofactorIsSmall(x: int, d: int)
    requires 2 <= d < x && d * d > x
    ensures x % d == 0 ==> 2 <= x / d && (x / d) * (x / d) <= x && x % (x / d) == 0
  {
    if x % d == 0 {
      var e := x / d;
      assert x == d * e;
      assert e <= 1 ==> d * e <= d;
      assert 2 <= e;
      assert d <= e ==> d * d <= d * e;
      assert e < d;
      assert e * e <= e * d;
      assert x == e * d;
      DivisibleByFactor(e, d);
    }
  }

  /** A product is divisible by each of its factors. */
  lemma DivisibleByFactor(e: int, d: int)
    requires e > 0
    ensures (e * d) % e == 0
  {
    var x := e * d;
    var k := d - x / e;
    assert x % e == e * k by {
      assert x == (x / e) * e + x % e;
    }
    assert k >= 1 ==> e * k >= e;
    assert k <= -1 ==> e * k <= -e;
  }

  /**
   * For x >= 2, testing the divisors t with t*t <= x decides primality: this
   * is why the loop may stop at the square root.
   */
  lemma TrialDivisionDecidesPrimality(x: int)
    requires x >= 2
    ensures Prime(x) <==> NoTrialDivisor(x)
  {
    if NoTrialDivisor(x) {
      forall d | 2 <= d < x
        ensures x % d != 0
      {
        if d * d > x {
          CofactorIsSmall(x, d);
        }
      }
    }
    if Prime(x) {
      forall t | 2 <= t && t * t <= x
        ensures x % t != 0
      {
        assert t * 2 <= t * t;
      }
    }
  }

  /** is_prime: false below 2, otherwise trial division up to the square root. */
  method IsPrime(x: int) returns (r: bool)
    ensures r <==> Prime(x)
  {
    if x < 2 {
      return false;
    }
    var t := 2;
    while t * t <= x
      invariant 2 <= t
      invariant forall d :: 2 <= d < t ==> x % d != 0
      decreases x - t
    {
      assert t * 2 <= t * t;
      if x % t == 0 {
        return false;
      }
      t := t + 1;
    }
    forall d | 2 <= d && d * d <= x
      ensures x % d != 0
    {
      SquareBelow(d, t, x);
    }
    TrialDivisionDecidesPrimality(x);
    return true;
  }

  /** The number of primes in [a, b], counted from the top of the range. */
  ghost function PrimeCount(a: int, b: int): (r: int)
    ensures 0 <= r <= if b < a then 0 else b - a + 1
    decreases b - a
  {
    if b < a then 0 else PrimeCount(a, b - 1) + (if Prime(b) then 1 else 0)
  }

  /** The primes in [a, b], as a set. */
  ghost function PrimesIn(a: int, b: int): set<int> {
    set x | a <= x <= b && Prime(x)
  }

  /** PrimeCount is the size of the set of primes in [a, b]. */
  lemma {:induction false} PrimeCountIsCardinality(a: int, b: int)
    ensures PrimeCount(a, b) == |PrimesIn(a, b)|
    decreases b - a
  {
    if b < a {
      assert PrimesIn(a, b) == {};
    } else {
      PrimeCountIsCardinality(a, b - 1);
      if Prime(b) {
        assert PrimesIn(a, b) == PrimesIn(a, b - 1) + {b};
      } else {
        assert PrimesIn(a, b) == PrimesIn(a, b - 1);
      }
    }
  }

  /**
   * Cutting [a, b] at any m and adding the two counts gives the whole count:
   * the property the `+` reduction over the loop relies on.
   */
  lemma {:induction false} PrimeCountSplit(a: int, m: int, b: int)
    requires a - 1 <= m <= b
    ensures PrimeCount(a, b) == PrimeCount(a, m) + PrimeCount(m + 1, b)
    decreases b - m
  {
    if m < b {
      PrimeCountSplit(a, m, b - 1);
    }
  }

  /** count_primes: the number of primes in [a, b], inclusive; 0 when a > b. */
  method CountPrimes(a: int, b: int) returns (sum: int)
    ensures sum == PrimeCount(a, b)
    ensures 0 <= sum && (a > b ==> sum == 0) && (a <= b ==> sum <= b - a + 1)
  {
    sum := 0;
    var i := a;
    while i <= b
      invariant a <= i <= if a <= b then b + 1 else a
      invariant sum == PrimeCount(a, i - 1)
    {
      var p := IsPrime(i);
      if p {
        sum := sum + 1;
      }
      i := i + 1;
    }
  }
}
