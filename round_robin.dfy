/**
 * The round-robin rule shared by the MPI programs of HW4 and HW5: rank r of
 * P takes the indices r, r + P, r + 2P, ...  Both rely on division with
 * remainder being unique.
 */
module RoundRobin {

  /**
   * t == r + n * p with 0 <= r < p pins r and n down as t's remainder and
   * quotient.
   */
  lemma UniqueDivision(t: int, p: int, r: int, n: int)
    ensures p >= 1 && 0 <= r < p && t == r + n * p ==> r == t % p && n == t / p
  {
    if p >= 1 && 0 <= r < p && t == r + n * p {
      var q, s := t / p, t % p;
      assert t == q * p + s;
      var k: int := n - q;
      assert k * p == s - r;
      assert k >= 1 ==> k * p >= p;
      assert k <= -1 ==> k * p <= -p;
    }
  }

  /** Two indices less than p apart that one rank takes are the same index. */
  lemma SameResidue(k: int, l: int, p: int)
    requires p >= 1 && 0 <= k <= l < k + p && k % p == l % p
    ensures k == l
  {
    var q, r := k / p, k % p;
    var d := l - k;
    UniqueDivision(l, p, r + d, q);
    UniqueDivision(l, p, r + d - p, q + 1);
  }

  /** Rank t % p takes index t only once t is at least the rank. */
  lemma ModBelow(t: int, p: int)
    requires p >= 1 && 0 <= t
    ensures t % p <= t
  {
    var q, r := t / p, t % p;
    assert t == q * p + r;
    assert q <= -1 ==> q * p <= -p;
    assert q >= 0 ==> q * p >= 0;
  }

  /** A rank's next index has the same remainder as the current one. */
  lemma AddModulus(k: int, p: int)
    requires p >= 1
    ensures (k + p) % p == k % p
  {
    UniqueDivision(k, p, k % p, k / p);
    UniqueDivision(k + p, p, k % p, k / p + 1);
  }
}
