/**
 * The agglomeration loop of HW4/phylogeny_tree_parallel.cc, with the MPI
 * ranks run one after another.  Each round enumerates the pairs i < j of
 * the current genomes, deals the pair indices round-robin to P ranks, lets
 * every rank keep the first of its pairs with the longest LCS, reduces the
 * ranks' (length, rank) pairs with MPI_MAXLOC, and replaces the winning two
 * genomes and labels by their LCS and "(a,b)".  The loop ends with one
 * genome, which is a subsequence of every input genome, and one label.
 */
module Phylogeny {

  import opened Lcs
  import opened RoundRobin

  type Pair = (int, int)

  /** Strict lexicographic order on pairs. */
  predicate LexLess(p: Pair, q: Pair) {
    p.0 < q.0 || (p.0 == q.0 && p.1 < q.1)
  }

  /** The pairs pushed by the inner loop for row i: (i, i + 1), ..., (i, N - 1). */
  function Row(i: int, N: int): (r: seq<Pair>)
    requires 0 <= i < N
    ensures |r| == N - i - 1
    ensures forall d :: 0 <= d < |r| ==> r[d] == (i, i + 1 + d)
  {
    seq(N - i - 1, d requires 0 <= d < N - i - 1 => (i, i + 1 + d))
  }

  /** The pair list after the outer loop has done rows 0 .. i - 1. */
  ghost function PairsBefore(i: nat, N: nat): seq<Pair>
    requires i <= N
  {
    if i == 0 then [] else PairsBefore(i - 1, N) + Row(i - 1, N)
  }

  /** Twice the number of pairs after rows 0 .. i - 1 is i * (2N - i - 1). */
  lemma {:induction false} PairsBeforeLength(i: nat, N: nat)
    requires i <= N
    ensures 2 * |PairsBefore(i, N)| == i * (2 * N - i - 1)
  {
    if i > 0 {
      PairsBeforeLength(i - 1, N);
      assert 2 * |PairsBefore(i, N)| == (i - 1) * (2 * N - i) + 2 * (N - i);
    }
  }

  /** Every pair after rows 0 .. i - 1 is (a, b) with a < i and a < b < N. */
  lemma {:induction false} PairsBeforeInRange(i: nat, N: nat)
    requires i <= N
    ensures forall k :: 0 <= k < |PairsBefore(i, N)| ==>
              0 <= PairsBefore(i, N)[k].0 < i && PairsBefore(i, N)[k].0 < PairsBefore(i, N)[k].1 < N
  {
    if i > 0 {
      PairsBeforeInRange(i - 1, N);
      var t := PairsBefore(i - 1, N);
      var s := PairsBefore(i, N);
      assert s == t + Row(i - 1, N);
      forall k | 0 <= k < |s|
        ensures 0 <= s[k].0 < i && s[k].0 < s[k].1 < N
      {
        if k < |t| {
          assert s[k] == t[k];
        }
      }
    }
  }

  /** Every pair a < b < N with a < i is in the list after rows 0 .. i - 1. */
  lemma {:induction false} PairsBeforeComplete(i: nat, N: nat)
    requires i <= N
    ensures forall a, b :: 0 <= a < i && a < b < N ==> (a, b) in PairsBefore(i, N)
  {
    if i > 0 {
      PairsBeforeComplete(i - 1, N);
      var t := PairsBefore(i - 1, N);
      var s := PairsBefore(i, N);
      assert s == t + Row(i - 1, N);
      forall a, b | 0 <= a < i && a < b < N
        ensures (a, b) in s
      {
        if a == i - 1 {
          assert s[|t| + (b - i)] == (a, b);
        } else {
          assert (a, b) in t;
        }
      }
    }
  }

  /** The list after rows 0 .. i - 1 is strictly increasing in lexicographic order. */
  lemma {:induction false} PairsBeforeSorted(i: nat, N: nat)
    requires i <= N
    ensures forall k, l :: 0 <= k < l < |PairsBefore(i, N)| ==> LexLess(PairsBefore(i, N)[k], PairsBefore(i, N)[l])
  {
    if i > 0 {
      PairsBeforeSorted(i - 1, N);
      PairsBeforeInRange(i - 1, N);
      var t := PairsBefore(i - 1, N);
      var r := Row(i - 1, N);
      var s := PairsBefore(i, N);
      assert s == t + r;
      forall k, l | 0 <= k < l < |s|
        ensures LexLess(s[k], s[l])
      {
        if l >= |t| && k < |t| {
          assert s[k] == t[k] && s[l] == r[l - |t|];
        } else if k < |t| {
          assert s[k] == t[k] && s[l] == t[l];
        }
      }
    }
  }

  /**
   * The nested loops that flatten the pair iteration: all pairs (i, j) with
   * 0 <= i < j < N, each once, in lexicographic order, N(N-1)/2 of them.
   */
  method Pairs(N: nat) returns (pairs: seq<Pair>)
    ensures |pairs| == N * (N - 1) / 2
    ensures forall k :: 0 <= k < |pairs| ==> 0 <= pairs[k].0 < pairs[k].1 < N
    ensures forall a, b :: 0 <= a < b < N ==> (a, b) in pairs
    ensures forall k, l :: 0 <= k < l < |pairs| ==> LexLess(pairs[k], pairs[l])
    ensures pairs == PairsBefore(N, N)
  {
    pairs := [];
    var i := 0;
    while i < N
      invariant 0 <= i <= N
      invariant pairs == PairsBefore(i, N)
    {
      var j := i + 1;
      while j < N
        invariant i + 1 <= j <= N
        invariant pairs == PairsBefore(i, N) + Row(i, N)[..j - i - 1]
      {
        pairs := pairs + [(i, j)];
        j := j + 1;
      }
      assert Row(i, N)[..N - i - 1] == Row(i, N);
      i := i + 1;
    }
    PairsBeforeLength(N, N);
    PairsBeforeInRange(N, N);
    PairsBeforeComplete(N, N);
    PairsBeforeSorted(N, N);
  }

  /** Rank `rank` of P handles index k of a list of length count. */
  predicate Handled(k: int, rank: int, P: nat, count: int)
    requires P >= 1
  {
    0 <= k < count && k % P == rank
  }

  /**
   * The round-robin deal: index k of count is handled by rank k mod P and
   * by no other rank, so the ranks' index sets are disjoint and cover all
   * indices.
   */
  lemma StridePartition(k: int, count: int, P: nat, r: int)
    requires P >= 1 && 0 <= k < count && 0 <= r < P
    ensures 0 <= k % P < P && Handled(k, k % P, P, count)
    ensures Handled(k, r, P, count) <==> r == k % P
  {
  }

  /** The pairs index genomes and put the smaller index first. */
  predicate ValidPairs(pairs: seq<Pair>, N: int) {
    forall k :: 0 <= k < |pairs| ==> 0 <= pairs[k].0 < pairs[k].1 < N
  }

  /** The LCS length of the two genomes a pair names. */
  ghost function PairLen(genomes: seq<string>, p: Pair): nat
    requires 0 <= p.0 < |genomes| && 0 <= p.1 < |genomes|
  {
    LcsLen(genomes[p.0], genomes[p.1], |genomes[p.0]|, |genomes[p.1]|)
  }

  /**
   * Among the indices of rank `rank` below count (and below |pairs|), k is
   * the local best: no index has a longer LCS, and every earlier index a
   * strictly shorter one.
   */
  ghost predicate IsLocalBest(genomes: seq<string>, pairs: seq<Pair>, rank: nat, P: nat, count: int, k: int)
    requires P >= 1 && ValidPairs(pairs, |genomes|)
  {
    var bound := if count < |pairs| then count else |pairs|;
    Handled(k, rank, P, bound) &&
    forall l :: Handled(l, rank, P, bound) ==>
      PairLen(genomes, pairs[l]) <= PairLen(genomes, pairs[k]) &&
      (l < k ==> PairLen(genomes, pairs[l]) < PairLen(genomes, pairs[k]))
  }

  /** A rank has at most one local best. */
  lemma LocalBestUnique(genomes: seq<string>, pairs: seq<Pair>, rank: nat, P: nat, count: int, k: int, l: int)
    requires P >= 1 && ValidPairs(pairs, |genomes|)
    requires IsLocalBest(genomes, pairs, rank, P, count, k) && IsLocalBest(genomes, pairs, rank, P, count, l)
    ensures k == l
  {
    var bound := if count < |pairs| then count else |pairs|;
    assert Handled(k, rank, P, bound) && Handled(l, rank, P, bound);
    assert PairLen(genomes, pairs[l]) <= PairLen(genomes, pairs[k]);
    assert PairLen(genomes, pairs[k]) <= PairLen(genomes, pairs[l]);
  }

  /**
   * One step of the strided loop: after visiting index k, the best is k if
   * k is the rank's first index or strictly longer than the best so far,
   * and otherwise stays; it is then the local best below k + P.
   */
  lemma LocalBestStep(genomes: seq<string>, pairs: seq<Pair>, rank: nat, P: nat, k: int, bestK: int, newBestK: int)
    requires P >= 1 && rank < P && ValidPairs(pairs, |genomes|)
    requires Handled(k, rank, P, |pairs|)
    requires k == rank || IsLocalBest(genomes, pairs, rank, P, k, bestK)
    requires newBestK == if k == rank || PairLen(genomes, pairs[k]) > PairLen(genomes, pairs[bestK]) then k else bestK
    ensures IsLocalBest(genomes, pairs, rank, P, k + P, newBestK)
  {
    var next := k + P;
    var bound := if next < |pairs| then next else |pairs|;
    var best := PairLen(genomes, pairs[newBestK]);
    assert Handled(newBestK, rank, P, bound);
    forall l | Handled(l, rank, P, bound)
      ensures PairLen(genomes, pairs[l]) <= best
      ensures l < newBestK ==> PairLen(genomes, pairs[l]) < best
    {
      if l >= k {
        SameResidue(k, l, P);
      } else {
        assert rank <= l by {
          ModBelow(l, P);
        }
        assert Handled(l, rank, P, k);
      }
    }
  }

  /**
   * The rank's best so far: pair k is the local best below count, it names
   * genomes maxI and maxJ, and best is their LCS.
   */
  ghost predicate BestSoFar(genomes: seq<string>, pairs: seq<Pair>, rank: nat, P: nat, count: int, k: int,
                            maxI: int, maxJ: int, best: string)
    requires P >= 1 && ValidPairs(pairs, |genomes|)
  {
    IsLocalBest(genomes, pairs, rank, P, count, k) &&
    pairs[k] == (maxI, maxJ) && |best| == PairLen(genomes, pairs[k]) &&
    Subsequence(best, genomes[maxI]) && Subsequence(best, genomes[maxJ]) &&
    best == LcsString(genomes[maxI], genomes[maxJ])
  }

  /**
   * The strided loop of one rank: visit k = rank, rank + P, ... below the
   * number of pairs, compute each pair's LCS, take the first as the best and
   * replace it only by a strictly longer one.  A rank with no pair keeps the
   * empty best.
   */
  method LocalBest(genomes: seq<string>, pairs: seq<Pair>, rank: nat, P: nat)
    returns (found: bool, maxI: int, maxJ: int, best: string)
    requires P >= 1 && rank < P && ValidPairs(pairs, |genomes|)
    ensures found <==> rank < |pairs|
    ensures !found ==> best == ""
    ensures found ==> exists k :: IsLocalBest(genomes, pairs, rank, P, |pairs|, k) && pairs[k] == (maxI, maxJ) &&
                                  |best| == PairLen(genomes, pairs[k])
    ensures found ==> 0 <= maxI < maxJ < |genomes| &&
                      Subsequence(best, genomes[maxI]) && Subsequence(best, genomes[maxJ]) &&
                      best == LcsString(genomes[maxI], genomes[maxJ])
  {
    var start := true;
    maxI, maxJ, best := 0, 0, "";
    ghost var bestK := -1;
    var k := rank;
    while k < |pairs|
      invariant rank <= k && k % P == rank
      invariant start <==> k == rank
      invariant k > rank ==> rank < |pairs|
      invariant start ==> best == ""
      invariant !start ==> BestSoFar(genomes, pairs, rank, P, k, bestK, maxI, maxJ, best)
      decreases |pairs| - k
    {
      var i := pairs[k].0;
      var j := pairs[k].1;
      var z := ComputeLcs(genomes[i], genomes[j]);
      ghost var newBestK := if k == rank || PairLen(genomes, pairs[k]) > PairLen(genomes, pairs[bestK]) then k else bestK;
      LocalBestStep(genomes, pairs, rank, P, k, bestK, newBestK);
      if start {
        start := false;
        maxI, maxJ, best := i, j, z;
      } else if |z| > |best| {
        maxI, maxJ, best := i, j, z;
      }
      bestK := newBestK;
      AddModulus(k, P);
      k := k + P;
    }
    found := !start;
    if found {
      assert BestSoFar(genomes, pairs, rank, P, k, bestK, maxI, maxJ, best);
      assert IsLocalBest(genomes, pairs, rank, P, |pairs|, bestK);
    }
  }

  /**
   * Pair l wins over pair k in a round: its LCS is longer, or as long and
   * held by a lower rank (MAXLOC keeps the lower index on a tie), or by the
   * same rank at an earlier index (the strided loop replaces its best only
   * by a strictly longer one).
   */
  ghost predicate Outranks(genomes: seq<string>, pairs: seq<Pair>, P: nat, l: int, k: int)
    requires P >= 1 && ValidPairs(pairs, |genomes|) && 0 <= l < |pairs| && 0 <= k < |pairs|
  {
    var a, b := PairLen(genomes, pairs[l]), PairLen(genomes, pairs[k]);
    a > b || (a == b && (l % P < k % P || (l % P == k % P && l < k)))
  }

  /** Pair k is the one a round merges: no pair outranks it. */
  ghost predicate IsChosen(genomes: seq<string>, pairs: seq<Pair>, P: nat, k: int)
    requires P >= 1 && ValidPairs(pairs, |genomes|)
  {
    0 <= k < |pairs| && forall l :: 0 <= l < |pairs| ==> !Outranks(genomes, pairs, P, l, k)
  }

  /** The index among the first n pairs that none of them outranks. */
  ghost function ArgChosen(genomes: seq<string>, pairs: seq<Pair>, P: nat, n: int): (k: int)
    requires P >= 1 && ValidPairs(pairs, |genomes|) && 1 <= n <= |pairs|
    ensures 0 <= k < n
  {
    if n == 1 then 0
    else
      var k := ArgChosen(genomes, pairs, P, n - 1);
      if Outranks(genomes, pairs, P, n - 1, k) then n - 1 else k
  }

  /** No pair among the first n outranks ArgChosen(n). */
  lemma {:induction false} ArgChosenIsBest(genomes: seq<string>, pairs: seq<Pair>, P: nat, n: int)
    requires P >= 1 && ValidPairs(pairs, |genomes|) && 1 <= n <= |pairs|
    ensures forall l :: 0 <= l < n ==> !Outranks(genomes, pairs, P, l, ArgChosen(genomes, pairs, P, n))
  {
    if n > 1 {
      ArgChosenIsBest(genomes, pairs, P, n - 1);
      var k := ArgChosen(genomes, pairs, P, n - 1);
      var last := n - 1;
      if Outranks(genomes, pairs, P, last, k) {
        forall l | 0 <= l < n
          ensures !Outranks(genomes, pairs, P, l, last)
        {
          if l < n - 1 {
            assert !Outranks(genomes, pairs, P, l, k);
          }
        }
      }
    }
  }

  /** At most one pair is chosen: distinct indices never tie. */
  lemma ChosenUnique(genomes: seq<string>, pairs: seq<Pair>, P: nat, k: int, l: int)
    requires P >= 1 && ValidPairs(pairs, |genomes|)
    requires IsChosen(genomes, pairs, P, k) && IsChosen(genomes, pairs, P, l)
    ensures k == l
  {
    assert !Outranks(genomes, pairs, P, l, k) && !Outranks(genomes, pairs, P, k, l);
  }

  /** The index of the pair a round over these genomes merges. */
  ghost function ChosenIndex(genomes: seq<string>, P: nat): (k: int)
    requires |genomes| >= 2 && P >= 1
    ensures ValidPairs(PairsBefore(|genomes|, |genomes|), |genomes|)
    ensures 0 <= k < |PairsBefore(|genomes|, |genomes|)|
  {
    var N := |genomes|;
    PairsBeforeLength(N, N);
    PairsBeforeInRange(N, N);
    assert N * (N - 1) >= N * 1;
    ArgChosen(genomes, PairsBefore(N, N), P, |PairsBefore(N, N)|)
  }

  /** The pair a round over these genomes with P ranks merges. */
  ghost function ChosenPair(genomes: seq<string>, P: nat): (p: Pair)
    requires |genomes| >= 2 && P >= 1
    ensures 0 <= p.0 < p.1 < |genomes|
  {
    PairsBefore(|genomes|, |genomes|)[ChosenIndex(genomes, P)]
  }

  /**
   * The chosen pair has an LCS at least as long as every pair's, and among
   * the pairs that tie with it, it has the lowest rank and, within that
   * rank, the lowest index.
   */
  lemma ChosenIndexIsChosen(genomes: seq<string>, P: nat)
    requires |genomes| >= 2 && P >= 1
    ensures ValidPairs(PairsBefore(|genomes|, |genomes|), |genomes|)
    ensures IsChosen(genomes, PairsBefore(|genomes|, |genomes|), P, ChosenIndex(genomes, P))
  {
    var pairs := PairsBefore(|genomes|, |genomes|);
    var k := ChosenIndex(genomes, P);
    ArgChosenIsBest(genomes, pairs, P, |pairs|);
  }
  /** One rank's contribution to MPI_Allreduce with MPI_2INT. */
  datatype SizeIndex = SizeIndex(size: int, index: int)

  /** MPI_MAXLOC: the larger size, and on equal sizes the smaller index. */
  function MaxLoc(a: SizeIndex, b: SizeIndex): SizeIndex {
    if a.size > b.size then a
    else if b.size > a.size then b
    else SizeIndex(a.size, if a.index <= b.index then a.index else b.index)
  }

  /** MAXLOC may combine the ranks in any order: it is commutative and associative. */
  lemma MaxLocCommutesAndAssociates(a: SizeIndex, b: SizeIndex, c: SizeIndex)
    ensures MaxLoc(a, b) == MaxLoc(b, a)
    ensures MaxLoc(MaxLoc(a, b), c) == MaxLoc(a, MaxLoc(b, c))
  {
  }

  /** The reduction of the ranks' values, combined from the left. */
  function Reduce(locals: seq<SizeIndex>): SizeIndex
    requires |locals| >= 1
  {
    if |locals| == 1 then locals[0]
    else MaxLoc(Reduce(locals[..|locals| - 1]), locals[|locals| - 1])
  }

  /**
   * When entry r carries index r, the reduction names the lowest rank whose
   * size is the maximum, and carries that maximum.
   */
  lemma {:induction false} ReduceFindsWinner(locals: seq<SizeIndex>)
    requires |locals| >= 1
    requires forall r :: 0 <= r < |locals| ==> locals[r].index == r
    ensures 0 <= Reduce(locals).index < |locals|
    ensures locals[Reduce(locals).index].size == Reduce(locals).size
    ensures forall r :: 0 <= r < |locals| ==> locals[r].size <= Reduce(locals).size
    ensures forall r :: 0 <= r < Reduce(locals).index ==> locals[r].size < Reduce(locals).size
  {
    if |locals| > 1 {
      var front := locals[..|locals| - 1];
      ReduceFindsWinner(front);
      assert Reduce(locals) == MaxLoc(Reduce(front), locals[|locals| - 1]);
    }
  }

  /** What one rank holds after its strided loop. */
  datatype LocalResult = LocalResult(found: bool, maxI: int, maxJ: int, best: string)

  /** The (length, rank) pairs the ranks hand to the reduction. */
  function Locals(results: seq<LocalResult>): (locals: seq<SizeIndex>)
    ensures |locals| == |results|
    ensures forall r :: 0 <= r < |results| ==> locals[r] == SizeIndex(|results[r].best|, r)
  {
    seq(|results|, r requires 0 <= r < |results| => SizeIndex(|results[r].best|, r))
  }

  /**
   * What LocalBest promises about rank `rank`'s result, with k the index of
   * its local best pair.
   */
  ghost predicate GoodLocal(genomes: seq<string>, pairs: seq<Pair>, P: nat, rank: nat, res: LocalResult, k: int)
    requires P >= 1 && ValidPairs(pairs, |genomes|)
  {
    (res.found <==> rank < |pairs|) &&
    (!res.found ==> res.best == "") &&
    (res.found ==>
       0 <= k < |pairs| && IsLocalBest(genomes, pairs, rank, P, |pairs|, k) &&
       pairs[k] == (res.maxI, res.maxJ) && 0 <= res.maxI < res.maxJ < |genomes| &&
       |res.best| == PairLen(genomes, pairs[k]) &&
       res.best == LcsString(genomes[res.maxI], genomes[res.maxJ]) &&
       Subsequence(res.best, genomes[res.maxI]) && Subsequence(res.best, genomes[res.maxJ])) &&
    forall l :: Handled(l, rank, P, |pairs|) ==> PairLen(genomes, pairs[l]) <= |res.best|
  }

  /** What LocalBest ensures about its result makes it a good local result, with a pick index. */
  lemma LocalBestIsGood(genomes: seq<string>, pairs: seq<Pair>, P: nat, rank: nat, res: LocalResult)
    returns (k: int)
    requires P >= 1 && rank < P && ValidPairs(pairs, |genomes|)
    requires res.found <==> rank < |pairs|
    requires !res.found ==> res.best == ""
    requires res.found ==> exists k :: IsLocalBest(genomes, pairs, rank, P, |pairs|, k) &&
                                       pairs[k] == (res.maxI, res.maxJ) && |res.best| == PairLen(genomes, pairs[k])
    requires res.found ==> 0 <= res.maxI < res.maxJ < |genomes| &&
                           Subsequence(res.best, genomes[res.maxI]) && Subsequence(res.best, genomes[res.maxJ]) &&
                           res.best == LcsString(genomes[res.maxI], genomes[res.maxJ])
    ensures GoodLocal(genomes, pairs, P, rank, res, k)
  {
    k := 0;
    if res.found {
      k :| IsLocalBest(genomes, pairs, rank, P, |pairs|, k) && pairs[k] == (res.maxI, res.maxJ) &&
           |res.best| == PairLen(genomes, pairs[k]);
    } else {
      forall l | 0 <= l < |pairs|
        ensures !Handled(l, rank, P, |pairs|)
      {
        assert l % P <= l;
      }
    }
  }

  /**
   * The rank the reduction picks has a pair of its own (rank 0 holds pair
   * 0, so an all-empty round still goes to a rank with a pair), its string
   * is at least as long as every pair's LCS, and its local best is the
   * chosen pair: no pair outranks it.
   */
  lemma WinnerIsGlobalBest(genomes: seq<string>, pairs: seq<Pair>, P: nat, results: seq<LocalResult>, picks: seq<int>)
    requires P >= 1 && ValidPairs(pairs, |genomes|) && |pairs| >= 1 && |results| == P && |picks| == P
    requires forall r :: 0 <= r < P ==> GoodLocal(genomes, pairs, P, r, results[r], picks[r])
    ensures var winner := Reduce(Locals(results)).index;
            0 <= winner < P && results[winner].found &&
            (forall k :: 0 <= k < |pairs| ==> PairLen(genomes, pairs[k]) <= |results[winner].best|) &&
            IsChosen(genomes, pairs, P, picks[winner]) &&
            pairs[picks[winner]] == (results[winner].maxI, results[winner].maxJ)
  {
    var locals := Locals(results);
    ReduceFindsWinner(locals);
    var winner := Reduce(locals).index;
    assert locals[0].size >= 0;
    forall k | 0 <= k < |pairs|
      ensures PairLen(genomes, pairs[k]) <= |results[winner].best|
    {
      StridePartition(k, |pairs|, P, k % P);
      assert PairLen(genomes, pairs[k]) <= |results[k % P].best| == locals[k % P].size;
    }
    var w := picks[winner];
    forall l | 0 <= l < |pairs|
      ensures !Outranks(genomes, pairs, P, l, w)
    {
      var r := l % P;
      StridePartition(l, |pairs|, P, r);
      assert PairLen(genomes, pairs[l]) <= |results[r].best| == locals[r].size;
      if r == winner {
        assert Handled(l, winner, P, |pairs|);
      }
    }
  }

  /**
   * A found local result whose pick is the chosen index and whose string
   * is as long as every pair's LCS names the chosen pair and carries its
   * LCS.
   */
  lemma ChosenWinner(genomes: seq<string>, P: nat, pairs: seq<Pair>, rank: nat, w: LocalResult, pick: int)
    requires |genomes| >= 2 && P >= 1 && pairs == PairsBefore(|genomes|, |genomes|)
    requires ValidPairs(pairs, |genomes|) && w.found && GoodLocal(genomes, pairs, P, rank, w, pick)
    requires IsChosen(genomes, pairs, P, pick)
    requires forall k :: 0 <= k < |pairs| ==> PairLen(genomes, pairs[k]) <= |w.best|
    ensures 0 <= w.maxI < w.maxJ < |genomes|
    ensures (w.maxI, w.maxJ) == ChosenPair(genomes, P)
    ensures w.best == LcsString(genomes[w.maxI], genomes[w.maxJ])
    ensures |w.best| == PairLen(genomes, (w.maxI, w.maxJ))
    ensures Subsequence(w.best, genomes[w.maxI]) && Subsequence(w.best, genomes[w.maxJ])
    ensures forall i, j :: 0 <= i < j < |genomes| ==> PairLen(genomes, (i, j)) <= |w.best|
  {
    assert pick == ChosenIndex(genomes, P) by {
      ChosenIndexIsChosen(genomes, P);
      ChosenUnique(genomes, pairs, P, pick, ChosenIndex(genomes, P));
    }
    assert pairs[pick] == (w.maxI, w.maxJ) && |w.best| == PairLen(genomes, pairs[pick]);
    EveryPairBounded(genomes, pairs, |w.best|);
  }

  /** A bound on the LCS of every listed pair bounds every pair i < j. */
  lemma EveryPairBounded(genomes: seq<string>, pairs: seq<Pair>, bound: int)
    requires pairs == PairsBefore(|genomes|, |genomes|) && ValidPairs(pairs, |genomes|)
    requires forall k :: 0 <= k < |pairs| ==> PairLen(genomes, pairs[k]) <= bound
    ensures forall i, j :: 0 <= i < j < |genomes| ==> PairLen(genomes, (i, j)) <= bound
  {
    PairsBeforeComplete(|genomes|, |genomes|);
    forall i, j | 0 <= i < j < |genomes|
      ensures PairLen(genomes, (i, j)) <= bound
    {
      var k :| 0 <= k < |pairs| && pairs[k] == (i, j);
    }
  }

  /**
   * The winning rank's result names the chosen pair and carries its LCS,
   * which is at least as long as every pair's.
   */
  lemma WinnerIsChosenPair(genomes: seq<string>, P: nat, pairs: seq<Pair>, results: seq<LocalResult>, picks: seq<int>)
    requires |genomes| >= 2 && P >= 1 && pairs == PairsBefore(|genomes|, |genomes|)
    requires ValidPairs(pairs, |genomes|) && |results| == P && |picks| == P
    requires forall r :: 0 <= r < P ==> GoodLocal(genomes, pairs, P, r, results[r], picks[r])
    ensures var index := Reduce(Locals(results)).index;
            0 <= index < P &&
            var w := results[index];
            0 <= w.maxI < w.maxJ < |genomes| &&
            (w.maxI, w.maxJ) == ChosenPair(genomes, P) &&
            w.best == LcsString(genomes[w.maxI], genomes[w.maxJ]) &&
            |w.best| == PairLen(genomes, (w.maxI, w.maxJ)) &&
            Subsequence(w.best, genomes[w.maxI]) && Subsequence(w.best, genomes[w.maxJ]) &&
            forall i, j :: 0 <= i < j < |genomes| ==> PairLen(genomes, (i, j)) <= |w.best|
  {
    ChosenIndexIsChosen(genomes, P);
    WinnerIsGlobalBest(genomes, pairs, P, results, picks);
    var index := Reduce(Locals(results)).index;
    ChosenWinner(genomes, P, pairs, index, results[index], picks[index]);
  }

  /**
   * One round of the main loop: enumerate the pairs, let every rank find
   * its local best, reduce with MAXLOC and take the winning rank's pair and
   * string.  The pair is the chosen one, and the string is the LCS
   * compute_LCS returns for it, which is at least as long as every pair's.
   */
  method Round(genomes: seq<string>, P: nat) returns (globalMaxI: int, globalMaxJ: int, globalBest: string)
    requires |genomes| >= 2 && P >= 1
    ensures 0 <= globalMaxI < globalMaxJ < |genomes|
    ensures (globalMaxI, globalMaxJ) == ChosenPair(genomes, P)
    ensures globalBest == LcsString(genomes[globalMaxI], genomes[globalMaxJ])
    ensures |globalBest| == PairLen(genomes, (globalMaxI, globalMaxJ))
    ensures Subsequence(globalBest, genomes[globalMaxI]) && Subsequence(globalBest, genomes[globalMaxJ])
    ensures forall i, j :: 0 <= i < j < |genomes| ==> PairLen(genomes, (i, j)) <= |globalBest|
  {
    var pairs := Pairs(|genomes|);
    var results: seq<LocalResult> := [];
    ghost var picks: seq<int> := [];
    var rank := 0;
    while rank < P
      invariant 0 <= rank <= P && |results| == rank && |picks| == rank
      invariant forall r :: 0 <= r < rank ==> GoodLocal(genomes, pairs, P, r, results[r], picks[r])
    {
      var found, maxI, maxJ, best := LocalBest(genomes, pairs, rank, P);
      var res := LocalResult(found, maxI, maxJ, best);
      ghost var pick := LocalBestIsGood(genomes, pairs, P, rank, res);
      results := results + [res];
      picks := picks + [pick];
      rank := rank + 1;
    }
    var global := Reduce(Locals(results));
    WinnerIsChosenPair(genomes, P, pairs, results, picks);
    var winner := results[global.index];
    globalMaxI, globalMaxJ, globalBest := winner.maxI, winner.maxJ, winner.best;
  }

  /** vector::erase at position i: the later entries move down by one. */
  function Erase<T>(s: seq<T>, i: int): (r: seq<T>)
    requires 0 <= i < |s|
    ensures |r| == |s| - 1
    ensures forall k :: 0 <= k < |r| ==> r[k] == if k < i then s[k] else s[k + 1]
  {
    s[..i] + s[i + 1..]
  }

  /**
   * The merge step on one of the two vectors: erase i, then erase j - 1
   * (where the old entry j has moved), then push x.
   */
  function Merge<T>(s: seq<T>, i: int, j: int, x: T): seq<T>
    requires 0 <= i < j < |s|
  {
    Erase(Erase(s, i), j - 1) + [x]
  }

  /** Where entry k of s (k not i or j) ends up after Merge(s, i, j, x). */
  function Shifted(k: int, i: int, j: int): int {
    if k < i then k else if k < j then k - 1 else k - 2
  }

  /** Which entry of s ends up at index m < |s| - 2 after Merge(s, i, j, x). */
  function Unshifted(m: int, i: int, j: int): int {
    if m < i then m else if m < j - 1 then m + 1 else m + 2
  }

  /**
   * The merge keeps the entries other than i and j in their order, followed
   * by x.
   */
  lemma MergeIsConcatenation<T>(s: seq<T>, i: int, j: int, x: T)
    requires 0 <= i < j < |s|
    ensures Merge(s, i, j, x) == s[..i] + s[i + 1..j] + s[j + 1..] + [x]
  {
    var once := Erase(s, i);
    assert once == s[..i] + s[i + 1..];
    assert Erase(once, j - 1) == once[..j - 1] + once[j..];
    assert once[..j - 1] == s[..i] + s[i + 1..j];
    assert once[j..] == s[j + 1..];
  }

  /**
   * The index shift of the merge, for i < j: the result is one shorter and
   * ends in x, and entry m < |s| - 2 of it is entry Unshifted(m) of s, never
   * i or j.
   */
  lemma MergeShape<T>(s: seq<T>, i: int, j: int, x: T)
    requires 0 <= i < j < |s|
    ensures |Merge(s, i, j, x)| == |s| - 1 && Merge(s, i, j, x)[|s| - 2] == x
    ensures forall m :: 0 <= m < |s| - 2 ==>
              0 <= Unshifted(m, i, j) < |s| && Unshifted(m, i, j) != i && Unshifted(m, i, j) != j &&
              Merge(s, i, j, x)[m] == s[Unshifted(m, i, j)]
  {
  }

  /** The inverse view: every entry k other than i and j lands at Shifted(k). */
  lemma MergeShifted<T>(s: seq<T>, i: int, j: int, x: T)
    requires 0 <= i < j < |s|
    ensures forall k :: 0 <= k < |s| && k != i && k != j ==>
              0 <= Shifted(k, i, j) < |s| - 2 && Merge(s, i, j, x)[Shifted(k, i, j)] == s[k]
  {
    var once := Erase(s, i);
    forall k | 0 <= k < |s| && k != i && k != j
      ensures 0 <= Shifted(k, i, j) < |s| - 2 && Merge(s, i, j, x)[Shifted(k, i, j)] == s[k]
    {
      var m := if k < i then k else k - 1;
      assert once[m] == s[k];
      assert Erase(once, j - 1)[Shifted(k, i, j)] == once[m];
    }
  }

  /** Shifted keeps the order of the entries that stay. */
  lemma ShiftedKeepsOrder(k: int, l: int, i: int, j: int)
    requires i < j && k < l && k != i && k != j && l != i && l != j
    ensures Shifted(k, i, j) < Shifted(l, i, j)
  {
  }

  /** to_string on the unsigned leaf indices: decimal digits, most significant first. */
  function NatToString(n: nat): (s: string)
    ensures |s| >= 1 && forall k :: 0 <= k < |s| ==> '0' <= s[k] <= '9'
    decreases n
  {
    if n < 10 then [('0' as int + n) as char]
    else NatToString(n / 10) + [('0' as int + n % 10) as char]
  }

  /** The number a string of decimal digits denotes. */
  function DecimalValue(s: string): nat
    requires forall k :: 0 <= k < |s| ==> '0' <= s[k] <= '9'
  {
    if s == [] then 0
    else 10 * DecimalValue(s[..|s| - 1]) + (s[|s| - 1] as int - '0' as int)
  }

  /** Reading a leaf label back gives its index, so leaf labels are distinct. */
  lemma {:induction false} DecimalRoundTrip(n: nat)
    ensures DecimalValue(NatToString(n)) == n
    decreases n
  {
    if n >= 10 {
      var s := NatToString(n);
      assert s[..|s| - 1] == NatToString(n / 10);
      DecimalRoundTrip(n / 10);
    }
  }

  /** Different leaves get different labels. */
  lemma LeafLabelsDistinct(a: nat, b: nat)
    requires a != b
    ensures NatToString(a) != NatToString(b)
  {
    DecimalRoundTrip(a);
    DecimalRoundTrip(b);
  }

  /** The number of merges recorded in a list of labels: their '(' count. */
  function Opens(labels: seq<string>): nat {
    if labels == [] then 0
    else Opens(labels[..|labels| - 1]) + multiset(labels[|labels| - 1])['(']
  }

  lemma {:induction false} OpensAppend(a: seq<string>, b: seq<string>)
    ensures Opens(a + b) == Opens(a) + Opens(b)
    decreases |b|
  {
    if b != [] {
      assert (a + b)[..|a + b| - 1] == a + b[..|b| - 1];
      assert (a + b)[|a + b| - 1] == b[|b| - 1];
      OpensAppend(a, b[..|b| - 1]);
    } else {
      assert a + b == a;
    }
  }

  /** Appending one label adds its '(' count. */
  lemma OpensLast(labels: seq<string>, x: string)
    ensures Opens(labels + [x]) == Opens(labels) + multiset(x)['(']
  {
    assert (labels + [x])[..|labels|] == labels;
  }

  /** Erasing a label removes its '(' from the count. */
  lemma OpensErase(labels: seq<string>, i: int)
    requires 0 <= i < |labels|
    ensures Opens(Erase(labels, i)) + multiset(labels[i])['('] == Opens(labels)
  {
    var a, b := labels[..i], labels[i + 1..];
    SplitAround(labels, i);
    OpensAppend(a + [labels[i]], b);
    OpensAppend(a, b);
    OpensLast(a, labels[i]);
  }

  /** s is the part before i, entry i and the part after, and Erase drops the middle. */
  lemma SplitAround<T>(s: seq<T>, i: int)
    requires 0 <= i < |s|
    ensures s == (s[..i] + [s[i]]) + s[i + 1..]
    ensures Erase(s, i) == s[..i] + s[i + 1..]
  {
  }

  /** Erasing entries i and then j - 1 removes the '(' of labels i and j. */
  lemma OpensEraseTwo(labels: seq<string>, i: int, j: int)
    requires 0 <= i < j < |labels|
    ensures Opens(Erase(Erase(labels, i), j - 1)) + multiset(labels[i])['('] + multiset(labels[j])['(']
            == Opens(labels)
  {
    var once := Erase(labels, i);
    var open := multiset(labels[j])['('];
    assert Opens(Erase(once, j - 1)) + open == Opens(once) by {
      assert once[j - 1] == labels[j];
      OpensErase(once, j - 1);
    }
    OpensErase(labels, i);
  }

  /** Leaf labels record no merge. */
  lemma {:induction false} LeavesHaveNoOpens(labels: seq<string>)
    requires forall k :: 0 <= k < |labels| ==> labels[k] == NatToString(k)
    ensures Opens(labels) == 0
  {
    if labels != [] {
      var last := |labels| - 1;
      LeavesHaveNoOpens(labels[..last]);
      assert '(' !in labels[last];
    }
  }

  /**
   * Replacing labels i and j by "(" + label i + "," + label j + ")" adds one
   * merge to the count.
   */
  lemma OpensMerge(labels: seq<string>, i: int, j: int)
    requires 0 <= i < j < |labels|
    ensures Opens(Merge(labels, i, j, "(" + labels[i] + "," + labels[j] + ")")) == Opens(labels) + 1
  {
    var x := "(" + labels[i] + "," + labels[j] + ")";
    OpensEraseTwo(labels, i, j);
    OpensLast(Erase(Erase(labels, i), j - 1), x);
    NewLabelOpens(labels[i], labels[j]);
  }

  /** The label "(" + a + "," + b + ")" records one merge more than a and b. */
  lemma NewLabelOpens(a: string, b: string)
    ensures multiset("(" + a + "," + b + ")")['('] == 1 + multiset(a)['('] + multiset(b)['(']
  {
  }

  /**
   * Every input lies in exactly one cluster: cluster owner[m] holds input
   * m, and no other cluster does.
   */
  ghost predicate ClustersCover(input: seq<string>, clusters: seq<set<int>>, owner: seq<int>) {
    |owner| == |input| &&
    (forall m :: 0 <= m < |input| ==> 0 <= owner[m] < |clusters| && m in clusters[owner[m]]) &&
    (forall c, m {:trigger m in clusters[c]} ::
       0 <= c < |clusters| && m in clusters[c] ==> 0 <= m < |input| && owner[m] == c)
  }

  /** A member of cluster c is an input that c owns. */
  lemma OwnerOf(input: seq<string>, clusters: seq<set<int>>, owner: seq<int>, c: int, m: int)
    requires ClustersCover(input, clusters, owner) && 0 <= c < |clusters| && m in clusters[c]
    ensures 0 <= m < |input| && owner[m] == c
  {
  }

  /** Where each input's cluster sits after merging clusters i and j of n. */
  function MergeOwner(owner: seq<int>, i: int, j: int, n: int): seq<int> {
    seq(|owner|, m requires 0 <= m < |owner| =>
      if owner[m] == i || owner[m] == j then n - 2 else Shifted(owner[m], i, j))
  }

  /** A member of cluster c after the merge is an input whose new owner is c. */
  lemma MergedMemberOwned(input: seq<string>, clusters: seq<set<int>>, owner: seq<int>, i: int, j: int,
                          c: int, m: int)
    requires 0 <= i < j < |clusters| && ClustersCover(input, clusters, owner)
    requires 0 <= c < |clusters| - 1 && m in Merge(clusters, i, j, clusters[i] + clusters[j])[c]
    ensures 0 <= m < |input| && MergeOwner(owner, i, j, |clusters|)[m] == c
  {
    MergeShape(clusters, i, j, clusters[i] + clusters[j]);
    if c < |clusters| - 2 {
      var u := Unshifted(c, i, j);
      assert m in clusters[u] && u != i && u != j;
      OwnerOf(input, clusters, owner, u, m);
      assert Shifted(u, i, j) == c;
    } else {
      assert m in clusters[i] + clusters[j];
      if m in clusters[i] {
        OwnerOf(input, clusters, owner, i, m);
      } else {
        OwnerOf(input, clusters, owner, j, m);
      }
    }
  }

  /** Merging clusters i and j into their union leaves every input in exactly one cluster. */
  lemma MergeKeepsClustersCovering(input: seq<string>, clusters: seq<set<int>>, owner: seq<int>, i: int, j: int)
    requires 0 <= i < j < |clusters| && ClustersCover(input, clusters, owner)
    ensures ClustersCover(input, Merge(clusters, i, j, clusters[i] + clusters[j]),
                          MergeOwner(owner, i, j, |clusters|))
  {
    var merged := Merge(clusters, i, j, clusters[i] + clusters[j]);
    var newOwner := MergeOwner(owner, i, j, |clusters|);
    assert forall m :: 0 <= m < |input| ==> 0 <= newOwner[m] < |merged| && m in merged[newOwner[m]] by {
      MergeShape(clusters, i, j, clusters[i] + clusters[j]);
      MergeShifted(clusters, i, j, clusters[i] + clusters[j]);
    }
    forall c, m | 0 <= c < |merged| && m in merged[c]
      ensures 0 <= m < |input| && newOwner[m] == c
    {
      MergedMemberOwned(input, clusters, owner, i, j, c, m);
    }
  }

  /** Every genome is a subsequence of every input genome in its cluster. */
  ghost predicate ClustersSound(input: seq<string>, genomes: seq<string>, clusters: seq<set<int>>) {
    |genomes| == |clusters| &&
    forall k :: 0 <= k < |genomes| ==>
      forall m :: m in clusters[k] ==> 0 <= m < |input| && Subsequence(genomes[k], input[m])
  }

  /**
   * Merging genomes i and j into a common subsequence of both, and their
   * clusters into one, keeps every genome a subsequence of its cluster's
   * inputs.
   */
  lemma MergeKeepsClustersSound(input: seq<string>, genomes: seq<string>, clusters: seq<set<int>>,
                                i: int, j: int, best: string)
    requires 0 <= i < j < |genomes|
    requires ClustersSound(input, genomes, clusters)
    requires Subsequence(best, genomes[i]) && Subsequence(best, genomes[j])
    ensures ClustersSound(input, Merge(genomes, i, j, best), Merge(clusters, i, j, clusters[i] + clusters[j]))
  {
    var g, c := Merge(genomes, i, j, best), Merge(clusters, i, j, clusters[i] + clusters[j]);
    MergeShape(genomes, i, j, best);
    MergeShape(clusters, i, j, clusters[i] + clusters[j]);
    forall k | 0 <= k < |g|
      ensures forall m :: m in c[k] ==> 0 <= m < |input| && Subsequence(g[k], input[m])
    {
      if k == |g| - 1 {
        assert g[k] == best && c[k] == clusters[i] + clusters[j];
        forall m | m in c[k]
          ensures 0 <= m < |input| && Subsequence(g[k], input[m])
        {
          if m in clusters[i] {
            SubsequenceTransitive(best, genomes[i], input[m]);
          } else {
            SubsequenceTransitive(best, genomes[j], input[m]);
          }
        }
      } else {
        var u := Unshifted(k, i, j);
        assert g[k] == genomes[u] && c[k] == clusters[u];
      }
    }
  }

  /** The tree a label spells: a leaf's index, or two subtrees in brackets. */
  datatype LabelTree = Leaf(n: nat) | Node(left: LabelTree, right: LabelTree)

  /** to_string on a leaf, "(" + a + "," + b + ")" on a merge. */
  function Label(t: LabelTree): string {
    match t
    case Leaf(n) => NatToString(n)
    case Node(l, r) => "(" + Label(l) + "," + Label(r) + ")"
  }

  /** The leaves a tree holds. */
  function LeafSet(t: LabelTree): set<int> {
    match t
    case Leaf(n) => {n}
    case Node(l, r) => LeafSet(l) + LeafSet(r)
  }

  /** No leaf occurs twice in the tree. */
  ghost predicate EachLeafOnce(t: LabelTree) {
    match t
    case Leaf(_) => true
    case Node(l, r) => LeafSet(l) !! LeafSet(r) && EachLeafOnce(l) && EachLeafOnce(r)
  }

  /** The tree's leaves are the inputs 0 .. n - 1, each once. */
  ghost predicate SpansInputs(t: LabelTree, n: nat) {
    EachLeafOnce(t) && forall m :: m in LeafSet(t) <==> 0 <= m < n
  }

  /** Label k spells tree k, whose leaves are exactly cluster k, each once. */
  ghost predicate LabelsSpellTrees(genomeId: seq<string>, clusters: seq<set<int>>, trees: seq<LabelTree>) {
    |trees| == |genomeId| == |clusters| &&
    forall k :: 0 <= k < |trees| ==>
      genomeId[k] == Label(trees[k]) && LeafSet(trees[k]) == clusters[k] && EachLeafOnce(trees[k])
  }

  /**
   * Merging labels i and j into "(a,b)" and clusters i and j into their
   * union spells the merged tree of the two, whose leaves are disjoint
   * because every input lies in one cluster only.
   */
  lemma MergeKeepsLabelTrees(input: seq<string>, genomeId: seq<string>, clusters: seq<set<int>>,
                             owner: seq<int>, trees: seq<LabelTree>, i: int, j: int)
    requires LabelsSpellTrees(genomeId, clusters, trees) && ClustersCover(input, clusters, owner)
    requires 0 <= i < j < |trees|
    ensures LabelsSpellTrees(Merge(genomeId, i, j, "(" + genomeId[i] + "," + genomeId[j] + ")"),
                             Merge(clusters, i, j, clusters[i] + clusters[j]),
                             Merge(trees, i, j, Node(trees[i], trees[j])))
  {
    var node := Node(trees[i], trees[j]);
    assert LeafSet(trees[i]) !! LeafSet(trees[j]) by {
      forall m | m in clusters[i]
        ensures m !in clusters[j]
      {
        OwnerOf(input, clusters, owner, i, m);
      }
    }
    assert Label(node) == "(" + genomeId[i] + "," + genomeId[j] + ")";
    MergeShape(genomeId, i, j, Label(node));
    MergeShape(clusters, i, j, clusters[i] + clusters[j]);
    MergeShape(trees, i, j, node);
  }

  /**
   * What the main loop keeps: one label and one cluster per genome, every
   * genome a subsequence of its cluster's inputs, every input in exactly
   * one cluster, every label spelling a tree over its cluster, and one '('
   * in the labels for every genome merged away.
   */
  ghost predicate TreeInvariant(input: seq<string>, genomes: seq<string>, genomeId: seq<string>,
                                clusters: seq<set<int>>, owner: seq<int>, trees: seq<LabelTree>)
  {
    |genomeId| == |genomes| == |clusters| >= 1 &&
    ClustersSound(input, genomes, clusters) && ClustersCover(input, clusters, owner) &&
    LabelsSpellTrees(genomeId, clusters, trees) &&
    Opens(genomeId) + |genomes| == |input|
  }

  /** Every input in a cluster of its own. */
  function Singletons(n: nat): (c: seq<set<int>>)
    ensures |c| == n && forall m :: 0 <= m < n ==> c[m] == {m}
  {
    seq(n, m => {m})
  }

  /** Every input owned by its own cluster. */
  function Identity(n: nat): (o: seq<int>)
    ensures |o| == n && forall m :: 0 <= m < n ==> o[m] == m
  {
    seq(n, m => m)
  }

  /** One leaf per input. */
  function LeafTrees(n: nat): (t: seq<LabelTree>)
    ensures |t| == n && forall m :: 0 <= m < n ==> t[m] == Leaf(m)
  {
    seq(n, m requires 0 <= m => Leaf(m))
  }

  /** The labels "0", "1", ..., one per input. */
  function LeafLabels(n: nat): (s: seq<string>)
    ensures |s| == n && forall k :: 0 <= k < n ==> s[k] == NatToString(k)
  {
    seq(n, k requires 0 <= k => NatToString(k))
  }

  /** The leaf labels name the inputs apart: no two are equal. */
  lemma LeafLabelsUnique(n: nat)
    ensures forall a, b :: 0 <= a < b < n ==> LeafLabels(n)[a] != LeafLabels(n)[b]
  {
    forall a, b | 0 <= a < b < n
      ensures LeafLabels(n)[a] != LeafLabels(n)[b]
    {
      LeafLabelsDistinct(a, b);
    }
  }

  /** Before any merge, with one leaf label per genome, the invariant holds. */
  lemma LeavesTreeInvariant(input: seq<string>)
    requires |input| >= 1
    ensures TreeInvariant(input, input, LeafLabels(|input|), Singletons(|input|), Identity(|input|),
                          LeafTrees(|input|))
  {
    LeavesHaveNoOpens(LeafLabels(|input|));
    var clusters := Singletons(|input|);
    forall k | 0 <= k < |input|
      ensures forall m :: m in clusters[k] ==> 0 <= m < |input| && Subsequence(input[k], input[m])
    {
      var id := seq(|input[k]|, p => p);
      assert Embeds(id, input[k], input[k]);
    }
  }

  /**
   * With one genome left, it is a subsequence of every input, and its label
   * spells a tree holding every input once, with |input| - 1 merges.
   */
  lemma LastGenome(input: seq<string>, genomes: seq<string>, genomeId: seq<string>,
                   clusters: seq<set<int>>, owner: seq<int>, trees: seq<LabelTree>)
    requires TreeInvariant(input, genomes, genomeId, clusters, owner, trees) && |genomes| == 1
    ensures forall m :: 0 <= m < |input| ==> Subsequence(genomes[0], input[m])
    ensures genomeId[0] == Label(trees[0]) && SpansInputs(trees[0], |input|)
    ensures multiset(genomeId[0])['('] == |input| - 1
  {
    OpensOfOne(genomeId);
    LastCluster(input, genomes, clusters, owner);
    assert genomeId[0] == Label(trees[0]) && LeafSet(trees[0]) == clusters[0] && EachLeafOnce(trees[0]);
  }

  /** A single label's '(' count is all the opens. */
  lemma OpensOfOne(labels: seq<string>)
    requires |labels| == 1
    ensures Opens(labels) == multiset(labels[0])['(']
  {
    assert labels[..0] == [];
  }

  /** When one genome is left, its cluster holds every input, and it is a subsequence of each. */
  lemma LastCluster(input: seq<string>, genomes: seq<string>, clusters: seq<set<int>>, owner: seq<int>)
    requires ClustersSound(input, genomes, clusters) && ClustersCover(input, clusters, owner) && |genomes| == 1
    ensures forall m :: m in clusters[0] <==> 0 <= m < |input|
    ensures forall m :: 0 <= m < |input| ==> Subsequence(genomes[0], input[m])
  {
    forall m | 0 <= m < |input|
      ensures m in clusters[0] && Subsequence(genomes[0], input[m])
    {
      assert owner[m] == 0;
    }
    forall m | m in clusters[0]
      ensures 0 <= m < |input|
    {
      OwnerOf(input, clusters, owner, 0, m);
    }
  }

  /** One round's merge of genomes i and j into best keeps the loop's invariant. */
  lemma MergeKeepsTreeInvariant(input: seq<string>, genomes: seq<string>, genomeId: seq<string>,
                                clusters: seq<set<int>>, owner: seq<int>, trees: seq<LabelTree>,
                                i: int, j: int, best: string)
    requires TreeInvariant(input, genomes, genomeId, clusters, owner, trees)
    requires 0 <= i < j < |genomes|
    requires Subsequence(best, genomes[i]) && Subsequence(best, genomes[j])
    ensures TreeInvariant(input, Merge(genomes, i, j, best),
                          Merge(genomeId, i, j, "(" + genomeId[i] + "," + genomeId[j] + ")"),
                          Merge(clusters, i, j, clusters[i] + clusters[j]),
                          MergeOwner(owner, i, j, |clusters|),
                          Merge(trees, i, j, Node(trees[i], trees[j])))
  {
    MergeKeepsClustersSound(input, genomes, clusters, i, j, best);
    MergeKeepsClustersCovering(input, clusters, owner, i, j);
    MergeKeepsLabelTrees(input, genomeId, clusters, owner, trees, i, j);
    OpensMerge(genomeId, i, j);
  }

  /**
   * The whole agglomeration as a function of the genomes, their labels and
   * the number of ranks: while more than one genome is left, replace the
   * chosen pair by the LCS compute_LCS returns for it and their labels by
   * "(a,b)".  The result is the last genome and its label.
   */
  ghost function Agglomeration(genomes: seq<string>, labels: seq<string>, P: nat): (string, string)
    requires |genomes| >= 1 && |labels| == |genomes| && P >= 1
    decreases |genomes|
  {
    if |genomes| == 1 then (genomes[0], labels[0])
    else
      var p := ChosenPair(genomes, P);
      var i, j := p.0, p.1;
      Agglomeration(Merge(genomes, i, j, LcsString(genomes[i], genomes[j])),
                    Merge(labels, i, j, "(" + labels[i] + "," + labels[j] + ")"), P)
  }

  /** The agglomeration from these genomes and labels yields outcome. */
  ghost predicate AgglomeratesTo(genomes: seq<string>, labels: seq<string>, P: nat, outcome: (string, string)) {
    |genomes| >= 1 && |labels| == |genomes| && P >= 1 && Agglomeration(genomes, labels, P) == outcome
  }

  /** Merging the chosen pair into its LCS is one step of the agglomeration. */
  lemma AgglomerationStep(genomes: seq<string>, labels: seq<string>, P: nat, outcome: (string, string),
                          i: int, j: int, best: string)
    requires AgglomeratesTo(genomes, labels, P, outcome) && |genomes| >= 2
    requires (i, j) == ChosenPair(genomes, P) && best == LcsString(genomes[i], genomes[j])
    ensures AgglomeratesTo(Erase(Erase(genomes, i), j - 1) + [best],
                           Erase(Erase(labels, i), j - 1) + ["(" + labels[i] + "," + labels[j] + ")"], P, outcome)
  {
  }

  /**
   * From any state of the loop, the agglomeration ends with a genome that
   * is a subsequence of every input and a label spelling a tree that holds
   * every input once, with |input| - 1 merges.
   */
  lemma {:induction false} AgglomerationKeepsTreeInvariant(input: seq<string>, genomes: seq<string>,
                                                           genomeId: seq<string>, clusters: seq<set<int>>,
                                                           owner: seq<int>, trees: seq<LabelTree>, P: nat)
    requires P >= 1 && TreeInvariant(input, genomes, genomeId, clusters, owner, trees)
    ensures var result := Agglomeration(genomes, genomeId, P);
            (forall m :: 0 <= m < |input| ==> Subsequence(result.0, input[m])) &&
            multiset(result.1)['('] == |input| - 1 &&
            exists t :: result.1 == Label(t) && SpansInputs(t, |input|)
    decreases |genomes|
  {
    if |genomes| == 1 {
      LastGenome(input, genomes, genomeId, clusters, owner, trees);
      assert genomeId[0] == Label(trees[0]);
    } else {
      var p := ChosenPair(genomes, P);
      var i, j := p.0, p.1;
      var best := LcsString(genomes[i], genomes[j]);
      LcsTraceIsCommon(genomes[i], genomes[j], |genomes[i]|, |genomes[j]|);
      assert genomes[i][..|genomes[i]|] == genomes[i] && genomes[j][..|genomes[j]|] == genomes[j];
      MergeKeepsTreeInvariant(input, genomes, genomeId, clusters, owner, trees, i, j, best);
      AgglomerationKeepsTreeInvariant(input, Merge(genomes, i, j, best),
                                      Merge(genomeId, i, j, "(" + genomeId[i] + "," + genomeId[j] + ")"),
                                      Merge(clusters, i, j, clusters[i] + clusters[j]),
                                      MergeOwner(owner, i, j, |clusters|),
                                      Merge(trees, i, j, Node(trees[i], trees[j])), P);
    }
  }

  /**
   * Started from the input genomes and their leaf labels, the agglomeration
   * yields a root that is a subsequence of every input and a phylogeny
   * label spelling a tree over all inputs, each once, with |input| - 1
   * merges.
   */
  lemma AgglomerationOfLeaves(input: seq<string>, P: nat)
    requires |input| >= 1 && P >= 1
    ensures var result := Agglomeration(input, LeafLabels(|input|), P);
            (forall m :: 0 <= m < |input| ==> Subsequence(result.0, input[m])) &&
            multiset(result.1)['('] == |input| - 1 &&
            exists t :: result.1 == Label(t) && SpansInputs(t, |input|)
  {
    LeavesTreeInvariant(input);
    AgglomerationKeepsTreeInvariant(input, input, LeafLabels(|input|), Singletons(|input|),
                                    Identity(|input|), LeafTrees(|input|), P);
  }

  /**
   * The main loop: label the genomes "0", "1", ..., then merge the chosen
   * pair of each round until one genome is left.  The root and its label
   * are what the agglomeration yields: the root is a subsequence of every
   * input genome, and the label spells a tree over all inputs, each once,
   * with one "(" per merge.
   */
  method Agglomerate(input: seq<string>, P: nat) returns (root: string, rootLabel: string)
    requires |input| >= 1 && P >= 1
    ensures (root, rootLabel) == Agglomeration(input, LeafLabels(|input|), P)
    ensures forall m :: 0 <= m < |input| ==> Subsequence(root, input[m])
    ensures exists t :: rootLabel == Label(t) && SpansInputs(t, |input|)
    ensures multiset(rootLabel)['('] == |input| - 1
  {
    var genomes := input;
    var genomeId: seq<string> := [];
    var i := 0;
    while i < |genomes|
      invariant 0 <= i <= |genomes| && |genomeId| == i
      invariant forall k :: 0 <= k < i ==> genomeId[k] == NatToString(k)
    {
      genomeId := genomeId + [NatToString(i)];
      i := i + 1;
    }
    assert genomeId == LeafLabels(|input|);
    ghost var outcome := Agglomeration(input, genomeId, P);
    while |genomes| > 1
      invariant AgglomeratesTo(genomes, genomeId, P, outcome)
      decreases |genomes|
    {
      var globalMaxI, globalMaxJ, globalBest := Round(genomes, P);
      var newTreeLabel := "(" + genomeId[globalMaxI] + "," + genomeId[globalMaxJ] + ")";
      AgglomerationStep(genomes, genomeId, P, outcome, globalMaxI, globalMaxJ, globalBest);
      genomes := Erase(genomes, globalMaxI);
      genomes := Erase(genomes, globalMaxJ - 1);
      genomes := genomes + [globalBest];
      genomeId := Erase(genomeId, globalMaxI);
      genomeId := Erase(genomeId, globalMaxJ - 1);
      genomeId := genomeId + [newTreeLabel];
    }
    root := genomes[0];
    rootLabel := genomeId[0];
    assert (root, rootLabel) == Agglomeration(genomes, genomeId, P);
    AgglomerationOfLeaves(input, P);
  }
}
