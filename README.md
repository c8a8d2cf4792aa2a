# CS4000 parallel programming homeworks, modelled in Dafny

This project models the computational core of five CS4000 homeworks and
proves what each one computes.

- **HW4, phylogeny** (`phylogeny.dfy`, `lcs.dfy`): agglomerative
  construction of a phylogenetic tree from genome strings.
  - Every round enumerates all pairs `(i, j)` with `i < j` in
    lexicographic order.
  - The MPI ranks stride through the pairs round-robin. Each rank keeps the
    first pair whose longest common subsequence (LCS) is strictly longest.
  - An `MPI_Allreduce` with `MPI_MAXLOC` picks the winning rank.
  - The two genomes are erased and replaced by their LCS. Their labels are
    erased and replaced by the tree label `"(" + a + "," + b + ")"`.
  - The LCS comes from the dynamic-programming table of `compute_LCS`,
    traced back by `rec_string`.
  - `Is_subsequence` is the checker the source asserts with.
  - The whole run is also a ghost function, `Phylogeny.Agglomeration`:
    each round merges the pair `ChosenPair` determines (the longest LCS,
    then the lowest rank, then the first index within the rank) into the
    traceback `LcsString`. The method is proved to compute exactly that,
    and the root and label properties are proved about the function.
- **HW3-1 and HW3, Game of Life** (`game_of_life.dfy`,
  `parallel_game_of_life.dfy`): an n×n toroidal board whose cells are 0
  (dead), 1 (alive) or 2 (immortal).
  - Two buffers alternate by generation parity.
  - The parallel version splits the rows into four slices for four
    threads.
- **HW2, word search** (`word_search.dfy`): for every word, the
  row-major first cell where it starts along one of the eight directions,
  or `(-1, -1)`.
- **HW5, CS Coin miner** (`cs_miner.dfy`): `to_bits` / `to_cpp_int`
  (little-endian base 256), the big-endian fold of the SHA-256 digest, and
  the round-robin search for `t` with `t1 < sha256(t) < t2`.
- **HW1, primes** (`count_primes.dfy`): trial-division primality and the
  count of primes in `[a, b]`.
- **Shared arithmetic** (`round_robin.dfy`): the facts about `%` and `/`
  that the round-robin striding of HW4 and HW5 rests on.

How the parallelism is modelled:
- MPI ranks and threads run one after another.
- State that MPI replicates on every rank is modelled once.
- Each collective operation is modelled by what it delivers:
  `MPI_MAXLOC` is the function `Phylogeny.MaxLoc`, and a broadcast is the
  value itself.
- Grids the source updates in place (the Life buffers and the LCS table)
  are `array2<int>`.
- The rest is sequences.
- OpenSSL's `SHA256` is a function parameter `digest` that returns 32 bytes.

## Model

| member | source | states |
|---|---|---|
| CountPrimes.TrialDivisionDecidesPrimality | HW1/count_primes.cc:16-26 | for x >= 2, x is prime exactly when no t with t*t <= x divides it, so stopping the trial divisions at the square root is sound |
| CountPrimes.IsPrime | HW1/count_primes.cc:16-26 | `is_prime` returns true exactly when x is prime; x < 2 gives false |
| CountPrimes.PrimeCountIsCardinality | HW1/count_primes.cc:28-42 | the count of primes in [a, b] is the size of the set of primes in [a, b] |
| CountPrimes.PrimeCountSplit | HW1/count_primes.cc:37-40 | the count over [a, b] is the sum of the counts over [a, m] and [m+1, b], which is what makes the `reduction(+:sum)` split of the loop correct |
| CountPrimes.CountPrimes | HW1/count_primes.cc:30-42 | the result is the number of primes in [a, b], 0 when a > b and at most b - a + 1 |
| CsMiner.FromToBytes | HW5/cs_miner_openMPI.cc:38-64 | `to_cpp_int(to_bits(x)) == x` for every x |
| CsMiner.ToFromBytes | HW5/cs_miner_openMPI.cc:38-64 | `to_bits(to_cpp_int(c)) == c` for every byte vector without trailing zero bytes |
| CsMiner.FromBytesIgnoresTrailingZeros | HW5/cs_miner_openMPI.cc:56-64 | appending zero bytes does not change the value `to_cpp_int` reads |
| CsMiner.ToBytesLength | HW5/cs_miner_openMPI.cc:38-50 | x < 256^k has at most k bytes |
| CsMiner.PaddedTargetRoundTrip | HW5/cs_miner_openMPI.cc:105-117 | a target below 256^32, padded to 32 bytes, broadcast and read back, is the same target |
| CsMiner.FromBytesPrefix | HW5/cs_miner_openMPI.cc:107-108 | the first n bytes of a little-endian vector hold its value modulo 256^n |
| CsMiner.ResizeKeepsValueModulo | HW5/cs_miner_openMPI.cc:105-117 | `to_cpp_int` of `to_bits(x)` resized to n bytes is x modulo 256^n, whether the resize pads or truncates |
| CsMiner.PaddedTargetTruncates | HW5/cs_miner_openMPI.cc:105-117 | for every target, the value read back after `resize(32)` is the target modulo 256^32, so a target of 256^32 or more loses its high bytes |
| CsMiner.ToBits | HW5/cs_miner_openMPI.cc:38-50 | the loop yields the little-endian base-256 digits of x, and reading them back gives x |
| CsMiner.ToCppInt | HW5/cs_miner_openMPI.cc:56-64 | the backwards Horner loop yields the little-endian value of the bytes, below 256^size |
| CsMiner.BigEndianIsReversedLittleEndian | HW5/cs_miner_openMPI.cc:79-82 | the big-endian fold of a digest is the little-endian value of its reversal |
| CsMiner.DigestToInt | HW5/cs_miner_openMPI.cc:79-82 | the fold over the 32 digest bytes is their big-endian value, below 256^32 |
| CsMiner.Sha256 | HW5/cs_miner_openMPI.cc:73-85 | `sha256(x)` is the big-endian value of the digest of `to_bits(x)`, below 256^32 |
| CsMiner.CandidatesPartition | HW5/cs_miner_openMPI.cc:120-132 | every t is tried by rank t % P at step t / P and by no other rank or step, so the ranks never repeat each other's work and together miss nothing |
| CsMiner.Mine | HW5/cs_miner_openMPI.cc:120-139 | a rank that reports z has z % P == rank and t1 < sha256(z) < t2, and none of its earlier candidates hit; a rank that gives up has tried maxTries candidates and none of them hit |
| CircleTheWordSolver.CheckDirection | HW2/CircleTheWordSolver.h:50-69 | a direction block records a match exactly when the word has at least two letters and all of them after the first lie in bounds along that direction |
| CircleTheWordSolver.CheckCell | HW2/CircleTheWordSolver.h:40-209 | the cell is recorded exactly when the guard holds (the entry is still unset or its row is later) and the cell starts the word; otherwise the entry is unchanged |
| CircleTheWordSolver.WordLocations | HW2/CircleTheWordSolver.h:23-215 | every entry of the result is the row-major first start of its word in the whole puzzle, or (-1, -1) when there is none |
| CircleTheWordSolver.LocationMeaning | HW2/CircleTheWordSolver.h:29-31 | an entry is (-1, -1) exactly when no cell starts the word; otherwise it is an in-bounds cell holding the word's first letter |
| CircleTheWordSolver.FirstStartUnique | HW2/CircleTheWordSolver.h:34-40 | the answer for a word is unique, so it does not depend on how the rows are scheduled |
| GameOfLife.StepCellValues | HW3-1/GameOfLife.h:33-60 | a cell is immortal after a step exactly when it was before; any other cell becomes 0 or 1 |
| GameOfLife.IterateKeepsImmortals | HW3-1/GameOfLife.h:23-105 | after any number of generations a cell is 2 exactly when it was 2 at the start |
| GameOfLife.IterateValues | HW3-1/GameOfLife.h:23-105 | after at least one generation every cell is 0, 1 or 2 |
| GameOfLife.CountNeighbors | HW3-1/GameOfLife.h:35-50 | the double loop counts the occupied (1 or 2) cells among the eight toroidal neighbours |
| GameOfLife.StepRows | HW3-1/GameOfLife.h:28-62 | rows lo..hi of the target buffer get the next generation of the source buffer, immortal cells are left alone, and every other cell is unchanged |
| GameOfLife.FullStepIsStep | HW3-1/GameOfLife.h:25-64 | once every row is written, the target buffer holds the next generation and keeps the immortal cells |
| GameOfLife.StepBoard | HW3-1/GameOfLife.h:25-104 | one generation writes the next board into the other buffer |
| GameOfLife.Advance | HW3-1/GameOfLife.h:23-105 | one pass of the generation loop moves the parity invariant from generation g to g + 1: the buffer of g's parity holds the board after g generations |
| GameOfLife.FinalBuffer | HW3-1/GameOfLife.h:108-115 | when the loop ends, the buffer chosen by the parity of life_cycles holds the board after life_cycles generations |
| GameOfLife.SimulateLife | HW3-1/GameOfLife.h:17-116 | the result is the board after life_cycles generations; zero or negative counts return the board unchanged |
| ParallelGameOfLife.ThreadStartRows | HW3/GameOfLife.h:36-50 | the five start rows are the balanced partition: slice t starts at t*(n/4) + min(t, n%4), and the last entry is n |
| ParallelGameOfLife.TenRowsExample | HW3/GameOfLife.h:37 | for 10 rows the start rows are {0, 3, 6, 8, 10} |
| ParallelGameOfLife.SliceSizes | HW3/GameOfLife.h:36-50 | the slices start at 0, end at n, and each has n/4 rows plus one for the first n%4 slices |
| ParallelGameOfLife.StartRowMonotone | HW3/GameOfLife.h:36-50 | start rows never decrease |
| ParallelGameOfLife.SliceOfRow | HW3/GameOfLife.h:83 | every row of the board lies in some thread's slice |
| ParallelGameOfLife.SliceUnique | HW3/GameOfLife.h:83 | no row lies in two slices, so no two threads write the same row |
| ParallelGameOfLife.UpdateSlice | HW3/GameOfLife.h:83-120 | a thread writes the next generation into exactly the rows of its slice and leaves every other cell alone |
| ParallelGameOfLife.Generation | HW3/GameOfLife.h:78-160 | the four threads between two barriers together write the next generation into every non-immortal cell |
| ParallelGameOfLife.ParallelAdvance | HW3/GameOfLife.h:78-160 | one barrier-separated generation moves the parity invariant from g to g + 1 |
| ParallelGameOfLife.SimulateLife | HW3/GameOfLife.h:28-75 | the parallel simulation returns the same board as the sequential one: the board after life_cycles generations |
| Lcs.IsSubsequenceCorrect | HW4/phylogeny_tree_parallel.cc:38-47 | `Is_subsequence(i, j, x, y)` holds exactly when x[i..] embeds into y[j..] as a subsequence |
| Lcs.SubsequenceTransitive | HW4/phylogeny_tree_parallel.cc:305-311 | a subsequence of a subsequence is a subsequence, which is why a merged LCS stays common to all the leaves below it |
| Lcs.Max3 | HW4/phylogeny_tree_parallel.cc:50-52 | the result is one of the three arguments and at least each of them |
| Lcs.LcsLenSteps | HW4/phylogeny_tree_parallel.cc:117-139 | adding one character to either string raises the LCS length by 0 or 1 |
| Lcs.LcsLenIsUpperBound | HW4/phylogeny_tree_parallel.cc:117-139 | every common subsequence of x[..i] and y[..j] is at most as long as the table's recurrence value at (i, j) |
| Lcs.CellValue | HW4/phylogeny_tree_parallel.cc:119-136 | the `max3` of the matching case and the `max` of the other case compute the recurrence value of the cell |
| Lcs.FillRow | HW4/phylogeny_tree_parallel.cc:118-138 | filling row i gives each of its cells the LCS length of the prefixes and leaves the other rows unchanged |
| Lcs.RecStringFollowsTable | HW4/phylogeny_tree_parallel.cc:68-92 | on a correctly filled table, `rec_string` returns exactly the table-free traceback `LcsTrace`: a match takes the diagonal, otherwise it goes up when LCS[m-1][n] >= LCS[m][n-1] and left otherwise |
| Lcs.LcsTraceIsCommon | HW4/phylogeny_tree_parallel.cc:68-92 | the traceback is a common subsequence of x[..m] and y[..n] |
| Lcs.LcsTraceLength | HW4/phylogeny_tree_parallel.cc:68-92 | the traceback has the LCS length of x[..m] and y[..n] |
| Lcs.ComputeLcs | HW4/phylogeny_tree_parallel.cc:96-149 | the result is the traceback `LcsString(x1, y1)`, a determined string; it is a longest common subsequence: its length is LCS[|x1|][|y1|] (first assert), `Is_subsequence` holds for both strings (the other two asserts), and no common subsequence is longer |
| Phylogeny.PairsBeforeLength | HW4/phylogeny_tree_parallel.cc:245-252 | the first i rows of the pair enumeration hold i*(2N-i-1)/2 pairs |
| Phylogeny.PairsBeforeInRange | HW4/phylogeny_tree_parallel.cc:245-252 | every enumerated pair (a, b) has a < i and a < b < N |
| Phylogeny.PairsBeforeComplete | HW4/phylogeny_tree_parallel.cc:245-252 | every pair a < b with a < i is enumerated |
| Phylogeny.PairsBeforeSorted | HW4/phylogeny_tree_parallel.cc:245-252 | the enumeration is strictly increasing in lexicographic order |
| Phylogeny.Pairs | HW4/phylogeny_tree_parallel.cc:245-252 | the `pairs` vector is the row-by-row enumeration `PairsBefore(N, N)`: N(N-1)/2 pairs, every pair a < b < N, in strictly increasing lexicographic order |
| Phylogeny.StridePartition | HW4/phylogeny_tree_parallel.cc:255 | pair k is handled by rank k % P and by no other rank |
| Phylogeny.LocalBestUnique | HW4/phylogeny_tree_parallel.cc:263-274 | a rank's local best (the first of its pairs with the strictly longest LCS) is unique |
| Phylogeny.LocalBestStep | HW4/phylogeny_tree_parallel.cc:263-274 | the `start` / strictly-longer update keeps the local best among the pairs handled so far |
| Phylogeny.LocalBest | HW4/phylogeny_tree_parallel.cc:255-275 | a rank with pairs ends with its local best pair and the LCS `compute_LCS` returns for it; a rank without pairs keeps the empty string |
| Phylogeny.MaxLocCommutesAndAssociates | HW4/phylogeny_tree_parallel.cc:288 | MAXLOC is commutative and associative, so the order in which MPI combines ranks does not matter |
| Phylogeny.ReduceFindsWinner | HW4/phylogeny_tree_parallel.cc:279-288 | the reduction yields the maximum size and the lowest rank that holds it |
| Phylogeny.ArgChosenIsBest | HW4/phylogeny_tree_parallel.cc:255-288 | no pair among the first n outranks the one `ArgChosen` selects, where pair l outranks pair k when its LCS is longer, or equally long and held by a lower rank (l % P < k % P), or by the same rank at an earlier index |
| Phylogeny.ChosenUnique | HW4/phylogeny_tree_parallel.cc:255-288 | at most one pair is outranked by no other, so the pair a round merges is determined by the genomes and P |
| Phylogeny.ChosenIndexIsChosen | HW4/phylogeny_tree_parallel.cc:245-288 | the chosen index of the full pair list is outranked by no pair |
| Phylogeny.WinnerIsGlobalBest | HW4/phylogeny_tree_parallel.cc:279-302 | the winning rank has a pair, its string is at least as long as the LCS of every pair, and its local best pair is outranked by no pair |
| Phylogeny.WinnerIsChosenPair | HW4/phylogeny_tree_parallel.cc:279-302 | the winning rank's pair is `ChosenPair(genomes, P)`, its string is that pair's LCS, and no pair has a longer LCS |
| Phylogeny.Round | HW4/phylogeny_tree_parallel.cc:239-302 | a round merges exactly `ChosenPair(genomes, P)`: the longest LCS, on a tie the lowest rank, within that rank the first index; it returns the LCS `compute_LCS` gives for that pair, which is common to both genomes and at least as long as any pair's |
| Phylogeny.MergeIsConcatenation | HW4/phylogeny_tree_parallel.cc:305-311 | erasing i, then j - 1, then pushing x leaves the entries before i, those strictly between i and j, those after j, then x |
| Phylogeny.MergeShape | HW4/phylogeny_tree_parallel.cc:305-311 | the merged vector is one shorter, ends with x, and each other slot holds the old entry it shifted from |
| Phylogeny.MergeShifted | HW4/phylogeny_tree_parallel.cc:305-311 | every entry other than i and j survives the merge, moved to its shifted index |
| Phylogeny.DecimalRoundTrip | HW4/phylogeny_tree_parallel.cc:229-232 | reading back `to_string(i)` gives i |
| Phylogeny.LeafLabelsDistinct | HW4/phylogeny_tree_parallel.cc:229-232 | different leaves get different labels |
| Phylogeny.LeafLabelsUnique | HW4/phylogeny_tree_parallel.cc:229-232 | the initial `genome_ID` vector has no two equal labels |
| Phylogeny.LeavesHaveNoOpens | HW4/phylogeny_tree_parallel.cc:229-232 | the leaf labels contain no '(' |
| Phylogeny.OpensMerge | HW4/phylogeny_tree_parallel.cc:305-311 | each merge adds exactly one '(' to the labels, one per internal node of the tree |
| Phylogeny.MergeKeepsClustersSound | HW4/phylogeny_tree_parallel.cc:305-311 | after a merge, each genome is still a subsequence of every input genome in its cluster |
| Phylogeny.MergeKeepsClustersCovering | HW4/phylogeny_tree_parallel.cc:305-311 | after a merge, every input genome belongs to exactly one cluster: the one its owner index names, and no other |
| Phylogeny.MergeKeepsLabelTrees | HW4/phylogeny_tree_parallel.cc:305-311 | after a merge, every label still spells a tree whose leaves are exactly its cluster, each once; the new label `"(" + a + "," + b + ")"` spells the node over the two merged trees |
| Phylogeny.MergeKeepsTreeInvariant | HW4/phylogeny_tree_parallel.cc:235-312 | one pass of the main loop keeps the tree invariant: sound clusters, each input in exactly one cluster, labels spelling trees over their clusters, and '(' count plus genome count equal to the number of inputs |
| Phylogeny.LastGenome | HW4/phylogeny_tree_parallel.cc:315-320 | when one genome is left, it is a subsequence of every input, its label spells a tree holding every input index once, and it holds |input| - 1 merges |
| Phylogeny.AgglomerationStep | HW4/phylogeny_tree_parallel.cc:304-311 | erasing the chosen pair and pushing its LCS and the label `"(" + a + "," + b + ")"` is one step of the reference `Agglomeration` and does not change its outcome |
| Phylogeny.AgglomerationKeepsTreeInvariant | HW4/phylogeny_tree_parallel.cc:235-320 | from any state that keeps the tree invariant, the reference agglomeration ends with a root that is a subsequence of every input and a label that spells a tree over all inputs, each once, with |input| - 1 merges |
| Phylogeny.AgglomerationOfLeaves | HW4/phylogeny_tree_parallel.cc:229-320 | started from the inputs and the labels "0", "1", ..., the reference agglomeration yields such a root and label |
| Phylogeny.Agglomerate | HW4/phylogeny_tree_parallel.cc:229-320 | the root and label are exactly those of the reference `Agglomeration`, which merges `ChosenPair` into its `LcsString` every round; so the root is a common subsequence of every input genome, and the printed phylogeny spells a binary tree whose leaves are the input indices, each once, with |input| - 1 merges |
| RoundRobin.UniqueDivision | HW5/cs_miner_openMPI.cc:120-132 | t == r + n*P with 0 <= r < P determines r and n as t % P and t / P |
| RoundRobin.SameResidue | HW4/phylogeny_tree_parallel.cc:255 | two indices in [0, P) with the same residue are equal |
| RoundRobin.AddModulus | HW4/phylogeny_tree_parallel.cc:255 | striding by P keeps the residue modulo P |

## Left out

- MPI and thread plumbing (`MPI_Init`, `MPI_Bcast`, `MPI_Allreduce`,
  `std::thread`, `pthread_barrier_wait`, `#pragma omp`) is not modelled as
  concurrency. Ranks and threads run in sequence, and each collective is
  the value it delivers. Interleavings and message passing are outside a
  sequential model.
- The OpenMP loop of HW2 shares `locations` between threads without
  synchronisation. The model is the sequential loop, where the guard
  `i < locations[k].first` yields the row-major first start. A race
  cannot be stated in this model.
- Reading genomes from a file, `cin`, and all printing are left out
  (I/O).
- OpenSSL's `SHA256` is a parameter: foreign code.
- HW5/cs_miner_openMPI.cc:44 converts with `(unsigned char) x%256`. The
  cast binds before `%`, and what Boost does when the value is out of range
  depends on the library version. CsMiner.ToBits takes each digit as
  `x % 256`, which the function evidently intends.
- HW5/cs_miner_openMPI.cc:107-108 resize the target bytes to 32. A target
  of 256^32 or more is silently reduced modulo 256^32
  (CsMiner.PaddedTargetTruncates); the model keeps that behaviour and does
  not reject such targets.
- HW5/cs_miner_openMPI.cc:112-113 broadcast single bytes with `MPI_INT`
  (out-of-bounds buffer access). The broadcast is modelled as delivering
  the 32 bytes: a memory-safety issue outside a value model.
- CsMiner.Mine: the unbounded `while (!found)` loop is bounded by
  `maxTries`, so that the method terminates.
- CsMiner.Mine: the `MPI_LOR` reduction every 1000 tries, and a rank
  stopping because another rank found a coin, are left out. The contract
  covers one rank's own search.
- CsMiner.Sha256: the source hashes `&int_buffer[0]` even for x == 0,
  where the vector is empty. The model hashes the empty sequence.
- Integer widths: `long long`, `int` and `size_t` are unbounded integers.
  The `t*t` overflow of `is_prime` near 2^63 and an `int` LCS length are
  not modelled.
- CountPrimes.CountPrimes: a range larger than the `long long` loop
  counter is not modelled.
- `max3_loc` and `max_loc` (HW4/phylogeny_tree_parallel.cc:53-62) are
  used only in commented-out code, so they are left out.
- `BroadCast_Receive_String` (HW4/phylogeny_tree_parallel.cc:152-162) is
  MPI plumbing.
- HW3/sample.cc and HW1/hello_world.cc are drivers, not part of this
  model.
- Phylogeny.LocalBest: on a rank without pairs, `max_i` / `max_j` are
  uninitialised in the source. The model reports them as 0, together with
  `found == false`, and the reduction never picks such a rank.
- Phylogeny.Agglomerate requires at least one genome. With none, the
  source reads `genome_ID[0]` of an empty vector.
- Phylogeny.Agglomerate: the label is shown to spell a tree over the
  input indices (`Label`, `SpansInputs`). That the spelling parses back to
  one tree only is not proved.
- CircleTheWordSolver.WordLocations requires every word to be non-empty,
  and the puzzle to be non-empty and rectangular. The source reads
  `wordlist.at(k)[1]` and `puzzle.at(0)` without checking these.
- LCS recursion depth, and the cost of copying strings and vectors, are
  not modelled.
