/**
 * The sequential logic of the CS Coin miner (HW5/cs_miner_openMPI.cc):
 * little-endian base-256 conversion between big integers and byte vectors
 * (`to_bits`, `to_cpp_int`), the big-endian fold of a SHA-256 digest into an
 * integer, and the round-robin split of candidates between ranks.  Boost's
 * `cpp_int` is Dafny's `nat`; OpenSSL's SHA-256 is a function parameter
 * returning a digest.
 */
module CsMiner {

  import opened RoundRobin

  newtype Byte = b: int | 0 <= b < 256

  /** SHA256_DIGEST_LENGTH. */
  const DigestLength: nat := 32

  function Pow256(k: nat): (r: nat)
    ensures r >= 1
  {
    if k == 0 then 1 else 256 * Pow256(k - 1)
  }

  function Zeros(k: nat): (z: seq<Byte>)
    ensures |z| == k && forall i :: 0 <= i < k ==> z[i] == 0
  {
    if k == 0 then [] else Zeros(k - 1) + [0]
  }

  /**
   * The little-endian base-256 digits of x, as `to_bits` produces them:
   * empty for 0, and otherwise ending in a nonzero byte.
   */
  function ToBytes(x: nat): (c: seq<Byte>)
    ensures c == [] <==> x == 0
    ensures c != [] ==> c[|c| - 1] != 0
    decreases x
  {
    if x == 0 then [] else [(x % 256) as Byte] + ToBytes(x / 256)
  }

  /** The value of a little-endian base-256 byte vector, below 256^|c|. */
  function FromBytes(c: seq<Byte>): (x: nat)
    ensures x < Pow256(|c|)
  {
    if c == [] then 0 else c[0] as nat + 256 * FromBytes(c[1..])
  }

  /** `vector::resize(n)`: truncate to n bytes, or pad with zero bytes. */
  function Resize(c: seq<Byte>, n: nat): (r: seq<Byte>)
    ensures |r| == n
    ensures forall i :: 0 <= i < n ==> r[i] == if i < |c| then c[i] else 0
  {
    if n <= |c| then c[..n] else c + Zeros(n - |c|)
  }

  /** Digit arithmetic: b + 256*y splits back into b and y. */
  lemma SplitDigit(b: Byte, y: nat)
    ensures (b as nat + 256 * y) % 256 == b as nat
    ensures (b as nat + 256 * y) / 256 == y
  {
  }

  /** to_cpp_int(to_bits(x)) == x. */
  lemma {:induction false} FromToBytes(x: nat)
    ensures FromBytes(ToBytes(x)) == x
    decreases x
  {
    if x > 0 {
      FromToBytes(x / 256);
      var c := ToBytes(x);
      assert c[1..] == ToBytes(x / 256);
    }
  }

  /** A vector without a trailing zero byte has a nonzero value unless empty. */
  lemma {:induction false} NoTrailingZeroIsPositive(c: seq<Byte>)
    requires c != [] && c[|c| - 1] != 0
    ensures FromBytes(c) > 0
  {
    if |c| > 1 {
      NoTrailingZeroIsPositive(c[1..]);
    }
  }

  /** to_bits(to_cpp_int(c)) == c whenever c has no trailing zero byte. */
  lemma {:induction false} ToFromBytes(c: seq<Byte>)
    requires c == [] || c[|c| - 1] != 0
    ensures ToBytes(FromBytes(c)) == c
  {
    if c != [] {
      var y := FromBytes(c[1..]);
      NoTrailingZeroIsPositive(c);
      SplitDigit(c[0], y);
      ToFromBytes(c[1..]);
      assert ToBytes(FromBytes(c)) == [c[0]] + ToBytes(y);
    }
  }

  /** Trailing zero bytes do not change the value. */
  lemma {:induction false} FromBytesIgnoresTrailingZeros(c: seq<Byte>, k: nat)
    ensures FromBytes(c + Zeros(k)) == FromBytes(c)
  {
    if c == [] {
      ZerosHaveNoValue(k);
      assert c + Zeros(k) == Zeros(k);
    } else {
      FromBytesIgnoresTrailingZeros(c[1..], k);
      assert (c + Zeros(k))[1..] == c[1..] + Zeros(k);
    }
  }

  lemma {:induction false} ZerosHaveNoValue(k: nat)
    ensures FromBytes(Zeros(k)) == 0
  {
    if k > 0 {
      ZerosHaveNoValue(k - 1);
      var z := Zeros(k);
      assert z == [0] + Zeros(k - 1);
    }
  }

  /** A value below 256^k needs at most k bytes. */
  lemma {:induction false} ToBytesLength(x: nat, k: nat)
    requires x < Pow256(k)
    ensures |ToBytes(x)| <= k
    decreases x
  {
    if x > 0 {
      assert k > 0;
      ToBytesLength(x / 256, k - 1);
    }
  }

  /** Resizing to a larger (or equal) length appends zero bytes. */
  lemma ResizeIsPadding(c: seq<Byte>, k: nat)
    ensures Resize(c, |c| + k) == c + Zeros(k)
  {
    if k == 0 {
      assert c[..|c|] == c + Zeros(0);
    }
  }

  /**
   * Padding `to_bits(x)` to 32 bytes, as the broadcast of the mining targets
   * does, and reading it back preserves x whenever x < 256^32.
   */
  lemma PaddedTargetRoundTrip(x: nat)
    requires x < Pow256(DigestLength)
    ensures FromBytes(Resize(ToBytes(x), DigestLength)) == x
  {
    var c := ToBytes(x);
    var pad := DigestLength - |c|;
    assert pad >= 0 by {
      ToBytesLength(x, DigestLength);
    }
    assert FromBytes(Resize(c, DigestLength)) == FromBytes(c) by {
      ResizeIsPadding(c, pad);
      FromBytesIgnoresTrailingZeros(c, pad);
    }
    FromToBytes(x);
  }

  /** Digit arithmetic modulo 256q: the low digit stays, the rest is taken modulo q. */
  lemma DigitMod(b: Byte, y: nat, q: nat)
    requires q >= 1
    ensures (b as nat + 256 * y) % (256 * q) == b as nat + 256 * (y % q)
  {
    var r, d := y % q, y / q;
    assert y == d * q + r;
    assert b as nat + 256 * y == (b as nat + 256 * r) + d * (256 * q);
    assert b as nat + 256 * r < 256 * q;
    UniqueDivision(b as nat + 256 * y, 256 * q, b as nat + 256 * r, d);
  }

  /** The first n bytes hold the value modulo 256^n. */
  lemma {:induction false} FromBytesPrefix(c: seq<Byte>, n: nat)
    requires n <= |c|
    ensures FromBytes(c[..n]) == FromBytes(c) % Pow256(n)
  {
    if n == 0 {
      assert c[..0] == [];
    } else {
      FromBytesPrefix(c[1..], n - 1);
      assert c[..n][1..] == c[1..][..n - 1];
      DigitMod(c[0], FromBytes(c[1..]), Pow256(n - 1));
    }
  }

  lemma {:induction false} Pow256Monotone(a: nat, b: nat)
    requires a <= b
    ensures Pow256(a) <= Pow256(b)
    decreases b
  {
    if a < b {
      Pow256Monotone(a, b - 1);
    }
  }

  /** Padding a vector to n bytes keeps its value, which is below 256^n. */
  lemma PaddingKeepsValueModulo(c: seq<Byte>, n: nat)
    requires |c| <= n
    ensures FromBytes(Resize(c, n)) == FromBytes(c) % Pow256(n)
  {
    var x := FromBytes(c);
    assert FromBytes(Resize(c, n)) == x by {
      ResizeIsPadding(c, n - |c|);
      FromBytesIgnoresTrailingZeros(c, n - |c|);
    }
    assert x < Pow256(n) by {
      Pow256Monotone(|c|, n);
    }
    UniqueDivision(x, Pow256(n), x, 0);
  }

  /** Resizing the bytes of x to n keeps the value of x modulo 256^n. */
  lemma ResizeKeepsValueModulo(x: nat, n: nat)
    ensures FromBytes(Resize(ToBytes(x), n)) == x % Pow256(n)
  {
    var c := ToBytes(x);
    FromToBytes(x);
    if |c| <= n {
      PaddingKeepsValueModulo(c, n);
    } else {
      FromBytesPrefix(c, n);
    }
  }

  /**
   * `resize(32)` on the bytes of any target keeps its value modulo 256^32:
   * a target of more than 32 bytes loses its high bytes.
   */
  lemma PaddedTargetTruncates(x: nat)
    ensures FromBytes(Resize(ToBytes(x), DigestLength)) == x % Pow256(DigestLength)
  {
    ResizeKeepsValueModulo(x, DigestLength);
  }

  /** `to_bits`: repeatedly emit x % 256 and divide x by 256. */
  method ToBits(x: nat) returns (buffer: seq<Byte>)
    ensures buffer == ToBytes(x)
    ensures FromBytes(buffer) == x
  {
    var y := x;
    buffer := [];
    while y > 0
      invariant buffer + ToBytes(y) == ToBytes(x)
    {
      var c := (y % 256) as Byte;
      assert ToBytes(y) == [c] + ToBytes(y / 256);
      buffer := buffer + [c];
      y := y / 256;
    }
    assert buffer + [] == buffer;
    FromToBytes(x);
  }

  /** `to_cpp_int`: fold the bytes from the last (most significant) down. */
  method ToCppInt(c: seq<Byte>) returns (x: nat)
    ensures x == FromBytes(c)
    ensures x < Pow256(|c|)
  {
    x := 0;
    var i := |c|;
    while i > 0
      invariant 0 <= i <= |c|
      invariant x == FromBytes(c[i..])
    {
      assert c[i - 1..][1..] == c[i..];
      x := x * 256 + c[i - 1] as nat;
      i := i - 1;
    }
    assert c[0..] == c;
  }

  /** The big-endian value of a digest: the first byte is the most significant. */
  function BigEndian(h: seq<Byte>): (v: nat)
    ensures v < Pow256(|h|)
  {
    if h == [] then 0 else BigEndian(h[..|h| - 1]) * 256 + h[|h| - 1] as nat
  }

  function Reverse(h: seq<Byte>): (r: seq<Byte>)
    ensures |r| == |h| && forall i :: 0 <= i < |h| ==> r[i] == h[|h| - 1 - i]
  {
    if h == [] then [] else [h[|h| - 1]] + Reverse(h[..|h| - 1])
  }

  /** Big-endian reading is little-endian reading of the reversed bytes. */
  lemma {:induction false} BigEndianIsReversedLittleEndian(h: seq<Byte>)
    ensures BigEndian(h) == FromBytes(Reverse(h))
  {
    if h != [] {
      BigEndianIsReversedLittleEndian(h[..|h| - 1]);
      assert Reverse(h)[1..] == Reverse(h[..|h| - 1]);
    }
  }

  /** The digest fold in `sha256`: total = total*256 + hash[i] for i = 0..31. */
  method DigestToInt(hash: seq<Byte>) returns (total: nat)
    requires |hash| == DigestLength
    ensures total == BigEndian(hash) == FromBytes(Reverse(hash))
    ensures total < Pow256(DigestLength)
  {
    total := 0;
    var i := 0;
    while i < DigestLength
      invariant 0 <= i <= DigestLength
      invariant total == BigEndian(hash[..i])
    {
      assert hash[..i + 1][..i] == hash[..i];
      total := total * 256 + hash[i] as nat;
      i := i + 1;
    }
    assert hash[..DigestLength] == hash;
    BigEndianIsReversedLittleEndian(hash);
  }

  /** The integer `sha256(x)` stands for, given the digest function. */
  function HashValue(x: nat, digest: seq<Byte> -> seq<Byte>): nat {
    BigEndian(digest(ToBytes(x)))
  }

  /** `sha256`: hash the bytes of x and read the digest big-endian. */
  method Sha256(x: nat, digest: seq<Byte> -> seq<Byte>) returns (total: nat)
    requires |digest(ToBytes(x))| == DigestLength
    ensures total == HashValue(x, digest)
    ensures total < Pow256(DigestLength)
  {
    var intBuffer := ToBits(x);
    var hash := digest(intBuffer);
    total := DigestToInt(hash);
  }

  /** The n-th candidate tried by a rank: t starts at the rank and steps by P. */
  function Candidate(rank: nat, numProcesses: nat, n: nat): nat {
    rank + n * numProcesses
  }

  /**
   * The ranks' candidate sets partition the naturals: every t is tried by
   * rank t % P at step t / P, and by no other rank or step.
   */
  lemma CandidatesPartition(t: nat, numProcesses: nat)
    requires numProcesses >= 1
    ensures t == Candidate(t % numProcesses, numProcesses, t / numProcesses)
    ensures forall r: nat, n: nat :: r < numProcesses && t == Candidate(r, numProcesses, n) ==>
              r == t % numProcesses && n == t / numProcesses
  {
    forall r: nat, n: nat | r < numProcesses && t == Candidate(r, numProcesses, n)
      ensures r == t % numProcesses && n == t / numProcesses
    {
      UniqueDivision(t, numProcesses, r, n);
    }
  }

  lemma CandidateStep(rank: nat, numProcesses: nat, n: nat)
    ensures Candidate(rank, numProcesses, n + 1) == Candidate(rank, numProcesses, n) + numProcesses
  {
  }

  /** Candidate t meets the mining target: lo < sha256(t) < hi. */
  ghost predicate Hit(t: nat, lo: nat, hi: nat, digest: seq<Byte> -> seq<Byte>) {
    lo < HashValue(t, digest) < hi
  }

  /** No hit among the first n candidates, and none at candidate n: none among n + 1. */
  lemma NoHitExtends(rank: nat, numProcesses: nat, lo: nat, hi: nat, digest: seq<Byte> -> seq<Byte>, n: nat)
    requires forall m :: 0 <= m < n ==> !Hit(Candidate(rank, numProcesses, m), lo, hi, digest)
    requires !Hit(Candidate(rank, numProcesses, n), lo, hi, digest)
    ensures forall m :: 0 <= m < n + 1 ==> !Hit(Candidate(rank, numProcesses, m), lo, hi, digest)
  {
  }

  /**
   * The mining loop of one rank, bounded by `maxTries` attempts: try
   * t = rank, rank + P, rank + 2P, ... until lo < sha256(t) < hi.
   */
  method Mine(rank: nat, numProcesses: nat, lo: nat, hi: nat,
              digest: seq<Byte> -> seq<Byte>, maxTries: nat)
    returns (found: bool, z: nat)
    requires rank < numProcesses
    requires forall b :: |digest(b)| == DigestLength
    ensures found ==> z % numProcesses == rank && Hit(z, lo, hi, digest)
    ensures found ==> forall n :: 0 <= n < z / numProcesses ==>
              !Hit(Candidate(rank, numProcesses, n), lo, hi, digest)
    ensures !found ==> forall n :: 0 <= n < maxTries ==>
              !Hit(Candidate(rank, numProcesses, n), lo, hi, digest)
  {
    var t := rank;
    var n := 0;
    found := false;
    z := 0;
    ghost var zStep := 0;
    while !found && n < maxTries
      invariant 0 <= n <= maxTries
      invariant t == Candidate(rank, numProcesses, n)
      invariant found ==> zStep < n && z == Candidate(rank, numProcesses, zStep) && Hit(z, lo, hi, digest)
      invariant !found ==> forall m :: 0 <= m < n ==> !Hit(Candidate(rank, numProcesses, m), lo, hi, digest)
      invariant found ==> forall m :: 0 <= m < zStep ==> !Hit(Candidate(rank, numProcesses, m), lo, hi, digest)
    {
      var nextSha := Sha256(t, digest);
      if lo < nextSha && nextSha < hi {
        z := t;
        zStep := n;
        found := true;
      } else {
        NoHitExtends(rank, numProcesses, lo, hi, digest, n);
      }
      CandidateStep(rank, numProcesses, n);
      t := t + numProcesses;
      n := n + 1;
    }
    if found {
      UniqueDivision(z, numProcesses, rank, zStep);
    }
  }
}
