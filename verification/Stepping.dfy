/** Coprime stepping, the random candidates for the step, and the chunks of the workers:
    the two insertion workloads. */
module Stepping {
  import opened Arithmetic
  import opened Gcd

  // ---------- The generator ----------

  /** `int` from the low 32 bits of a 64-bit word. */
  function ToInt(n: nat): int {
    var low := n % 0x1_0000_0000;
    if low < 0x8000_0000 then low else low - 0x1_0000_0000
  }

  lemma RemainderBounds(n: nat, d: nat)
    requires d > 0
    ensures n % d < d && n % d <= n
  {
    if n < d { assert n % d == n; }
  }

  /** One step of the linear congruential generator; the product wraps at 64 bits before
      the remainder is taken. */
  function Draw(current: nat): (r: nat)
    ensures r < 2147483647
  {
    48271 * current % 0x1_0000_0000_0000_0000 % 2147483647
  }

  /** The remainder by an `int` that is converted to an unsigned 64-bit word first. */
  function Scaled(draw: nat, range: int): (r: nat)
    requires -0x8000_0000 <= range < 0x8000_0000
    ensures r <= draw && (range > 0 ==> r < range) && (range == 0 ==> r == 0)
  {
    if range == 0 then 0
    else
      var unsigned := if range > 0 then range else range + 0x1_0000_0000_0000_0000;
      RemainderBounds(draw, unsigned);
      draw % unsigned
  }

  /** The low word is the number itself below 2^31, and congruent to it always. */
  lemma ToIntIs(n: nat)
    ensures -0x8000_0000 <= ToInt(n) < 0x8000_0000
    ensures n < 0x8000_0000 ==> ToInt(n) == n
    ensures Divides(0x1_0000_0000, n - ToInt(n))
  {
    var q := n / 0x1_0000_0000;
    var k := if n % 0x1_0000_0000 < 0x8000_0000 then q else q + 1;
    MakeDivides(0x1_0000_0000, k);
    assert n - ToInt(n) == 0x1_0000_0000 * k;
  }

  /** A draw is the remainder of the product modulo 2^31 - 1 while that fits 64 bits, and of
      the wrapped product otherwise. */
  lemma DrawIs(current: nat)
    ensures 48271 * current < 0x1_0000_0000_0000_0000 ==> Divides(2147483647, 48271 * current - Draw(current))
    ensures exists w: nat :: Wraps(48271 * current, w, Draw(current))
  {
    var product := 48271 * current;
    var q, word := product / 0x1_0000_0000_0000_0000, product % 0x1_0000_0000_0000_0000;
    assert product == q * 0x1_0000_0000_0000_0000 + word;
    assert word == word / 2147483647 * 2147483647 + word % 2147483647;
    MakeDivides(2147483647, word / 2147483647);
    assert Wraps(product, q, Draw(current));
  }

  ghost predicate Wraps(product: nat, w: nat, draw: nat) {
    var word := product - w * 0x1_0000_0000_0000_0000;
    0 <= word < 0x1_0000_0000_0000_0000 && Divides(2147483647, word - draw)
  }

  /** The remainder: the draw itself inside the range, periodic beyond it, so that every
      number of the range can be drawn; a negative range cuts nothing. */
  lemma ScaledIs(draw: nat, range: int)
    requires -0x8000_0000 <= range < 0x8000_0000
    ensures range > 0 && draw < range ==> Scaled(draw, range) == draw
    ensures range > 0 ==> Scaled(draw + range, range) == Scaled(draw, range) && Divides(range, draw - Scaled(draw, range))
    ensures range < 0 && draw < 2147483647 ==> Scaled(draw, range) == draw
  {
    if range > 0 {
      RemainderIs(draw, range);
      ScaledPositive(draw, range);
      ScaledPositive(draw + range, range);
      hide Scaled;
    } else if range < 0 && draw < 2147483647 {
      RemainderIs(draw, range + 0x1_0000_0000_0000_0000);
    }
  }

  lemma ScaledPositive(draw: nat, range: int)
    requires 0 < range < 0x8000_0000
    ensures Scaled(draw, range) == draw % range
  {
  }

  lemma RemainderIs(x: nat, d: nat)
    requires d > 0
    ensures x < d ==> x % d == x
    ensures (x + d) % d == x % d && Divides(d, x - x % d)
  {
    var q, r := x / d, x % d;
    assert x == q * d + r;
    MakeDivides(d, q);
    assert x - r == d * q;
    OneMore(x, d, q, r);
    if x < d { ModUnique(x, d, 0, x); }
  }

  lemma OneMore(x: nat, d: nat, q: nat, r: nat)
    requires x == q * d + r && r < d
    ensures (x + d) % d == r
  {
    assert x + d == (q + 1) * d + r;
    ModUnique(x + d, d, q + 1, r);
  }

  const Seed: nat := 0xDEAD_BEEF_DEAD_BEEF

  function Seeded(current: nat): nat { if current == 0 then Seed else current }

  /** The generator's state is shared by all instances and zero at first; making an
      instance seeds it only while it is zero. */
  class RandomNumber {
    var current: nat

    constructor ()
      ensures current == 0
    {
      current := 0;
    }

    method Reseed()
      modifies this
      ensures current == Seeded(old(current))
    {
      if current == 0 {
        current := Seed;
      }
    }

    method Next() returns (r: nat)
      modifies this
      ensures r == current == Draw(old(current))
    {
      current := 48271 * current % 0x1_0000_0000_0000_0000 % 2147483647;
      r := current;
    }

    /** The second of two draws, cut to the range; an empty range draws nothing. */
    method NextInRange(range: int) returns (r: nat)
      requires -0x8000_0000 <= range < 0x8000_0000
      modifies this
      ensures r == Scaled(Draw(Draw(old(current))), range) && current == After(old(current), range)
      ensures range > 0 ==> r < range && Divides(range, Draw(Draw(old(current))) - r)
      ensures range < 0 ==> r == Draw(Draw(old(current)))
    {
      if range == 0 {
        return 0;
      }
      var _ := Next();
      var n := Next();
      var unsigned := if range > 0 then range else range + 0x1_0000_0000_0000_0000;
      r := n % unsigned;
      ScaledIs(n, range);
    }
  }

  function After(current: nat, range: int): nat { if range == 0 then current else Draw(Draw(current)) }

  function AfterAll(current: nat, range: int, j: nat): nat {
    if j == 0 then current else After(AfterAll(current, range, j - 1), range)
  }

  /** The `j`-th candidate for a step. */
  function Candidate(current: nat, n: nat, j: nat): (r: nat)
    ensures r < 2147483647
  {
    Scaled(Draw(Draw(AfterAll(current, ToInt(n), j))), ToInt(n))
  }

  ghost predicate Acceptable(n: nat, step: nat) { n / 2 <= step && IsGcd(1, n, step) }

  ghost predicate FirstAcceptable(current: nat, n: nat, j: nat) {
    Acceptable(n, Candidate(current, n, j)) && forall k | 0 <= k < j :: !Acceptable(n, Candidate(current, n, k))
  }

  lemma NothingFitsZero(step: nat)
    ensures !Acceptable(0, step) || step == 1
  {
    if IsGcd(1, 0, step) {
      GcdOfZero(step);
      GcdUnique(1, step, 0, step);
    }
  }

  lemma ZeroDrawsZero(current: nat, j: nat)
    ensures Candidate(current, 0, j) == 0
  {
  }

  lemma DrawOf(current: nat, wraps: nat, quotient: nat, draw: nat)
    requires 48271 * current == wraps * 0x1_0000_0000_0000_0000 + (quotient * 2147483647 + draw)
    requires quotient * 2147483647 + draw < 0x1_0000_0000_0000_0000 && draw < 2147483647
    ensures Draw(current) == draw
  {
    var word := quotient * 2147483647 + draw;
    ModUnique(48271 * current, 0x1_0000_0000_0000_0000, wraps, word);
    ModUnique(word, 2147483647, quotient, draw);
  }

  lemma DrawsFromSeed()
    ensures Draw(Draw(Seed)) == 1751258363 && Draw(Draw(1751258363)) == 1479414033 && Draw(Draw(1479414033)) == 1123639096
    ensures Draw(Draw(1123639096)) == 614727976 && Draw(Draw(614727976)) == 765147169
  {
    hide Draw;
    DrawOf(Seed, 41987, 8431312653, 1909508750);
    DrawOf(1909508750, 0, 42921, 1751258363);
    DrawOf(1751258363, 0, 39364, 1446159865);
    DrawOf(1446159865, 0, 32506, 1479414033);
    DrawOf(1479414033, 0, 33254, 373589605);
    DrawOf(373589605, 0, 8397, 1123639096);
    DrawOf(1123639096, 0, 25257, 188330737);
    DrawOf(188330737, 0, 4233, 614727976);
    DrawOf(614727976, 0, 13817, 1752578897);
    DrawOf(1752578897, 0, 39394, 765147169);
  }

  lemma NextCandidate(current: nat, n: nat, j: nat)
    ensures ToInt(n) != 0 ==> AfterAll(current, ToInt(n), j + 1) == Draw(Draw(AfterAll(current, ToInt(n), j)))
    ensures Candidate(current, n, j) == Scaled(Draw(Draw(AfterAll(current, ToInt(n), j))), ToInt(n))
    ensures AfterAll(current, ToInt(n), 0) == current
  {
  }

  /** The first candidates for a chunk of ten keys. */
  lemma CandidatesForTen()
    ensures Candidate(Seed, 10, 0) == 3 && Candidate(Seed, 10, 1) == 3 && Candidate(Seed, 10, 2) == 6
    ensures Candidate(Seed, 10, 3) == 6 && Candidate(Seed, 10, 4) == 9
  {
    hide *;
    DrawsFromSeed();
    ToIntIs(10);
    NextCandidate(Seed, 10, 0);
    NextCandidate(Seed, 10, 1);
    NextCandidate(Seed, 10, 2);
    NextCandidate(Seed, 10, 3);
    NextCandidate(Seed, 10, 4);
    ScaledPositive(1751258363, 10);
    ScaledPositive(1479414033, 10);
    ScaledPositive(1123639096, 10);
    ScaledPositive(614727976, 10);
    ScaledPositive(765147169, 10);
  }

  /** The loop over the candidates, cut off after `tries`: it returns the first acceptable
      one, at least half of `n` and coprime to it, and fails iff there is none among them.
      For `n == 0` there never is. */
  method RelativePrime(n: nat, random: RandomNumber, tries: nat) returns (found: bool, step: nat)
    requires n < 0x1_0000_0000_0000_0000
    modifies random
    ensures found <==> exists j | 0 <= j < tries :: Acceptable(n, Candidate(Seeded(old(random.current)), n, j))
    ensures found ==> exists j | 0 <= j < tries ::
                        FirstAcceptable(Seeded(old(random.current)), n, j) && step == Candidate(Seeded(old(random.current)), n, j)
    ensures found ==> IsGcd(1, n, step) && n / 2 <= step < 2147483647
    ensures n == 0 ==> !found
  {
    random.Reseed();
    ghost var start := random.current;
    for i := 0 to tries
      invariant random.current == AfterAll(start, ToInt(n), i)
      invariant forall k | 0 <= k < i :: !Acceptable(n, Candidate(start, n, k))
    {
      var candidate := random.NextInRange(ToInt(n));
      assert candidate == Candidate(start, n, i);
      assert random.current == AfterAll(start, ToInt(n), i + 1);
      if candidate < n / 2 {
        continue;
      }
      var g := BinaryGcd(n, candidate);
      if g != 1 {
        if IsGcd(1, n, candidate) { GcdUnique(g, 1, n, candidate); }
        continue;
      }
      ZeroDrawsZero(start, i);
      NothingFitsZero(0);
      assert FirstAcceptable(start, n, i);
      return true, candidate;
    }
    return false, 0;
  }

  // ---------- The walk ----------

  function Position(step: nat, total: nat, j: nat): (r: nat)
    requires total > 0
    ensures r < total
  {
    j * step % total
  }

  lemma ModUnique(x: int, m: nat, q: int, r: nat)
    requires m > 0 && x == q * m + r && r < m
    ensures x % m == r
  {
    var p := x / m;
    assert x == p * m + x % m;
    assert (q - p) * m == x % m - r;
    SmallMultiple(q - p, m);
  }

  lemma SmallMultiple(k: int, m: int)
    requires -m < k * m < m
    ensures k == 0
  {
    ProductSigns(k, m);
  }

  lemma ProductSigns(k: int, m: int)
    requires m > 0
    ensures k >= 1 ==> k * m >= m
    ensures k <= -1 ==> k * m <= -m
  {
  }

  lemma Assoc(x: int, y: int, z: int)
    ensures x * y * z == x * (y * z) == y * (x * z)
  {
  }

  /** With 1 = a * total + b * step, a multiple of the step that is a multiple of the
      total comes from a multiple of the total. */
  lemma CancelStep(d: int, step: int, total: int, e: int, a: int, b: int)
    requires 1 == a * total + b * step && d * step == e * total
    ensures d == (d * a + b * e) * total
  {
    var x, y := a * total, b * step;
    assert d == d * x + d * y;
    Assoc(d, a, total);
    Assoc(d, b, step);
    Assoc(b, e, total);
    assert (d * a + b * e) * total == d * a * total + b * e * total;
  }

  /** The multiple of the step that is congruent to a given residue. */
  lemma Solve(c: int, step: int, total: int, a: int, b: int, t: int, j: int)
    requires 1 == a * total + b * step && c * b == t * total + j
    ensures j * step == (-(c * a) - t * step) * total + c
  {
    var x, y := a * total, b * step;
    assert c == c * x + c * y;
    Assoc(c, a, total);
    Assoc(c, b, step);
    assert c * b * step == (t * total + j) * step == t * total * step + j * step;
    Assoc(t, total, step);
    Assoc(t, step, total);
    assert total * step == step * total;
    assert (-(c * a) - t * step) * total == -(c * a * total) - t * step * total;
  }

  /** One step of the source's update moves to the next position. */
  lemma NextPosition(step: nat, total: nat, j: nat)
    requires total > 0
    ensures (Position(step, total, j) + step) % total == Position(step, total, j + 1)
  {
    var x := j * step;
    var q := x / total;
    var y := x % total + step;
    assert x == q * total + x % total;
    assert (j + 1) * step == q * total + y;
    assert (j + 1) * step == (q + y / total) * total + y % total by {
      assert (q + y / total) * total == q * total + y / total * total;
    }
    ModUnique((j + 1) * step, total, q + y / total, y % total);
  }

  /** Coprime steps have an inverse modulo the total. */
  lemma Inverse(step: nat, total: nat) returns (a: int, b: int)
    requires IsGcd(1, total, step)
    ensures 1 == a * total + b * step
  {
    a, b :| 1 == Times(a, total) + Times(b, step);
  }

  lemma NeverTwice(step: nat, total: nat, i: nat, j: nat)
    requires IsGcd(1, total, step) && total > 0 && 1 <= i < j <= total
    ensures Position(step, total, i) != Position(step, total, j)
  {
    if Position(step, total, i) == Position(step, total, j) {
      var a, b := Inverse(step, total);
      var d, e := j - i, j * step / total - i * step / total;
      DifferenceOfMultiples(i, j, step, total);
      CancelStep(d, step, total, e, a, b);
      SmallMultiple(d * a + b * e, total);
    }
  }

  lemma DifferenceOfMultiples(i: int, j: int, step: int, total: int)
    requires total > 0 && i * step % total == j * step % total
    ensures (j - i) * step == (j * step / total - i * step / total) * total
  {
    var p, q := i * step / total, j * step / total;
    assert i * step == p * total + i * step % total;
    assert j * step == q * total + j * step % total;
    assert (q - p) * total == q * total - p * total;
    assert (j - i) * step == j * step - i * step;
  }

  lemma EveryResidue(step: nat, total: nat, c: nat) returns (j: nat)
    requires IsGcd(1, total, step) && total > 0 && c < total
    ensures 1 <= j <= total && Position(step, total, j) == c
  {
    var a, b := Inverse(step, total);
    j := c * b % total;
    SolvesResidue(step, total, c, a, b, j);
    if j == 0 {
      j := total;
      ModUnique(total * step, total, step, 0);
    }
  }

  lemma SolvesResidue(step: nat, total: nat, c: nat, a: int, b: int, j: nat)
    requires total > 0 && c < total && 1 == a * total + b * step && j == c * b % total
    ensures Position(step, total, j) == c && j < total
    ensures j == 0 ==> c == 0
  {
    var t := c * b / total;
    Solve(c, step, total, a, b, t, j);
    ModUnique(j * step, total, -(c * a) - t * step, c);
  }

  /** The keys a worker hands out, in order. */
  function Walk(lower: nat, step: nat, total: nat, n: nat): (r: seq<nat>)
    requires total > 0
    ensures |r| == n
    ensures forall i | 0 <= i < n :: r[i] == lower + Position(step, total, i + 1)
  {
    if n == 0 then [] else Walk(lower, step, total, n - 1) + [lower + Position(step, total, n)]
  }

  predicate NoRepeats(keys: seq<nat>) {
    forall i, j | 0 <= i < j < |keys| :: keys[i] != keys[j]
  }

  predicate Covers(keys: seq<nat>, lower: nat, total: nat) {
    forall k | lower <= k < lower + total :: k in keys
  }

  /** A coprime walk of full length meets every key of the chunk exactly once; every
      shorter prefix is free of repetitions and misses a key. */
  lemma WalkIsPermutation(lower: nat, step: nat, total: nat, n: nat)
    requires total > 0 && IsGcd(1, total, step) && n <= total
    ensures NoRepeats(Walk(lower, step, total, n))
    ensures forall k | k in Walk(lower, step, total, n) :: lower <= k < lower + total
    ensures Covers(Walk(lower, step, total, n), lower, total) <==> n == total
  {
    var w := Walk(lower, step, total, n);
    forall i, j | 0 <= i < j < n ensures w[i] != w[j] {
      NeverTwice(step, total, i + 1, j + 1);
    }
    if n == total {
      forall k | lower <= k < lower + total ensures k in w {
        var j := EveryResidue(step, total, k - lower);
        assert w[j - 1] == k;
      }
    } else {
      var k := lower + Position(step, total, total);
      if k in w {
        var i :| 0 <= i < n && w[i] == k;
        NeverTwice(step, total, i + 1, total);
      }
      assert lower <= k < lower + total && k !in w;
    }
  }

  // ---------- Insert ----------

  datatype Chunk = Chunk(lower: nat, upper: nat)

  /** `Insert::generateWorkerInput`; `InsertBatch` shifts the chunks by `offset`. */
  function WorkerChunk(keyCount: nat, threadCount: nat, i: nat, offset: nat): Chunk
    requires 0 < threadCount && i < threadCount
  {
    var chunkSize := keyCount / threadCount;
    Chunk(offset + i * chunkSize + 1,
          offset + if i == threadCount - 1 then keyCount else (i + 1) * chunkSize)
  }

  function ChunkSize(c: Chunk): int { c.upper - c.lower + 1 }

  /** The division is even: all chunks but the last have one size, and the last is less
      than the number of threads larger. */
  lemma ChunksBalanced(keyCount: nat, threadCount: nat, offset: nat) returns (s: nat)
    requires 0 < threadCount <= keyCount
    ensures s >= 1 && forall i | 0 <= i < threadCount - 1 :: ChunkSize(WorkerChunk(keyCount, threadCount, i, offset)) == s
    ensures s <= ChunkSize(WorkerChunk(keyCount, threadCount, threadCount - 1, offset)) < s + threadCount
    ensures WorkerChunk(keyCount, threadCount, 0, offset).lower == offset + 1
    ensures forall i | 0 < i < threadCount ::
              WorkerChunk(keyCount, threadCount, i, offset).lower == WorkerChunk(keyCount, threadCount, i - 1, offset).upper + 1
    ensures WorkerChunk(keyCount, threadCount, threadCount - 1, offset).upper == offset + keyCount
  {
    s := keyCount / threadCount;
    ChunkSizes(keyCount, threadCount);
    assert keyCount == s * threadCount + keyCount % threadCount;
    forall i | 0 <= i < threadCount - 1 ensures ChunkSize(WorkerChunk(keyCount, threadCount, i, offset)) == s {
      assert (i + 1) * s == i * s + s;
    }
    assert (threadCount - 1) * s == threadCount * s - s;
  }

  predicate InChunk(c: Chunk, k: nat) { c.lower <= k <= c.upper }

  lemma ChunkSizes(keyCount: nat, threadCount: nat)
    requires 0 < threadCount
    ensures threadCount * (keyCount / threadCount) <= keyCount
    ensures threadCount <= keyCount ==> keyCount / threadCount >= 1
  {
    var q := keyCount / threadCount;
    assert keyCount == q * threadCount + keyCount % threadCount;
    if q == 0 { assert q * threadCount == 0; }
  }

  /** The chunks partition the keys: each key lies in exactly one, and each is non-empty
      when there are no more threads than keys. */
  lemma ChunksPartition(keyCount: nat, threadCount: nat, offset: nat, k: nat)
    requires 0 < threadCount <= keyCount
    ensures forall i | 0 <= i < threadCount ::
              offset < WorkerChunk(keyCount, threadCount, i, offset).lower <= WorkerChunk(keyCount, threadCount, i, offset).upper <= offset + keyCount
    ensures offset < k <= offset + keyCount ==>
              exists i :: 0 <= i < threadCount && InChunk(WorkerChunk(keyCount, threadCount, i, offset), k)
    ensures forall i, j | 0 <= i < j < threadCount ::
              WorkerChunk(keyCount, threadCount, i, offset).upper < WorkerChunk(keyCount, threadCount, j, offset).lower
  {
    ChunksInside(keyCount, threadCount, offset);
    ChunksDisjoint(keyCount, threadCount, offset);
    if offset < k <= offset + keyCount {
      var i := ChunkOf(keyCount, threadCount, offset, k);
    }
  }

  lemma ChunksInside(keyCount: nat, threadCount: nat, offset: nat)
    requires 0 < threadCount <= keyCount
    ensures forall i | 0 <= i < threadCount ::
              offset < WorkerChunk(keyCount, threadCount, i, offset).lower <= WorkerChunk(keyCount, threadCount, i, offset).upper <= offset + keyCount
  {
    var s := keyCount / threadCount;
    ChunkSizes(keyCount, threadCount);
    forall i | 0 <= i < threadCount
      ensures offset < WorkerChunk(keyCount, threadCount, i, offset).lower <= WorkerChunk(keyCount, threadCount, i, offset).upper <= offset + keyCount
    {
      ChunkBounds(keyCount, threadCount, i, s);
    }
  }

  lemma ChunksDisjoint(keyCount: nat, threadCount: nat, offset: nat)
    requires 0 < threadCount
    ensures forall i, j | 0 <= i < j < threadCount ::
              WorkerChunk(keyCount, threadCount, i, offset).upper < WorkerChunk(keyCount, threadCount, j, offset).lower
  {
    forall i, j | 0 <= i < j < threadCount
      ensures WorkerChunk(keyCount, threadCount, i, offset).upper < WorkerChunk(keyCount, threadCount, j, offset).lower
    {
      MulMonotone(i + 1, j, keyCount / threadCount);
    }
  }

  lemma ChunkOf(keyCount: nat, threadCount: nat, offset: nat, k: nat) returns (i: nat)
    requires 0 < threadCount <= keyCount && offset < k <= offset + keyCount
    ensures i < threadCount && InChunk(WorkerChunk(keyCount, threadCount, i, offset), k)
  {
    var s := keyCount / threadCount;
    ChunkSizes(keyCount, threadCount);
    var q := (k - offset - 1) / s;
    QuotientBounds(k - offset - 1, s);
    i := if q < threadCount then q else threadCount - 1;
    MulMonotone(i, q, s);
  }

  lemma QuotientBounds(n: nat, d: nat)
    requires d > 0
    ensures n / d * d <= n < (n / d + 1) * d
  {
  }

  lemma ChunkBounds(keyCount: nat, threadCount: nat, i: nat, s: nat)
    requires i < threadCount && s >= 1 && threadCount * s <= keyCount
    ensures i * s + 1 <= (i + 1) * s <= keyCount
  {
    MulMonotone(i + 1, threadCount, s);
  }

  /** The insertion loop of one worker: one key per iteration. */
  method InsertWorker(lower: nat, upper: nat, step: nat) returns (keys: seq<nat>)
    requires lower <= upper && IsGcd(1, upper - lower + 1, step)
    ensures keys == Walk(lower, step, upper - lower + 1, upper - lower + 1)
  {
    var total := upper - lower + 1;
    var current := 0;
    keys := [];
    assert Position(step, total, 0) == 0;
    for i := 1 to total + 1
      invariant current == Position(step, total, i - 1) && keys == Walk(lower, step, total, i - 1)
    {
      NextPosition(step, total, i - 1);
      current := (current + step) % total;
      keys := keys + [lower + current];
    }
  }

  /** Main result for Insert: whatever coprime steps the workers drew, together they
      insert every key of the interval exactly once. */
  lemma WorkersInsertEveryKeyOnce(keyCount: nat, threadCount: nat, offset: nat, steps: seq<nat>, k: nat)
    requires 0 < threadCount <= keyCount && |steps| == threadCount && offset < k <= offset + keyCount
    requires forall i | 0 <= i < threadCount :: Ready(keyCount, threadCount, offset, steps, i)
    ensures exists i, j :: InsertedAt(keyCount, threadCount, offset, steps, k, i, j)
    ensures forall i, j, i', j' | InsertedAt(keyCount, threadCount, offset, steps, k, i, j)
                               && InsertedAt(keyCount, threadCount, offset, steps, k, i', j') :: i == i' && j == j'
  {
    var i := ChunkOf(keyCount, threadCount, offset, k);
    var j := PlaceInChunk(keyCount, threadCount, offset, steps, k, i);
    forall i', j', i'', j'' | InsertedAt(keyCount, threadCount, offset, steps, k, i', j')
                           && InsertedAt(keyCount, threadCount, offset, steps, k, i'', j'') ensures i' == i'' && j' == j''
    {
      InsertedInChunk(keyCount, threadCount, offset, steps, k, i', j');
      InsertedInChunk(keyCount, threadCount, offset, steps, k, i'', j'');
      ChunksDisjoint(keyCount, threadCount, offset);
      assert i' == i'';
      SamePlace(keyCount, threadCount, offset, steps, k, i', j', j'');
    }
  }

  lemma PlaceInChunk(keyCount: nat, threadCount: nat, offset: nat, steps: seq<nat>, k: nat, i: nat) returns (j: nat)
    requires 0 < threadCount == |steps| && i < threadCount && Ready(keyCount, threadCount, offset, steps, i)
    requires InChunk(WorkerChunk(keyCount, threadCount, i, offset), k)
    ensures InsertedAt(keyCount, threadCount, offset, steps, k, i, j)
  {
    var c := WorkerChunk(keyCount, threadCount, i, offset);
    hide WorkerChunk, IsGcd, Walk;
    j := PlaceInWalk(c.lower, steps[i], c.upper - c.lower + 1, k);
  }

  lemma PlaceInWalk(lower: nat, step: nat, total: nat, k: nat) returns (j: nat)
    requires total > 0 && IsGcd(1, total, step) && lower <= k < lower + total
    ensures j < total && Walk(lower, step, total, total)[j] == k
  {
    hide IsGcd;
    WalkIsPermutation(lower, step, total, total);
    var w := Walk(lower, step, total, total);
    assert |w| == total && k in w;
    j :| 0 <= j < total && w[j] == k;
  }

  lemma InsertedInChunk(keyCount: nat, threadCount: nat, offset: nat, steps: seq<nat>, k: nat, i: nat, j: nat)
    requires 0 < threadCount == |steps| && InsertedAt(keyCount, threadCount, offset, steps, k, i, j)
    ensures i < threadCount && InChunk(WorkerChunk(keyCount, threadCount, i, offset), k)
  {
    hide IsGcd;
  }

  lemma SamePlace(keyCount: nat, threadCount: nat, offset: nat, steps: seq<nat>, k: nat, i: nat, j: nat, j': nat)
    requires 0 < threadCount == |steps| && i < threadCount && Ready(keyCount, threadCount, offset, steps, i)
    requires InsertedAt(keyCount, threadCount, offset, steps, k, i, j) && InsertedAt(keyCount, threadCount, offset, steps, k, i, j')
    ensures j == j'
  {
    var c := WorkerChunk(keyCount, threadCount, i, offset);
    var total := c.upper - c.lower + 1;
    WalkIsPermutation(c.lower, steps[i], total, total);
    hide IsGcd, Walk;
  }

  /** Worker `i` has a non-empty chunk and a step coprime to its size. */
  ghost predicate Ready(keyCount: nat, threadCount: nat, offset: nat, steps: seq<nat>, i: nat)
    requires 0 < threadCount == |steps| && i < threadCount
  {
    var c := WorkerChunk(keyCount, threadCount, i, offset);
    c.lower <= c.upper && IsGcd(1, c.upper - c.lower + 1, steps[i])
  }

  /** Worker `i` inserts key `k` as its `j`-th. */
  ghost predicate InsertedAt(keyCount: nat, threadCount: nat, offset: nat, steps: seq<nat>, k: nat, i: nat, j: nat)
    requires 0 < threadCount == |steps|
  {
    i < threadCount &&
    var c := WorkerChunk(keyCount, threadCount, i, offset);
    c.lower <= c.upper && j < c.upper - c.lower + 1 &&
    Walk(c.lower, steps[i], c.upper - c.lower + 1, c.upper - c.lower + 1)[j] == k
  }
}
