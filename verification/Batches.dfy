/** `InsertBatch`: the coprime walk cut into transactions. */
module Batches {
  import opened Sequences
  import opened Gcd
  import opened Stepping

  /** Number of transactions of a worker. */
  function BatchCount(total: nat, batchSize: nat): nat
    requires batchSize > 0
  {
    total / batchSize + (if total % batchSize == 0 then 0 else 1)
  }

  /** Size of transaction `b`: the last one takes the remainder, which is 0 when the
      batch size divides the total. */
  function SizeOf(total: nat, batchSize: nat, b: nat): nat
    requires batchSize > 0
  {
    if b + 1 == BatchCount(total, batchSize) then total % batchSize else batchSize
  }

  /** Just enough transactions for all keys. */
  lemma BatchCountIs(total: nat, batchSize: nat)
    requires batchSize > 0
    ensures var n := BatchCount(total, batchSize); (n - 1) * batchSize < total <= n * batchSize || (n == 0 && total == 0)
  {
    var q := total / batchSize;
    assert total == q * batchSize + total % batchSize;
    assert (q + 1) * batchSize == q * batchSize + batchSize && (q - 1) * batchSize == q * batchSize - batchSize;
    if total == 0 { assert q * batchSize == 0; }
  }

  /** How many keys are in the first `b` transactions. */
  function KeysBefore(total: nat, batchSize: nat, b: nat): nat
    requires batchSize > 0
  {
    if b == 0 then 0 else KeysBefore(total, batchSize, b - 1) + SizeOf(total, batchSize, b - 1)
  }

  /** How many keys a worker inserts in all its transactions. */
  function Emitted(total: nat, batchSize: nat): nat
    requires batchSize > 0
  {
    KeysBefore(total, batchSize, BatchCount(total, batchSize))
  }

  lemma {:induction false} FullBatches(total: nat, batchSize: nat, b: nat)
    requires batchSize > 0 && b < BatchCount(total, batchSize)
    ensures KeysBefore(total, batchSize, b) == b * batchSize
  {
    if b > 0 {
      FullBatches(total, batchSize, b - 1);
      assert b * batchSize == (b - 1) * batchSize + batchSize;
    }
  }

  /** The sizes add up to the total, or to one batch less when the last batch is empty. */
  lemma EmittedBound(total: nat, batchSize: nat)
    requires batchSize > 0
    ensures Emitted(total, batchSize) <= total
    ensures total > 0 ==> (Emitted(total, batchSize) == total <==> total % batchSize != 0)
    ensures total % batchSize == 0 && total > 0 ==> Emitted(total, batchSize) == total - batchSize
  {
    var q, r, n := total / batchSize, total % batchSize, BatchCount(total, batchSize);
    assert total == q * batchSize + r;
    if total > 0 {
      AtLeastOneBatch(total, batchSize);
      FullBatches(total, batchSize, n - 1);
      if r == 0 {
        assert (q - 1) * batchSize == q * batchSize - batchSize;
      }
    }
  }

  lemma KeysBeforeNext(total: nat, batchSize: nat, b: nat)
    requires batchSize > 0
    ensures KeysBefore(total, batchSize, 0) == 0
    ensures KeysBefore(total, batchSize, b + 1) == KeysBefore(total, batchSize, b) + SizeOf(total, batchSize, b)
    ensures Emitted(total, batchSize) == KeysBefore(total, batchSize, BatchCount(total, batchSize))
  {
  }

  /** The nested loops of one worker. */
  method BatchWorker(lower: nat, upper: nat, batchSize: nat, step: nat) returns (batches: seq<seq<nat>>)
    requires lower <= upper && batchSize > 0
    ensures var total := upper - lower + 1;
            Flatten(batches) == Walk(lower, step, total, Emitted(total, batchSize)) &&
            |batches| == BatchCount(total, batchSize) &&
            forall b | 0 <= b < |batches| :: |batches[b]| == SizeOf(total, batchSize, b)
  {
    hide *;
    var total := upper - lower + 1;
    var count := BatchCount(total, batchSize);
    var current: nat := 0;
    batches := [];
    StartOfWalk(lower, step, total);
    KeysBeforeNext(total, batchSize, 0);
    ghost var done: nat := 0;
    for b := 0 to count
      invariant |batches| == b && forall a | 0 <= a < b :: |batches[a]| == SizeOf(total, batchSize, a)
      invariant current == Position(step, total, done)
      invariant Flatten(batches) == Walk(lower, step, total, done)
      invariant done == KeysBefore(total, batchSize, b)
    {
      var thisBatch := batchSize;
      if b + 1 == count {
        thisBatch := total % batchSize;
      }
      KeysBeforeNext(total, batchSize, b);
      SizeIs(total, batchSize, b);
      var keys: seq<nat> := [];
      ghost var flat := Flatten(batches);
      for i := 0 to thisBatch
        invariant |keys| == i && current == Position(step, total, done + i)
        invariant flat + keys == Walk(lower, step, total, done + i)
      {
        NextPosition(step, total, done + i);
        WalkGrows(lower, step, total, done + i);
        current := (current + step) % total;
        keys := keys + [lower + current];
        assert flat + keys == Walk(lower, step, total, done + i) + [lower + current];
      }
      done := done + thisBatch;
      FlattenAppend(batches, keys);
      batches := batches + [keys];
    }
  }

  lemma StartOfWalk(lower: nat, step: nat, total: nat)
    requires total > 0
    ensures Position(step, total, 0) == 0 && Flatten<nat>([]) == Walk(lower, step, total, 0)
  {
  }

  lemma WalkGrows(lower: nat, step: nat, total: nat, n: nat)
    requires total > 0
    ensures Walk(lower, step, total, n + 1) == Walk(lower, step, total, n) + [lower + Position(step, total, n + 1)]
  {
  }

  lemma SizeIs(total: nat, batchSize: nat, b: nat)
    requires batchSize > 0
    ensures SizeOf(total, batchSize, b) == if b + 1 == BatchCount(total, batchSize) then total % batchSize else batchSize
  {
  }

  lemma AtLeastOneBatch(total: nat, batchSize: nat)
    requires total > 0 && batchSize > 0
    ensures BatchCount(total, batchSize) > 0
  {
    if total / batchSize == 0 { assert total == total % batchSize; }
  }

  /** Main result: the keys handed to transactions are never repeated; every key of the
      chunk is in some transaction iff the batch size does not divide the chunk, and
      otherwise exactly one batch of keys is missing. */
  lemma BatchesCoverIff(lower: nat, step: nat, total: nat, batchSize: nat)
    requires total > 0 && batchSize > 0 && IsGcd(1, total, step)
    ensures var keys := Walk(lower, step, total, Emitted(total, batchSize));
            NoRepeats(keys) && (Covers(keys, lower, total) <==> total % batchSize != 0) &&
            (total % batchSize == 0 ==> |keys| == total - batchSize)
  {
    hide IsGcd, Walk, Covers, NoRepeats;
    EmittedBound(total, batchSize);
    WalkIsPermutation(lower, step, total, Emitted(total, batchSize));
  }

  // ---------- All workers together ----------

  function TotalOf(keyCount: nat, threadCount: nat, offset: nat, i: nat): int
    requires i < threadCount
  {
    var c := WorkerChunk(keyCount, threadCount, i, offset);
    c.upper - c.lower + 1
  }

  /** The keys worker `i` hands to transactions. */
  ghost predicate Batched(keyCount: nat, threadCount: nat, offset: nat, steps: seq<nat>, batchSize: nat, i: nat, k: nat)
    requires 0 < threadCount == |steps| && batchSize > 0
  {
    i < threadCount && TotalOf(keyCount, threadCount, offset, i) > 0 &&
    var total: nat := TotalOf(keyCount, threadCount, offset, i);
    k in Walk(WorkerChunk(keyCount, threadCount, i, offset).lower, steps[i], total, Emitted(total, batchSize))
  }

  ghost predicate BatchedBySome(keyCount: nat, threadCount: nat, offset: nat, steps: seq<nat>, batchSize: nat, k: nat)
    requires 0 < threadCount == |steps| && batchSize > 0
  {
    exists i: nat :: Batched(keyCount, threadCount, offset, steps, batchSize, i, k)
  }

  lemma BatchedByOne(keyCount: nat, threadCount: nat, offset: nat, steps: seq<nat>, batchSize: nat, i: nat)
    requires i < threadCount == |steps| && batchSize > 0 && Ready(keyCount, threadCount, offset, steps, i)
    ensures forall k: nat | Batched(keyCount, threadCount, offset, steps, batchSize, i, k) ::
              InChunk(WorkerChunk(keyCount, threadCount, i, offset), k)
    ensures (forall k: nat | InChunk(WorkerChunk(keyCount, threadCount, i, offset), k) ::
               Batched(keyCount, threadCount, offset, steps, batchSize, i, k))
       <==> TotalOf(keyCount, threadCount, offset, i) % batchSize != 0
  {
    hide WorkerChunk, IsGcd, Walk, Emitted, NoRepeats;
    var c := WorkerChunk(keyCount, threadCount, i, offset);
    var total := c.upper - c.lower + 1;
    EmittedBound(total, batchSize);
    WalkIsPermutation(c.lower, steps[i], total, Emitted(total, batchSize));
    var keys := Walk(c.lower, steps[i], total, Emitted(total, batchSize));
    assert forall k: nat :: k in keys <==> Batched(keyCount, threadCount, offset, steps, batchSize, i, k);
    if total % batchSize == 0 {
      var k: nat :| c.lower <= k < c.lower + total && k !in keys;
      assert InChunk(c, k);
    }
  }

  /** Main result for InsertBatch: no two workers share a key, and every key of the
      interval is inserted iff the batch size divides no worker's share. */
  lemma BatchWorkersCoverIff(keyCount: nat, threadCount: nat, offset: nat, steps: seq<nat>, batchSize: nat)
    requires 0 < threadCount <= keyCount && |steps| == threadCount && batchSize > 0
    requires forall i | 0 <= i < threadCount :: Ready(keyCount, threadCount, offset, steps, i)
    ensures forall k: nat, i: nat, j: nat | Batched(keyCount, threadCount, offset, steps, batchSize, i, k)
                          && Batched(keyCount, threadCount, offset, steps, batchSize, j, k) :: i == j
    ensures (forall k: nat | offset < k <= offset + keyCount :: BatchedBySome(keyCount, threadCount, offset, steps, batchSize, k))
       <==> forall i | 0 <= i < threadCount :: TotalOf(keyCount, threadCount, offset, i) % batchSize != 0
  {
    hide WorkerChunk, Batched, TotalOf, Ready;
    ChunksDisjoint(keyCount, threadCount, offset);
    ChunksInside(keyCount, threadCount, offset);
    forall k: nat, i: nat | Batched(keyCount, threadCount, offset, steps, batchSize, i, k)
      ensures i < threadCount && InChunk(WorkerChunk(keyCount, threadCount, i, offset), k)
    {
      BatchedWorker(keyCount, threadCount, offset, steps, batchSize, i, k);
      BatchedByOne(keyCount, threadCount, offset, steps, batchSize, i);
    }
    if forall i | 0 <= i < threadCount :: TotalOf(keyCount, threadCount, offset, i) % batchSize != 0 {
      forall k: nat | offset < k <= offset + keyCount ensures BatchedBySome(keyCount, threadCount, offset, steps, batchSize, k) {
        var i := ChunkOf(keyCount, threadCount, offset, k);
        BatchedByOne(keyCount, threadCount, offset, steps, batchSize, i);
      }
    } else {
      var i :| 0 <= i < threadCount && TotalOf(keyCount, threadCount, offset, i) % batchSize == 0;
      BatchedByOne(keyCount, threadCount, offset, steps, batchSize, i);
      var k: nat :| InChunk(WorkerChunk(keyCount, threadCount, i, offset), k)
                 && !Batched(keyCount, threadCount, offset, steps, batchSize, i, k);
      assert !BatchedBySome(keyCount, threadCount, offset, steps, batchSize, k);
      assert offset < k <= offset + keyCount;
    }
  }

  lemma BatchedWorker(keyCount: nat, threadCount: nat, offset: nat, steps: seq<nat>, batchSize: nat, i: nat, k: nat)
    requires 0 < threadCount == |steps| && batchSize > 0 && Batched(keyCount, threadCount, offset, steps, batchSize, i, k)
    ensures i < threadCount
  {
  }
}
