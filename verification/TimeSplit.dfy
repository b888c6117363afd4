/** `LookupRange`: the timestamp interval cut first over threads, then over queries. */
module TimeSplit {
  import opened Arithmetic
  import opened Stepping

  datatype Interval = Interval(lower: int, upper: int)

  predicate Inside(v: Interval, t: int) { v.lower <= t <= v.upper }

  predicate Disjoint(v: Interval, w: Interval) { v.upper < w.lower || w.upper < v.lower }

  /** Part `i` of `parts`, each `width` long; the last one reaches to `max`. Both levels
      are cut this way. */
  function Part(min: int, max: int, parts: nat, width: int, i: nat): Interval
    requires i < parts
  {
    var lower, upper := min + i * width, min + (i + 1) * width - 1;
    Interval(lower, if i == parts - 1 then max else if upper < lower then lower else upper)
  }

  /** `generateWorkerInput`. */
  function ThreadPart(min: int, max: int, threadCount: nat, i: nat): Interval
    requires min <= max && i < threadCount
  {
    Part(min, max, threadCount, (max - min) / threadCount, i)
  }

  // ---------- One level ----------

  lemma PartBounds(min: int, max: int, parts: nat, width: int, i: nat)
    requires i < parts && width >= 0 && parts * width <= max - min
    ensures min <= Part(min, max, parts, width, i).lower <= Part(min, max, parts, width, i).upper <= max
  {
    MulMonotone(0, i, width);
    MulMonotone(i + 1, parts, width);
    assert (i + 1) * width == i * width + width;
  }

  lemma PartsDisjoint(min: int, max: int, parts: nat, width: int, i: nat, j: nat)
    requires i < j < parts && width >= 1
    ensures Part(min, max, parts, width, i).upper < Part(min, max, parts, width, j).lower
  {
    MulMonotone(i + 1, j, width);
    assert (i + 1) * width == i * width + width;
  }

  lemma PartOf(min: int, max: int, parts: nat, width: int, t: int) returns (i: nat)
    requires parts > 0 && width >= 0 && min <= t <= max && parts * width <= max - min
    ensures i < parts && Inside(Part(min, max, parts, width, i), t)
  {
    if width == 0 {
      i := parts - 1;
      assert i * width == 0;
    } else {
      var q := (t - min) / width;
      QuotientBounds(t - min, width);
      i := if q < parts then q else parts - 1;
      MulMonotone(i, q, width);
      assert (q + 1) * width == q * width + width;
    }
  }

  lemma WidthFits(span: int, parts: nat)
    requires span >= 0 && parts > 0
    ensures 0 <= span / parts && parts * (span / parts) <= span
    ensures span / parts >= 1 <==> span >= parts
  {
    var q := span / parts;
    assert span == q * parts + span % parts;
    if q <= 0 { MulMonotone(q, 0, parts); } else { MulMonotone(1, q, parts); }
  }

  /** Over the threads: the parts lie inside the interval and cover it, and are pairwise
      disjoint iff there is one thread or the span is at least the thread count. */
  lemma ThreadsCover(min: int, max: int, threadCount: nat, t: int)
    requires min <= max && threadCount > 0
    ensures min <= t <= max <==> exists i :: 0 <= i < threadCount && Inside(ThreadPart(min, max, threadCount, i), t)
    ensures (forall i, j | 0 <= i < j < threadCount :: Disjoint(ThreadPart(min, max, threadCount, i), ThreadPart(min, max, threadCount, j)))
       <==> threadCount == 1 || max - min >= threadCount
  {
    var width := (max - min) / threadCount;
    WidthFits(max - min, threadCount);
    forall i | 0 <= i < threadCount ensures min <= ThreadPart(min, max, threadCount, i).lower && ThreadPart(min, max, threadCount, i).upper <= max {
      PartBounds(min, max, threadCount, width, i);
    }
    if min <= t <= max {
      var i := PartOf(min, max, threadCount, width, t);
      assert Inside(ThreadPart(min, max, threadCount, i), t);
    }
    if max - min >= threadCount {
      forall i, j | 0 <= i < j < threadCount ensures Disjoint(ThreadPart(min, max, threadCount, i), ThreadPart(min, max, threadCount, j)) {
        PartsDisjoint(min, max, threadCount, width, i, j);
      }
    } else if threadCount > 1 {
      var a, b := ThreadPart(min, max, threadCount, 0), ThreadPart(min, max, threadCount, 1);
      assert width == 0;
      assert !Disjoint(a, b);
    }
  }

  // ---------- Queries of one thread ----------

  /** ceil(expectedCount / 1000.0), exact for counts a double holds. */
  function QueryCount(expectedCount: nat): nat { (expectedCount + 999) / 1000 }

  /** Number and width of the queries after the adjustment for short intervals. */
  function Chunks(lower: int, upper: int, expectedCount: nat): (c: (nat, int))
    requires lower <= upper && expectedCount > 0
  {
    var width := (upper - lower) / QueryCount(expectedCount);
    if width == 0 then (if upper - lower >= 1 then upper - lower else 1, 1) else (QueryCount(expectedCount), width)
  }

  function QueryPart(lower: int, upper: int, expectedCount: nat, i: nat): Interval
    requires lower <= upper && expectedCount > 0 && i < Chunks(lower, upper, expectedCount).0
  {
    var c := Chunks(lower, upper, expectedCount);
    Part(lower, upper, c.0, c.1, i)
  }

  /** `c` thousands are just enough for the count. */
  predicate CountInThousands(expectedCount: nat, c: nat) { (c - 1) * 1000 < expectedCount <= c * 1000 }

  /** All intervals but the last have one length, the largest for which that many fit. */
  predicate Even(parts: seq<Interval>, min: int, max: int, width: nat) {
    (forall i | 0 <= i < |parts| - 1 :: parts[i].upper - parts[i].lower + 1 == width) &&
    |parts| * width <= max - min < |parts| * (width + 1)
  }

  ghost predicate EvenCut(parts: seq<Interval>, min: int, max: int) { exists width: nat :: Even(parts, min, max, width) }

  /** How many queries there are and how long: one for each thousand documents expected, or
      one for each step of a shorter span, of equal lengths. */
  lemma QueriesAreEven(lower: int, upper: int, expectedCount: nat, parts: seq<Interval>)
    requires lower <= upper && expectedCount > 0 && |parts| == Chunks(lower, upper, expectedCount).0
    requires forall i | 0 <= i < |parts| :: parts[i] == QueryPart(lower, upper, expectedCount, i)
    ensures exists c: nat :: CountInThousands(expectedCount, c) &&
              |parts| == if upper - lower >= c then c else if upper > lower then upper - lower else 1
    ensures lower < upper ==> EvenCut(parts, lower, upper)
  {
    var c, span := QueryCount(expectedCount), upper - lower;
    assert CountInThousands(expectedCount, c);
    WidthFits(span, c);
    var n, width := Chunks(lower, upper, expectedCount).0, Chunks(lower, upper, expectedCount).1;
    if lower < upper {
      if span >= c {
        WidthLargest(span, c);
      } else {
        assert n * width == span && n * (width + 1) == 2 * span;
      }
      PartLengths(lower, upper, n, width, parts);
      assert Even(parts, lower, upper, width);
    }
  }

  lemma WidthLargest(span: int, parts: nat)
    requires span >= 0 && parts > 0
    ensures parts * (span / parts) <= span < parts * (span / parts + 1)
  {
    assert span == span / parts * parts + span % parts;
    assert parts * (span / parts + 1) == parts * (span / parts) + parts;
  }

  lemma PartLengths(min: int, max: int, n: nat, width: int, parts: seq<Interval>)
    requires width >= 1 && |parts| == n && forall i | 0 <= i < n :: parts[i] == Part(min, max, n, width, i)
    ensures forall i | 0 <= i < n - 1 :: parts[i].upper - parts[i].lower + 1 == width
  {
    forall i | 0 <= i < n - 1 ensures parts[i].upper - parts[i].lower + 1 == width {
      assert (i + 1) * width == i * width + width;
    }
  }

  /** Likewise the intervals of the threads, when there are no more of them than the span. */
  lemma ThreadsAreEven(min: int, max: int, threadCount: nat, parts: seq<Interval>)
    requires min <= max && |parts| == threadCount > 0 && max - min >= threadCount
    requires forall i | 0 <= i < threadCount :: parts[i] == ThreadPart(min, max, threadCount, i)
    ensures EvenCut(parts, min, max)
  {
    var width := (max - min) / threadCount;
    WidthFits(max - min, threadCount);
    WidthLargest(max - min, threadCount);
    PartLengths(min, max, threadCount, width, parts);
    assert Even(parts, min, max, width);
  }

  method QueryParts(lower: int, upper: int, expectedCount: nat) returns (parts: seq<Interval>)
    requires lower <= upper && expectedCount > 0
    ensures |parts| == Chunks(lower, upper, expectedCount).0
    ensures forall i | 0 <= i < |parts| :: parts[i] == QueryPart(lower, upper, expectedCount, i)
    ensures exists c: nat :: CountInThousands(expectedCount, c) &&
              |parts| == if upper - lower >= c then c else if upper > lower then upper - lower else 1
    ensures lower < upper ==> EvenCut(parts, lower, upper)
    ensures parts != [] && Contiguous(parts) && parts[0].lower == lower && parts[|parts| - 1].upper == upper
  {
    var chunks := QueryCount(expectedCount);
    var chunkTime := (upper - lower) / chunks;
    if chunkTime == 0 {
      chunks := if upper - lower >= 1 then upper - lower else 1;
      chunkTime := 1;
    }
    parts := [];
    for i := 0 to chunks
      invariant |parts| == i && forall k | 0 <= k < i :: parts[k] == Part(lower, upper, chunks, chunkTime, k)
    {
      var thisLower := lower + i * chunkTime;
      var thisUpper := lower + (i + 1) * chunkTime - 1;
      if thisUpper < thisLower {
        thisUpper := thisLower;
      }
      if i == chunks - 1 {
        thisUpper := upper;
      }
      parts := parts + [Interval(thisLower, thisUpper)];
    }
    QueriesAreEven(lower, upper, expectedCount, parts);
    QueriesAreCuts(lower, upper, expectedCount, parts);
  }

  lemma ChunksFit(lower: int, upper: int, expectedCount: nat)
    requires lower <= upper && expectedCount > 0
    ensures var c := Chunks(lower, upper, expectedCount);
            c.0 >= 1 && c.1 >= 1 && (c.0 * c.1 <= upper - lower || (c.0 == 1 && lower == upper))
  {
    WidthFits(upper - lower, QueryCount(expectedCount));
  }

  /** Over the queries of a thread: always disjoint, in order, and exactly covering. */
  lemma QueriesPartition(lower: int, upper: int, expectedCount: nat, t: int)
    requires lower <= upper && expectedCount > 0
    ensures var n := Chunks(lower, upper, expectedCount).0;
            (lower <= t <= upper <==> exists i :: 0 <= i < n && Inside(QueryPart(lower, upper, expectedCount, i), t)) &&
            (forall i, j | 0 <= i < j < n ::
              QueryPart(lower, upper, expectedCount, i).upper < QueryPart(lower, upper, expectedCount, j).lower)
  {
    var c := Chunks(lower, upper, expectedCount);
    ChunksFit(lower, upper, expectedCount);
    var n, width := c.0, c.1;
    forall i, j | 0 <= i < j < n ensures QueryPart(lower, upper, expectedCount, i).upper < QueryPart(lower, upper, expectedCount, j).lower {
      PartsDisjoint(lower, upper, n, width, i, j);
    }
    if lower < upper {
      forall i | 0 <= i < n ensures lower <= QueryPart(lower, upper, expectedCount, i).lower && QueryPart(lower, upper, expectedCount, i).upper <= upper {
        PartBounds(lower, upper, n, width, i);
      }
      if lower <= t <= upper {
        var i := PartOf(lower, upper, n, width, t);
        assert Inside(QueryPart(lower, upper, expectedCount, i), t);
      }
    } else {
      assert n == 1;
      assert QueryPart(lower, upper, expectedCount, 0) == Interval(lower, upper);
    }
  }

  /** Main result: the queries of all threads together touch exactly the timestamps of
      the interval. */
  lemma AllQueriesCover(min: int, max: int, threadCount: nat, expectedCount: nat, t: int)
    requires min <= max && threadCount > 0 && expectedCount > 0
    ensures min <= t <= max <==> exists i, k :: Queried(min, max, threadCount, expectedCount, i, k, t)
  {
    ThreadsCover(min, max, threadCount, t);
    if min <= t <= max {
      var i :| 0 <= i < threadCount && Inside(ThreadPart(min, max, threadCount, i), t);
      var k := QueryOf(min, max, threadCount, expectedCount, i, t);
    }
    forall i, k | Queried(min, max, threadCount, expectedCount, i, k, t) ensures min <= t <= max {
      QueriedInside(min, max, threadCount, expectedCount, i, k, t);
    }
  }

  lemma QueryOf(min: int, max: int, threadCount: nat, expectedCount: nat, i: nat, t: int) returns (k: nat)
    requires min <= max && i < threadCount && expectedCount > 0 && Inside(ThreadPart(min, max, threadCount, i), t)
    ensures Queried(min, max, threadCount, expectedCount, i, k, t)
  {
    var v := ThreadPart(min, max, threadCount, i);
    QueriesPartition(v.lower, v.upper, expectedCount, t);
    k :| 0 <= k < Chunks(v.lower, v.upper, expectedCount).0 && Inside(QueryPart(v.lower, v.upper, expectedCount, k), t);
  }

  /** And each by one query only, for all timestamps, iff there is one thread or the span
      is at least the thread count. */
  lemma AllQueriesOnceIff(min: int, max: int, threadCount: nat, expectedCount: nat)
    requires min <= max && threadCount > 0 && expectedCount > 0
    ensures threadCount == 1 || max - min >= threadCount
       <==> forall t, i, k, i', k' | Queried(min, max, threadCount, expectedCount, i, k, t)
                                  && Queried(min, max, threadCount, expectedCount, i', k', t) :: i == i' && k == k'
  {
    ThreadsCover(min, max, threadCount, min);
    hide ThreadPart, QueryPart, Chunks, Queried;
    if threadCount == 1 || max - min >= threadCount {
      forall t, i, k, i', k' | Queried(min, max, threadCount, expectedCount, i, k, t)
                            && Queried(min, max, threadCount, expectedCount, i', k', t) ensures i == i' && k == k'
      {
        QueriedInside(min, max, threadCount, expectedCount, i, k, t);
        QueriedInside(min, max, threadCount, expectedCount, i', k', t);
        assert i == i';
        QueriedOnce(min, max, threadCount, expectedCount, i, k, k', t);
      }
    } else {
      var i, j :| 0 <= i < j < threadCount && !Disjoint(ThreadPart(min, max, threadCount, i), ThreadPart(min, max, threadCount, j));
      var a, b := ThreadPart(min, max, threadCount, i), ThreadPart(min, max, threadCount, j);
      ThreadPartProper(min, max, threadCount, i);
      ThreadPartProper(min, max, threadCount, j);
      var t := if a.lower >= b.lower then a.lower else b.lower;
      var k := QueryOf(min, max, threadCount, expectedCount, i, t);
      var k' := QueryOf(min, max, threadCount, expectedCount, j, t);
    }
  }

  lemma ThreadPartProper(min: int, max: int, threadCount: nat, i: nat)
    requires min <= max && i < threadCount
    ensures min <= ThreadPart(min, max, threadCount, i).lower <= ThreadPart(min, max, threadCount, i).upper <= max
  {
    WidthFits(max - min, threadCount);
    PartBounds(min, max, threadCount, (max - min) / threadCount, i);
  }

  lemma QueriedOnce(min: int, max: int, threadCount: nat, expectedCount: nat, i: nat, k: nat, k': nat, t: int)
    requires min <= max && expectedCount > 0
    requires Queried(min, max, threadCount, expectedCount, i, k, t) && Queried(min, max, threadCount, expectedCount, i, k', t)
    ensures k == k'
  {
    var v := ThreadPart(min, max, threadCount, i);
    QueriesPartition(v.lower, v.upper, expectedCount, t);
  }

  /** Query `k` of thread `i` asks for timestamp `t`. */
  ghost predicate Queried(min: int, max: int, threadCount: nat, expectedCount: nat, i: nat, k: nat, t: int)
    requires min <= max && expectedCount > 0
  {
    i < threadCount &&
    var v := ThreadPart(min, max, threadCount, i);
    v.lower <= v.upper && k < Chunks(v.lower, v.upper, expectedCount).0 && Inside(QueryPart(v.lower, v.upper, expectedCount, k), t)
  }

  lemma QueriedInside(min: int, max: int, threadCount: nat, expectedCount: nat, i: nat, k: nat, t: int)
    requires min <= max && threadCount > 0 && expectedCount > 0 && Queried(min, max, threadCount, expectedCount, i, k, t)
    ensures i < threadCount && Inside(ThreadPart(min, max, threadCount, i), t) && min <= t <= max
  {
    var v := ThreadPart(min, max, threadCount, i);
    QueriesPartition(v.lower, v.upper, expectedCount, t);
    ThreadsCover(min, max, threadCount, t);
  }

  // ---------- As cuts ----------

  /** Each interval begins where the one before it ends. */
  predicate Contiguous(parts: seq<Interval>) {
    (forall i | 0 <= i < |parts| :: parts[i].lower <= parts[i].upper) &&
    forall i | 0 < i < |parts| :: parts[i].lower == parts[i - 1].upper + 1
  }

  lemma CutsContiguous(min: int, max: int, parts: nat, width: int, cuts: seq<Interval>)
    requires parts > 0 && width >= 1 && (parts * width <= max - min || (parts == 1 && min <= max))
    requires |cuts| == parts && forall i | 0 <= i < parts :: cuts[i] == Part(min, max, parts, width, i)
    ensures Contiguous(cuts) && cuts[0].lower == min && cuts[parts - 1].upper == max
  {
    forall i | 0 <= i < parts ensures cuts[i].lower <= cuts[i].upper {
      if parts * width <= max - min { PartBounds(min, max, parts, width, i); }
    }
    forall i | 0 < i < parts ensures cuts[i].lower == cuts[i - 1].upper + 1 {
      assert cuts[i - 1] == Part(min, max, parts, width, i - 1);
      assert (i - 1 + 1) * width == i * width == (i - 1) * width + width;
    }
  }

  /** The queries of a thread cut its interval. */
  lemma QueriesAreCuts(lower: int, upper: int, expectedCount: nat, parts: seq<Interval>)
    requires lower <= upper && expectedCount > 0 && |parts| == Chunks(lower, upper, expectedCount).0
    requires forall i | 0 <= i < |parts| :: parts[i] == QueryPart(lower, upper, expectedCount, i)
    ensures parts != [] && Contiguous(parts) && parts[0].lower == lower && parts[|parts| - 1].upper == upper
  {
    ChunksFit(lower, upper, expectedCount);
    var c := Chunks(lower, upper, expectedCount);
    CutsContiguous(lower, upper, c.0, c.1, parts);
  }

  /** The threads cut the interval when there are no more of them than the span; otherwise
      all but the last are left with its first timestamp and the last has all of it. */
  lemma ThreadsAreCuts(min: int, max: int, threadCount: nat, parts: seq<Interval>)
    requires min <= max && |parts| == threadCount > 0
    requires forall i | 0 <= i < threadCount :: parts[i] == ThreadPart(min, max, threadCount, i)
    ensures threadCount == 1 || max - min >= threadCount ==>
              Contiguous(parts) && parts[0].lower == min && parts[threadCount - 1].upper == max
    ensures !(threadCount == 1 || max - min >= threadCount) ==>
              (forall i | 0 <= i < threadCount - 1 :: parts[i] == Interval(min, min)) && parts[threadCount - 1] == Interval(min, max)
  {
    var width := (max - min) / threadCount;
    WidthFits(max - min, threadCount);
    if max - min >= threadCount {
      CutsContiguous(min, max, threadCount, width, parts);
    }
  }
}
