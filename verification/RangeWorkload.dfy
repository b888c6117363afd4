/** `LookupRange::lookupRanges`: one thread's queries against the database. */
module RangeWorkload {
  import opened ByteStrings
  import opened Wrappers
  import opened Sequences
  import opened Keys
  import opened RocksDB
  import opened RangeScan
  import opened History
  import opened RangeExactness
  import opened RangeQueries
  import opened TimeSplit
  import opened Database

  /** Total number of documents. */
  function Total<T>(results: seq<seq<T>>): nat { |Flatten(results)| }

  lemma TotalGrows<T>(results: seq<seq<T>>, b: seq<T>)
    ensures Total(results + [b]) == Total(results) + |b|
  {
    FlattenAppend(results, b);
  }

  /** The documents of several reads are the documents of the reads joined. */
  lemma {:induction false} DocumentsOfAll(log: Log, answers: seq<seq<Revision>>, results: seq<seq<Option<Document>>>)
    requires |answers| == |results| && forall k | 0 <= k < |answers| :: results[k] == DocumentsOf(log, answers[k])
    ensures Flatten(results) == DocumentsOf(log, Flatten(answers))
    decreases |answers|
  {
    if answers != [] {
      var n := |answers| - 1;
      DocumentsOfAll(log, answers[..n], results[..n]);
      DocumentsOfJoin(log, Flatten(answers[..n]), answers[n]);
    }
  }

  lemma DocumentsOfJoin(log: Log, a: seq<Revision>, b: seq<Revision>)
    ensures DocumentsOf(log, a + b) == DocumentsOf(log, a) + DocumentsOf(log, b)
  {
    hide Inserted;
    var x, y := DocumentsOf(log, a + b), DocumentsOf(log, a) + DocumentsOf(log, b);
    forall i | 0 <= i < |x| ensures x[i] == y[i] {
      assert x[i] == Inserted(log, (a + b)[i]);
    }
  }

  /** Room in the clock's word for `n` more stamps. */
  predicate Room(last: nat, physicals: seq<nat>, n: nat) {
    last + n < 0x1_0000_0000_0000_0000 &&
    forall i | 0 <= i < |physicals| :: physicals[i] * 0x10_0000 + n < 0x1_0000_0000_0000_0000
  }

  lemma RoomForOne(last: nat, physicals: seq<nat>, n: nat, i: nat)
    requires Room(last, physicals, n) && 0 < n && i < |physicals|
    ensures last < 0xFFFF_FFFF_FFFF_FFFF && physicals[i] < 0x1000_0000_0000
    ensures Room(Clock.Tick(last, physicals[i]), physicals, n - 1)
  {
    Clock.TickValue(last, physicals[i]);
    hide Clock.Tick;
  }

  /** The answer to one query: its documents as of a revision past the log. */
  ghost predicate Answered(view: Store, p: Bytes, log: Log, v: Interval, revision: Revision, documents: seq<Option<Document>>) {
    IsRange(v) && revision >= Latest(log) && documents == DocumentsOf(log, Reported(RangeOf(view, p, v), revision))
  }

  lemma MakeAnswered(view: Store, p: Bytes, log: Log, v: Interval, revision: Revision, documents: seq<Option<Document>>, es: seq<Entry>)
    requires IsRange(v) && revision > LastRevision(log) && es == SI.Entries(view, p, v.lower, v.upper + 1)
    requires documents == DocumentsOf(log, Reported(es, revision))
    ensures Answered(view, p, log, v, revision, documents)
  {
    RangeOfIs(view, p, v);
    LatestIsLast(log);
    hide Reported, RangeOf, DocumentsOf, Latest, LastRevision, SI.Entries;
  }

  ghost predicate AllAnswered(view: Store, p: Bytes, log: Log, parts: seq<Interval>, revisions: seq<Revision>,
                              results: seq<seq<Option<Document>>>) {
    |revisions| == |results| <= |parts| &&
    forall k | 0 <= k < |results| :: Answered(view, p, log, parts[k], revisions[k], results[k])
  }

  lemma OneMoreAnswered(view: Store, p: Bytes, log: Log, parts: seq<Interval>, revisions: seq<Revision>,
                        results: seq<seq<Option<Document>>>, revision: Revision, documents: seq<Option<Document>>)
    requires AllAnswered(view, p, log, parts, revisions, results) && |results| < |parts|
    requires Answered(view, p, log, parts[|results|], revision, documents)
    ensures AllAnswered(view, p, log, parts, revisions + [revision], results + [documents])
  {
    hide Answered;
  }

  /** The intervals of one thread's queries. */
  ghost predicate AreQueries(v: Interval, expectedCount: nat, parts: seq<Interval>) {
    v.lower <= v.upper && expectedCount > 0 && |parts| == Chunks(v.lower, v.upper, expectedCount).0 &&
    forall k | 0 <= k < |parts| :: parts[k] == QueryPart(v.lower, v.upper, expectedCount, k)
  }

  lemma MakeQueries(v: Interval, expectedCount: nat, parts: seq<Interval>)
    requires v.lower <= v.upper && expectedCount > 0 && |parts| == Chunks(v.lower, v.upper, expectedCount).0
    requires forall k | 0 <= k < |parts| :: parts[k] == QueryPart(v.lower, v.upper, expectedCount, k)
    ensures AreQueries(v, expectedCount, parts)
  {
    hide QueryPart, Chunks;
  }

  lemma QueriesInRange(v: Interval, expectedCount: nat, parts: seq<Interval>, k: nat)
    requires IsRange(v) && AreQueries(v, expectedCount, parts) && k < |parts|
    ensures IsRange(parts[k])
  {
    QueriesAreCuts(v.lower, v.upper, expectedCount, parts);
    hide QueryPart, Chunks;
    CutsWithin(parts, 0, k);
    CutsWithin(parts, k, |parts| - 1);
  }

  lemma {:induction false} CutsWithin(parts: seq<Interval>, i: nat, j: nat)
    requires Contiguous(parts) && i <= j < |parts|
    ensures parts[i].lower <= parts[j].lower <= parts[j].upper && parts[i].upper <= parts[j].upper
    decreases j
  {
    if i < j { CutsWithin(parts, i, j - 1); }
  }

  ghost function ReportedBy(view: Store, p: Bytes, parts: seq<Interval>, revisions: seq<Revision>): (answers: seq<seq<Revision>>)
    requires |revisions| == |parts| && forall k | 0 <= k < |parts| :: IsRange(parts[k])
    ensures |answers| == |parts|
    ensures forall k | 0 <= k < |parts| :: answers[k] == Reported(RangeOf(view, p, parts[k]), revisions[k])
  {
    seq(|parts|, k requires 0 <= k < |parts| => Reported(RangeOf(view, p, parts[k]), revisions[k]))
  }

  /** All queries answered, under the conditions of exactness. */
  lemma AnswersAreSnapshot(view: Store, sp: Spaces, others: Store, log: Log, v: Interval, expectedCount: nat, parts: seq<Interval>,
                           revisions: seq<Revision>, results: seq<seq<Option<Document>>>)
    requires Represents(view, sp, others, log) && KeysAboveRevisions(log) && TimesMonotone(log) && IsRange(v)
    requires AreQueries(v, expectedCount, parts) && |results| == |parts|
    requires AllAnswered(view, sp.secondary, log, parts, revisions, results)
    ensures Flatten(results) == DocumentsOf(log, Snapshot(SI.Entries(view, sp.secondary, v.lower, v.upper + 1), Latest(log)))
  {
    hide Represents, KeysAboveRevisions, TimesMonotone, Snapshot, Reported, RangeOf, DocumentsOf, Flatten, Chunks, QueryPart, Latest;
    forall k | 0 <= k < |parts| ensures IsRange(parts[k]) {
      QueriesInRange(v, expectedCount, parts, k);
    }
    var answers := ReportedBy(view, sp.secondary, parts, revisions);
    assert forall k | 0 <= k < |parts| :: Answered(view, sp.secondary, log, parts[k], revisions[k], results[k]);
    DocumentsOfAll(log, answers, results);
    ThreadReadsWhole(view, sp, others, log, v, expectedCount, Answers(parts, revisions, answers));
    RangeOfIs(view, sp.secondary, v);
  }

  /** Each revision is the stamp drawn after the one before it. */
  ghost predicate Drawn(first: nat, physicals: seq<nat>, n: nat, revisions: seq<Revision>, last: nat) {
    n <= |physicals| && |revisions| == n && revisions == Stamps(first, physicals[..n]) &&
    last == (if n == 0 then first else revisions[n - 1]) && Ascending(first, revisions)
  }

  predicate Ascending(first: nat, revisions: seq<Revision>) {
    (forall i | 0 <= i < |revisions| :: first < revisions[i]) && forall i, j | 0 <= i < j < |revisions| :: revisions[i] < revisions[j]
  }

  /** All parts are read, or the last result is the first to exceed the limit. */
  predicate StopsAt<T>(results: seq<seq<T>>, rangeLimit: nat, parts: nat) {
    results != [] && Total(results[..|results| - 1]) <= rangeLimit && (Total(results) > rangeLimit || |results| == parts)
  }

  lemma MakeStopsAt<T>(results: seq<seq<T>>, rangeLimit: nat, parts: nat, i: nat)
    requires |results| == i > 0 && Total(results[..i - 1]) <= rangeLimit && (Total(results) > rangeLimit || i == parts)
    ensures StopsAt(results, rangeLimit, parts)
  {
    hide Total;
  }

  /** One query per part, each at a stamp of its own drawn just before, until all parts
      are read or more than `rangeLimit` documents have come back. Without that early exit
      and under the conditions of exactness the results are the documents of one snapshot
      of the whole interval. */
  method LookupRanges(database: Database, v: Interval, expectedCount: nat, rangeLimit: nat, physicals: seq<nat>, env: Env)
      returns (results: seq<seq<Option<Document>>>, parts: seq<Interval>, revisions: seq<Revision>)
    requires database.Represented() && IsRange(v) && expectedCount > 0
    requires |physicals| == Chunks(v.lower, v.upper, expectedCount).0 && |physicals| > 0 && database.Ahead(physicals[0])
    requires Room(database.clock.lastTimeStamp, physicals, |physicals|)
    modifies database.clock
    ensures database.Consistent() && AreQueries(v, expectedCount, parts) && 0 < |results| <= |parts|
    ensures AllAnswered(database.db.committed, database.Prefixes().secondary, database.log, parts, revisions, results)
    ensures Drawn(old(database.clock.lastTimeStamp), physicals, |results|, revisions, database.clock.lastTimeStamp)
    ensures StopsAt(results, rangeLimit, |parts|)
    ensures |results| == |parts| && KeysAboveRevisions(database.log) && TimesMonotone(database.log) ==>
              Flatten(results) == DocumentsOf(database.log, Snapshot(database.RangeEntries(v.lower, v.upper), Latest(database.log)))
  {
    hide *;
    RangeOfIs(database.db.committed, database.Prefixes().secondary, v);
    parts := QueryParts(v.lower, v.upper, expectedCount);
    MakeQueries(v, expectedCount, parts);
    ghost var view, p, log := database.db.committed, database.Prefixes().secondary, database.log;
    ghost var first := database.clock.lastTimeStamp;
    database.RepresentedMeans();
    results, revisions := [], [];
    var total := 0;
    NothingYet(view, p, log, parts);
    NoneDrawn(first, physicals);
    var i := 0;
    while i < |parts|
      invariant 0 <= i <= |parts| == |physicals| && |results| == i && total == Total(results) <= rangeLimit
      invariant database.db.committed == view && database.log == log
      invariant AllAnswered(view, p, log, parts, revisions, results)
      invariant database.Represented() && (i == 0 ==> database.Ahead(physicals[0])) && (i > 0 ==> database.Consistent())
      invariant Drawn(first, physicals, i, revisions, database.clock.lastTimeStamp)
      invariant Room(database.clock.lastTimeStamp, physicals, |physicals| - i)
      invariant i > 0 ==> Total(results[..i - 1]) <= rangeLimit
    {
      RoomForOne(database.clock.lastTimeStamp, physicals, |physicals| - i, i);
      if i > 0 {
        database.ConsistentIsAhead(physicals[i]);
      }
      QueriesInRange(v, expectedCount, parts, i);
      RangeOfIs(view, p, parts[i]);
      ghost var last := database.clock.lastTimeStamp;
      var revision := database.Now(physicals[i]);
      database.ConsistentIsRepresented();
      var documents := database.LookupRange(parts[i].lower, parts[i].upper, revision, env);
      OneMoreDrawn(first, physicals, i, revisions, last, revision);
      MakeAnswered(view, p, log, parts[i], revision, documents, database.RangeEntries(parts[i].lower, parts[i].upper));
      OneMoreAnswered(view, p, log, parts, revisions, results, revision, documents);
      TotalGrows(results, documents);
      assert (results + [documents])[..i] == results;
      results, revisions := results + [documents], revisions + [revision];
      total := total + |documents|;
      i := i + 1;
      if total > rangeLimit {
        break;
      }
    }
    MakeStopsAt(results, rangeLimit, |parts|, i);
    if |results| == |parts| && KeysAboveRevisions(log) && TimesMonotone(log) {
      AnswersAreSnapshot(view, database.Prefixes(), database.others, log, v, expectedCount, parts, revisions, results);
    }
  }

  lemma NothingYet(view: Store, p: Bytes, log: Log, parts: seq<Interval>)
    ensures AllAnswered(view, p, log, parts, [], []) && Total<Option<Document>>([]) == 0
  {
  }

  lemma AscendingGrows(first: nat, revisions: seq<Revision>, last: nat, revision: Revision)
    requires Ascending(first, revisions) && last == (if revisions == [] then first else revisions[|revisions| - 1]) && revision > last
    ensures Ascending(first, revisions + [revision])
  {
    if revisions != [] {
      var n := |revisions| - 1;
      assert forall i | 0 <= i <= n :: revisions[i] <= revisions[n];
      assert first < revisions[n];
    }
  }

  lemma NoneDrawn(first: nat, physicals: seq<nat>)
    ensures Drawn(first, physicals, 0, [], first)
  {
  }

  lemma OneMoreDrawn(first: nat, physicals: seq<nat>, n: nat, revisions: seq<Revision>, last: nat, revision: Revision)
    requires Drawn(first, physicals, n, revisions, last) && n < |physicals|
    requires revision == Clock.Tick(last, physicals[n]) && revision > last
    ensures Drawn(first, physicals, n + 1, revisions + [revision], revision)
  {
    StampsAppend(first, physicals[..n], physicals[n]);
    AscendingGrows(first, revisions, last, revision);
    hide Stamps, Clock.Tick, Ascending;
    assert physicals[..n + 1] == physicals[..n] + [physicals[n]];
  }
}
