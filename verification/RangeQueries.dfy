/** The range workload against the database: many answers of adjacent intervals, each at a
    revision of its own, compared with one snapshot of the whole interval. */
module RangeQueries {
  import opened ByteStrings
  import opened Sequences
  import opened Keys
  import opened RocksDB
  import opened RangeScan
  import opened SecondaryIndex
  import opened History
  import opened RangeHistory
  import opened RangeExactness
  import opened RangeSplit
  import opened TimeSplit

  /** An interval of 64-bit timestamps whose end can be stepped past. */
  predicate IsRange(v: Interval) {
    -0x8000_0000_0000_0000 <= v.lower <= v.upper < 0x7FFF_FFFF_FFFF_FFFF
  }

  ghost function RangeOf(view: Store, p: Bytes, v: Interval): seq<Entry>
    requires IsRange(v)
  {
    Entries(view, p, v.lower, v.upper + 1)
  }

  lemma RangeOfIs(view: Store, p: Bytes, v: Interval)
    requires IsRange(v)
    ensures -0x8000_0000_0000_0000 <= v.lower <= v.upper < 0x7FFF_FFFF_FFFF_FFFF
    ensures RangeOf(view, p, v) == Entries(view, p, v.lower, v.upper + 1)
  {
    hide Entries;
  }

  /** Adjacent intervals of timestamps. */
  ghost predicate Cuts(parts: seq<Interval>) {
    parts != [] && Contiguous(parts) && forall i | 0 <= i < |parts| :: IsRange(parts[i])
  }

  function Hull(parts: seq<Interval>): Interval
    requires parts != []
  {
    Interval(parts[0].lower, parts[|parts| - 1].upper)
  }

  lemma {:induction false} CutsOrdered(parts: seq<Interval>, i: nat, j: nat)
    requires Cuts(parts) && i < j < |parts|
    ensures parts[i].upper < parts[j].lower
    decreases j
  {
    if i < j - 1 { CutsOrdered(parts, i, j - 1); }
  }

  lemma HullIsRange(parts: seq<Interval>)
    requires Cuts(parts)
    ensures IsRange(Hull(parts))
  {
    if |parts| > 1 { CutsOrdered(parts, 0, |parts| - 1); }
  }

  lemma CutsFront(parts: seq<Interval>)
    requires Cuts(parts) && |parts| > 1
    ensures var n := |parts| - 1; Cuts(parts[..n]) && Hull(parts[..n]) == Interval(parts[0].lower, parts[n].lower - 1)
  {
  }

  // ---------- Snapshots of adjacent intervals ----------

  ghost predicate SnapshotsOf(view: Store, p: Bytes, parts: seq<Interval>, max: Revision, snaps: seq<seq<Revision>>) {
    |snaps| == |parts| && forall i | 0 <= i < |parts| :: IsRange(parts[i]) && snaps[i] == Snapshot(RangeOf(view, p, parts[i]), max)
  }

  /** However an interval is cut, the snapshots of the pieces join to that of the whole. */
  lemma {:induction false} SnapshotsOverCuts(view: Store, sp: Spaces, others: Store, log: Log, parts: seq<Interval>,
                                             max: Revision, snaps: seq<seq<Revision>>)
    requires Represents(view, sp, others, log) && Cuts(parts) && SnapshotsOf(view, sp.secondary, parts, max, snaps)
    ensures IsRange(Hull(parts)) && Flatten(snaps) == Snapshot(RangeOf(view, sp.secondary, Hull(parts)), max)
    decreases |parts|
  {
    hide Represents, Snapshot, Entries;
    HullIsRange(parts);
    var n := |parts| - 1;
    if n == 0 {
      assert snaps[..0] == [] && Flatten(snaps) == Flatten<Revision>([]) + snaps[0];
    } else {
      CutsFront(parts);
      SnapshotsOverCuts(view, sp, others, log, parts[..n], max, snaps[..n]);
      SnapshotsConcatenate(view, sp, others, log, parts[0].lower, parts[n].lower, parts[n].upper + 1, max);
    }
  }

  // ---------- Readers past the log ----------

  function Latest(log: Log): Revision { if log == [] then 0 else log[|log| - 1].rev }

  lemma VisiblePastLog(es: seq<Entry>, sp: Spaces, log: Log, start: Time, next: Time, p: nat, max: Revision)
    requires Valid(log) && Listed(es, sp, log, start, next) && p < |es| && Latest(log) <= max
    ensures Visible(es, p, max) <==> Visible(es, p, Latest(log))
  {
    hide *;
    LatestIsLast(log);
    UpToAll(log, max);
    UpToAll(log, Latest(log));
    VisibleIff(es, sp, log, start, next, p, max);
    VisibleIff(es, sp, log, start, next, p, Latest(log));
  }

  lemma LatestIsLast(log: Log)
    ensures Latest(log) == LastRevision(log)
  {
  }

  /** All readers past the log have one snapshot. */
  lemma SnapshotPastLog(view: Store, sp: Spaces, others: Store, log: Log, start: Time, next: Time, max: Revision)
    requires Represents(view, sp, others, log) && Latest(log) <= max
    ensures Snapshot(Entries(view, sp.secondary, start, next), max) == Snapshot(Entries(view, sp.secondary, start, next), Latest(log))
  {
    hide *;
    var es := Entries(view, sp.secondary, start, next);
    RepresentsFacts(view, sp, others, log);
    EntriesAreListed(view, sp, others, log, start, next);
    forall p | 0 <= p < |es| ensures Visible(es, p, max) <==> Visible(es, p, Latest(log)) {
      VisiblePastLog(es, sp, log, start, next, p, max);
    }
    SnapshotSame(es, max, Latest(log));
  }

  lemma SnapshotSame(es: seq<Entry>, m: Revision, n: Revision)
    requires forall p | 0 <= p < |es| :: Visible(es, p, m) <==> Visible(es, p, n)
    ensures Snapshot(es, m) == Snapshot(es, n)
  {
    hide Visible;
    PickSame(es, iset p: int | 0 <= p < |es| && Visible(es, p, m), iset p: int | 0 <= p < |es| && Visible(es, p, n), 0);
  }

  // ---------- Reads of adjacent intervals ----------

  /** What a row of range answers returned, each at its own revision, none older than the log. */
  ghost predicate ReadsOf(view: Store, p: Bytes, log: Log, parts: seq<Interval>, revisions: seq<Revision>, answers: seq<seq<Revision>>) {
    |answers| == |revisions| == |parts| &&
    forall i | 0 <= i < |parts| ::
      IsRange(parts[i]) && revisions[i] >= Latest(log) && answers[i] == Reported(RangeOf(view, p, parts[i]), revisions[i])
  }

  ghost predicate Exact(es: seq<Entry>, max: Revision) { EndedAreCovered(es, max) && CoveredHaveEnded(es, max) }

  ghost predicate AllExact(view: Store, p: Bytes, parts: seq<Interval>, revisions: seq<Revision>)
    requires |parts| == |revisions| && forall i | 0 <= i < |parts| :: IsRange(parts[i])
  {
    forall i | 0 <= i < |parts| :: Exact(RangeOf(view, p, parts[i]), revisions[i])
  }

  /** Where a read and a snapshot of one interval report, the revision is that of an event
      with its timestamp in the interval. */
  lemma SeenInRange(view: Store, sp: Spaces, others: Store, log: Log, v: Interval, max: Revision, r: Revision) returns (e: Event)
    requires Represents(view, sp, others, log) && IsRange(v)
    requires r in Reported(RangeOf(view, sp.secondary, v), max) || r in Snapshot(RangeOf(view, sp.secondary, v), max)
    ensures e in log && e.rev == r && v.lower <= e.doc.timestamp <= v.upper
  {
    hide *;
    var es := RangeOf(view, sp.secondary, v);
    RangeOfIs(view, sp.secondary, v);
    var start: Time, next: Time := v.lower, v.upper + 1;
    RepresentsFacts(view, sp, others, log);
    EntriesAreListed(view, sp, others, log, start, next);
    var i := SeenAt(es, max, r);
    e := EventOf(es, sp, log, start, next, i);
  }

  lemma SeenAt(es: seq<Entry>, max: Revision, r: Revision) returns (i: nat)
    requires r in Reported(es, max) || r in Snapshot(es, max)
    ensures i < |es| && es[i].rev == r
  {
    hide Visible, Emits, Pick;
    PickMembers(es, Emitted(es, max), 0, r);
    PickMembers(es, iset p: int | 0 <= p < |es| && Visible(es, p, max), 0, r);
    i :| 0 <= i < |es| && es[i].rev == r;
  }

  lemma ReadIsExactIff(view: Store, sp: Spaces, others: Store, log: Log, v: Interval, max: Revision)
    requires Represents(view, sp, others, log) && IsRange(v) && Latest(log) <= max
    ensures var es := RangeOf(view, sp.secondary, v);
            (Exact(es, max) <==> Reported(es, max) == Snapshot(es, Latest(log))) &&
            (Exact(es, max) <==> forall r :: r in Reported(es, max) <==> r in Snapshot(es, Latest(log)))
  {
    hide Represents, Entries, EndedAreCovered, CoveredHaveEnded, Reported, Snapshot;
    RangeReadIsExactIff(view, sp, others, log, v.lower, v.upper + 1, max, RangeOf(view, sp.secondary, v));
    SnapshotPastLog(view, sp, others, log, v.lower, v.upper + 1, max);
  }

  /** Main result on range queries, for every store the database can produce: however an
      interval is cut, and whatever revisions past the log the pieces are read at, the
      reads join to one snapshot of the whole iff each piece meets the exact condition. */
  lemma QueriesReadWholeIff(view: Store, sp: Spaces, others: Store, log: Log, parts: seq<Interval>, revisions: seq<Revision>,
                            answers: seq<seq<Revision>>, snaps: seq<seq<Revision>>)
    requires Represents(view, sp, others, log) && Cuts(parts)
    requires ReadsOf(view, sp.secondary, log, parts, revisions, answers)
    requires SnapshotsOf(view, sp.secondary, parts, Latest(log), snaps)
    ensures IsRange(Hull(parts))
    ensures Flatten(answers) == Snapshot(RangeOf(view, sp.secondary, Hull(parts)), Latest(log))
       <==> AllExact(view, sp.secondary, parts, revisions)
  {
    hide Represents, Entries, Exact, Reported, Snapshot, Flatten, Cuts;
    SnapshotsOverCuts(view, sp, others, log, parts, Latest(log), snaps);
    forall i | 0 <= i < |parts|
      ensures Exact(RangeOf(view, sp.secondary, parts[i]), revisions[i]) <==> answers[i] == snaps[i]
    {
      ReadIsExactIff(view, sp, others, log, parts[i], revisions[i]);
    }
    if AllExact(view, sp.secondary, parts, revisions) {
      assert answers == snaps;
    }
    if Flatten(answers) == Flatten(snaps) {
      forall i | 0 <= i < |parts| ensures Exact(RangeOf(view, sp.secondary, parts[i]), revisions[i]) {
        ReadIsExactIff(view, sp, others, log, parts[i], revisions[i]);
        forall r ensures r in answers[i] <==> r in snaps[i] {
          if r in answers[i] { MovesOver(view, sp, others, log, parts, revisions, answers, snaps, i, r); }
          if r in snaps[i] { MovesBack(view, sp, others, log, parts, revisions, answers, snaps, i, r); }
        }
      }
    }
  }

  lemma MovesOver(view: Store, sp: Spaces, others: Store, log: Log, parts: seq<Interval>, revisions: seq<Revision>,
                  answers: seq<seq<Revision>>, snaps: seq<seq<Revision>>, i: nat, r: Revision)
    requires Represents(view, sp, others, log) && Cuts(parts) && ReadsOf(view, sp.secondary, log, parts, revisions, answers)
    requires SnapshotsOf(view, sp.secondary, parts, Latest(log), snaps)
    requires Flatten(answers) == Flatten(snaps) && i < |parts| && r in answers[i]
    ensures r in snaps[i]
  {
    hide Represents, Entries, Reported, Snapshot, Flatten, Cuts;
    FlattenMembers(answers, r);
    FlattenMembers(snaps, r);
    var j :| 0 <= j < |snaps| && r in snaps[j];
    var e := SeenInRange(view, sp, others, log, parts[i], revisions[i], r);
    var f := SeenInRange(view, sp, others, log, parts[j], Latest(log), r);
    OnePart(view, sp, others, log, parts, i, j, e, f);
  }

  lemma MovesBack(view: Store, sp: Spaces, others: Store, log: Log, parts: seq<Interval>, revisions: seq<Revision>,
                  answers: seq<seq<Revision>>, snaps: seq<seq<Revision>>, i: nat, r: Revision)
    requires Represents(view, sp, others, log) && Cuts(parts) && ReadsOf(view, sp.secondary, log, parts, revisions, answers)
    requires SnapshotsOf(view, sp.secondary, parts, Latest(log), snaps)
    requires Flatten(answers) == Flatten(snaps) && i < |parts| && r in snaps[i]
    ensures r in answers[i]
  {
    hide Represents, Entries, Reported, Snapshot, Flatten, Cuts;
    FlattenMembers(answers, r);
    FlattenMembers(snaps, r);
    var j :| 0 <= j < |answers| && r in answers[j];
    var e := SeenInRange(view, sp, others, log, parts[i], Latest(log), r);
    var f := SeenInRange(view, sp, others, log, parts[j], revisions[j], r);
    OnePart(view, sp, others, log, parts, i, j, e, f);
  }

  lemma OnePart(view: Store, sp: Spaces, others: Store, log: Log, parts: seq<Interval>, i: nat, j: nat, e: Event, f: Event)
    requires Represents(view, sp, others, log) && Cuts(parts) && i < |parts| && j < |parts|
    requires e in log && f in log && e.rev == f.rev
    requires parts[i].lower <= e.doc.timestamp <= parts[i].upper && parts[j].lower <= f.doc.timestamp <= parts[j].upper
    ensures i == j
  {
    RepresentsFacts(view, sp, others, log);
    hide Represents, Valid;
    RevisionsUnique(log, e, f);
    if i < j { CutsOrdered(parts, i, j); }
    if j < i { CutsOrdered(parts, j, i); }
  }

  // ---------- Where every piece is exact ----------

  lemma PastLogNoLateDeletion(log: Log, start: Time, next: Time, max: Revision)
    requires Valid(log) && Latest(log) <= max
    ensures NoLateDeletion(log, start, next, max)
  {
    RevisionsBounded(log);
    hide Valid;
  }

  /** While keys keep clear of revisions and times do not go back, every reader past the
      log answers exactly. */
  lemma CurrentReadsAreExact(view: Store, sp: Spaces, others: Store, log: Log, v: Interval, max: Revision)
    requires Represents(view, sp, others, log) && IsRange(v) && Latest(log) <= max
    requires KeysAboveRevisions(log) && TimesMonotone(log)
    ensures Exact(RangeOf(view, sp.secondary, v), max)
  {
    hide Represents, Entries, EndedAreCovered, CoveredHaveEnded, Reported, Snapshot, Valid, NoLateDeletion, KeysAboveRevisions, TimesMonotone;
    RepresentsFacts(view, sp, others, log);
    PastLogNoLateDeletion(log, v.lower, v.upper + 1, max);
    RangeReadIsSnapshot(view, sp, others, log, v.lower, v.upper + 1, max, RangeOf(view, sp.secondary, v));
    RangeReadIsExactIff(view, sp, others, log, v.lower, v.upper + 1, max, RangeOf(view, sp.secondary, v));
  }

  ghost function SnapshotList(view: Store, p: Bytes, parts: seq<Interval>, max: Revision): (snaps: seq<seq<Revision>>)
    requires forall i | 0 <= i < |parts| :: IsRange(parts[i])
    ensures SnapshotsOf(view, p, parts, max, snaps)
  {
    seq(|parts|, i requires 0 <= i < |parts| => Snapshot(RangeOf(view, p, parts[i]), max))
  }

  lemma QueriesReadWhole(view: Store, sp: Spaces, others: Store, log: Log, parts: seq<Interval>, revisions: seq<Revision>,
                         answers: seq<seq<Revision>>)
    requires Represents(view, sp, others, log) && Cuts(parts) && ReadsOf(view, sp.secondary, log, parts, revisions, answers)
    requires KeysAboveRevisions(log) && TimesMonotone(log)
    ensures IsRange(Hull(parts)) && Flatten(answers) == Snapshot(RangeOf(view, sp.secondary, Hull(parts)), Latest(log))
  {
    hide Represents, Exact, Reported, Snapshot, Flatten, KeysAboveRevisions, TimesMonotone, RangeOf, Contiguous;
    var snaps := SnapshotList(view, sp.secondary, parts, Latest(log));
    forall i | 0 <= i < |parts| ensures Exact(RangeOf(view, sp.secondary, parts[i]), revisions[i]) {
      CurrentReadsAreExact(view, sp, others, log, parts[i], revisions[i]);
    }
    QueriesReadWholeIff(view, sp, others, log, parts, revisions, answers, snaps);
  }

  // ---------- The queries of a thread, and of all threads ----------

  /** The queries of one thread with their revisions and answers. */
  datatype Answers = Answers(parts: seq<Interval>, revisions: seq<Revision>, answers: seq<seq<Revision>>)

  ghost predicate IsThread(view: Store, p: Bytes, log: Log, v: Interval, expectedCount: nat, a: Answers) {
    v.lower <= v.upper && expectedCount > 0 && |a.parts| == Chunks(v.lower, v.upper, expectedCount).0 &&
    (forall k | 0 <= k < |a.parts| :: a.parts[k] == QueryPart(v.lower, v.upper, expectedCount, k)) &&
    ReadsOf(view, p, log, a.parts, a.revisions, a.answers)
  }

  lemma ThreadCuts(view: Store, p: Bytes, log: Log, v: Interval, expectedCount: nat, a: Answers)
    requires IsThread(view, p, log, v, expectedCount, a)
    ensures Cuts(a.parts) && Hull(a.parts) == v
  {
    hide RangeOf, QueryPart, Chunks;
    QueriesAreCuts(v.lower, v.upper, expectedCount, a.parts);
  }

  /** A thread reads its interval. */
  lemma ThreadReadsWhole(view: Store, sp: Spaces, others: Store, log: Log, v: Interval, expectedCount: nat, a: Answers)
    requires Represents(view, sp, others, log) && KeysAboveRevisions(log) && TimesMonotone(log)
    requires IsThread(view, sp.secondary, log, v, expectedCount, a)
    ensures IsRange(v) && Flatten(a.answers) == Snapshot(RangeOf(view, sp.secondary, v), Latest(log))
  {
    hide Represents, Snapshot, Flatten, KeysAboveRevisions, TimesMonotone, RangeOf, Cuts, Reported;
    ThreadCuts(view, sp.secondary, log, v, expectedCount, a);
    QueriesReadWhole(view, sp, others, log, a.parts, a.revisions, a.answers);
  }

  /** What the threads returned, in order. */
  ghost predicate IsWorkload(view: Store, p: Bytes, log: Log, min: int, max: int, expectedCount: nat, threads: seq<Answers>, results: seq<seq<Revision>>) {
    min <= max && threads != [] && |results| == |threads| &&
    forall i | 0 <= i < |threads| ::
      IsThread(view, p, log, ThreadPart(min, max, |threads|, i), expectedCount, threads[i]) && results[i] == Flatten(threads[i].answers)
  }

  /** Main result on the workload: all queries of all threads, each at its own revision
      past the log, return one snapshot of the whole interval iff there is one thread, or
      the span is at least the thread count, or nothing is live at the first timestamp. */
  lemma WorkloadReadsWholeIff(view: Store, sp: Spaces, others: Store, log: Log, min: int, max: int, expectedCount: nat,
                              threads: seq<Answers>, results: seq<seq<Revision>>)
    requires Represents(view, sp, others, log) && KeysAboveRevisions(log) && TimesMonotone(log)
    requires IsRange(Interval(min, max)) && IsWorkload(view, sp.secondary, log, min, max, expectedCount, threads, results)
    ensures Flatten(results) == Snapshot(RangeOf(view, sp.secondary, Interval(min, max)), Latest(log))
       <==> |threads| == 1 || max - min >= |threads|
            || Snapshot(RangeOf(view, sp.secondary, Interval(min, min)), Latest(log)) == []
  {
    hide Represents, Snapshot, Flatten, KeysAboveRevisions, TimesMonotone, RangeOf, IsThread, ThreadPart;
    var n := |threads|;
    var parts := seq(n, i requires 0 <= i < n => ThreadPart(min, max, n, i));
    forall i | 0 <= i < n ensures IsRange(parts[i]) && results[i] == Snapshot(RangeOf(view, sp.secondary, parts[i]), Latest(log)) {
      ThreadReadsWhole(view, sp, others, log, parts[i], expectedCount, threads[i]);
    }
    ThreadsAreCuts(min, max, n, parts);
    if n == 1 || max - min >= n {
      SnapshotsOverCuts(view, sp, others, log, parts, Latest(log), results);
    } else {
      CrowdedResults(results, Snapshot(RangeOf(view, sp.secondary, Interval(min, min)), Latest(log)));
    }
  }

  lemma CrowdedResults(results: seq<seq<Revision>>, first: seq<Revision>)
    requires |results| > 1 && forall i | 0 <= i < |results| - 1 :: results[i] == first
    ensures Flatten(results) == results[|results| - 1] <==> first == []
  {
    var n := |results| - 1;
    FlattenCopies(results[..n], first);
    assert Flatten(results) == Flatten(results[..n]) + results[n];
    if first != [] { assert n * |first| > 0; }
  }
}
