/** The main results about the range read: what a reader at a revision should see, that
    nothing else is ever returned, and exactly when nothing is missed. */
module RangeExactness {
  import opened ByteStrings
  import opened Arithmetic
  import opened Comparator
  import opened Wrappers
  import opened Keys
  import opened RocksDB
  import opened RangeScan
  import opened SecondaryIndex
  import opened History
  import opened RangeHistory

  // ---------- Adjacency ----------

  /** Every byte of a user key exceeds the first byte of every revision so far. Decimal
      keys meet this while the first revision byte is below '0'. */
  ghost predicate KeysAboveRevisions(log: Log) {
    forall e, f, i | e in log && f in log && 0 <= i < |e.key| :: e.key[i] > IntToString(f.rev)[0]
  }

  lemma {:induction false} BigEndianFirst(n: nat, width: nat)
    requires n < Pow256(width) && width > 0
    ensures BigEndian(n, width)[0] == n / Pow256(width - 1)
    decreases width
  {
    if width > 1 {
      BigEndianFirst(n / 256, width - 1);
      DivideTwice(n, Pow256(width - 2));
    }
  }

  lemma DivideTwice(n: nat, d: nat)
    requires d > 0
    ensures n / (256 * d) == n / 256 / d
  {
    var q := n / 256 / d;
    var r := n / 256 % d;
    assert n / 256 == q * d + r;
    assert n == q * (256 * d) + (256 * r + n % 256);
    QuotientUnique(n, 256 * d, q, 256 * r + n % 256);
  }

  lemma QuotientUnique(n: nat, d: nat, q: nat, r: nat)
    requires d > 0 && n == q * d + r && r < d
    ensures n / d == q
  {
    var p := n / d;
    assert p * d <= n < p * d + d;
    if p < q { MulMonotone(p + 1, q, d); }
    if p > q { MulMonotone(q + 1, p, d); }
  }

  /** A bound a caller can check: all key bytes above the top byte of the last revision. */
  lemma KeysAboveLast(log: Log)
    requires Valid(log)
    requires forall e, i | e in log && 0 <= i < |e.key| :: e.key[i] > LastRevision(log) / 0x100_0000_0000_0000
    ensures KeysAboveRevisions(log)
  {
    RevisionsBounded(log);
    forall e, f, i | e in log && f in log && 0 <= i < |e.key| ensures e.key[i] > IntToString(f.rev)[0] {
      FirstRevisionByte(f.rev);
      TopByteMonotone(f.rev, LastRevision(log));
    }
  }

  lemma FirstRevisionByte(r: Revision)
    ensures IntToString(r)[0] == r / 0x100_0000_0000_0000
  {
    PowersOf256();
    StringsAreBigEndian(r, 8);
    BigEndianFirst(r, 8);
    assert Pow256(7) == 0x100_0000_0000_0000;
  }

  lemma TopByteMonotone(m: nat, n: nat)
    requires m <= n
    ensures m / 0x100_0000_0000_0000 <= n / 0x100_0000_0000_0000
  {
  }

  /** Between two entries of one key lies no entry of another key. */
  lemma NoInterleaving(key: Bytes, r1: Bytes, key': Bytes, r: Bytes, r2: Bytes)
    requires |r1| == |r| == |r2| == 8
    requires Lex(key + r1, key' + r) <= 0 && Lex(key' + r, key + r2) <= 0
    requires forall i | 0 <= i < |key| :: key[i] > r[0]
    requires forall i | 0 <= i < |key'| :: key'[i] > r2[0]
    ensures key == key'
  {
    var b := key' + r;
    hide Lex;
    LexBetween(key, key + r1, b, key + r2);
    NotLonger(key, key', r);
    CharAt(key', r, |key|);
    if |key'| > |key| {
      LexAfter(key, b, r2);
    } else {
      SamePrefix(key, key', r);
    }
  }

  lemma LexAfter(key: Bytes, b: Bytes, r2: Bytes)
    requires key <= b && |b| > |key| && r2 != [] && Lex(b, key + r2) <= 0
    ensures b[|key|] <= r2[0]
  {
    var z := b[|key|..];
    assert b == key + z;
    LexCommonPrefix(key, z, r2);
    FirstBytes(z, r2);
  }

  lemma NotLonger(key: Bytes, key': Bytes, r: Bytes)
    requires r != [] && key <= key' + r
    requires forall i | 0 <= i < |key| :: key[i] > r[0]
    ensures |key| <= |key'|
  {
    assert (key' + r)[|key'|] == r[0];
  }

  lemma CharAt(a: Bytes, b: Bytes, i: nat)
    requires i < |a| + |b|
    ensures (a + b)[i] == if i < |a| then a[i] else b[i - |a|]
  {
  }

  lemma SamePrefix(k: Bytes, a: Bytes, b: Bytes)
    requires k <= a + b && |k| == |a|
    ensures k == a
  {
    assert k == (a + b)[..|a|];
  }

  lemma FirstBytes(a: seq<int>, b: seq<int>)
    requires |a| > 0 && |b| > 0 && Lex(a, b) <= 0
    ensures a[0] <= b[0]
  {
  }

  lemma KeyRank(sp: Spaces, x: Entry)
    requires ValidSpaces(sp)
    ensures Rank(KeyOf(sp, x)) == sp.secondary + ([x.time] + (x.key + IntToString(x.rev)))
  {
    SecondaryKeyShape(sp, x.time, x.key, x.rev);
    KeyOfIs(sp, x);
    hide *;
    Regroup(sp.secondary, x.time, x.key, IntToString(x.rev));
  }

  lemma Regroup(a: seq<int>, b: int, c: seq<int>, d: seq<int>)
    ensures a + [b] + c + d == a + ([b] + (c + d))
  {
  }

  lemma LessIs(k: Bytes, j: Bytes)
    ensures Less(k, j) <==> Lex(Rank(k), Rank(j)) < 0
  {
  }

  lemma EntriesOrdered(sp: Spaces, x: Entry, y: Entry)
    requires ValidSpaces(sp) && Less(KeyOf(sp, x), KeyOf(sp, y))
    ensures x.time <= y.time
    ensures x.time == y.time ==> Lex(x.key + IntToString(x.rev), y.key + IntToString(y.rev)) < 0
    ensures SamePair(x, y) ==> x.rev < y.rev
  {
    var a, b := x.key + IntToString(x.rev), y.key + IntToString(y.rev);
    KeyRank(sp, x);
    KeyRank(sp, y);
    LessIs(KeyOf(sp, x), KeyOf(sp, y));
    IntStrings(x.rev, y.rev);
    hide IsEntryKey, Rank, IntToString, KeyOf, Lex, Less;
    LexCommonPrefix(sp.secondary, [x.time] + a, [y.time] + b);
    LexHeads([x.time], [y.time], a, b);
    LexOfSingles(x.time, y.time);
    if SamePair(x, y) {
      LexCommonPrefix(x.key, IntToString(x.rev), IntToString(y.rev));
    }
  }

  // ---------- The log behind adjacent entries ----------

  lemma {:induction false} EventFollowedPast(log: Log, f: Event)
    requires Valid(log) && f in log
    ensures f.rev > 0 && Follows(UpTo(log, f.rev - 1), f) && Valid(UpTo(log, f.rev - 1))
  {
    var front, last := log[..|log| - 1], log[|log| - 1];
    assert log == front + [last];
    RevisionsBounded(log);
    if f in front {
      RevisionsBounded(front);
      EventFollowedPast(front, f);
    } else {
      UpToAll(front, f.rev - 1);
    }
  }

  /** Consecutive events of one timestamp and key alternate. */
  lemma ConsecutiveAlternate(log: Log, e: Event, f: Event)
    requires Valid(log) && e in log && f in log && e.rev < f.rev
    requires e.key == f.key && e.doc.timestamp == f.doc.timestamp
    requires forall g | g in log && g.key == e.key && g.doc.timestamp == e.doc.timestamp :: g.rev <= e.rev || g.rev >= f.rev
    ensures e.dead != f.dead
  {
    hide UpTo, Newest, NewestPair, Valid;
    EventFollowedPast(log, f);
    var past := UpTo(log, f.rev - 1);
    UpToKeeps(log, f.rev - 1);
    NewestPairIsLast(past, e.doc.timestamp, e.key);
    var n := NewestPair(past, e.doc.timestamp, e.key);
    RevisionsUnique(log, n.value, e);
    PairFollowsKey(past, e.doc.timestamp, e.key);
  }

  /** Entries of a listed range are grouped when no key interleaves with revisions. */
  lemma ListedIsGrouped(es: seq<Entry>, sp: Spaces, log: Log, start: Time, next: Time)
    requires ValidSpaces(sp) && Valid(log) && Listed(es, sp, log, start, next) && KeysAboveRevisions(log)
    ensures Grouped(es)
  {
    hide *;
    forall i, j, k | 0 <= i < j < k < |es| && SamePair(es[i], es[k]) ensures SamePair(es[i], es[j]) {
      AdjacentInPair(es, sp, log, start, next, i, j, k);
    }
    forall i, j | 0 <= i < j < |es| && SamePair(es[i], es[j]) ensures es[i].rev < es[j].rev {
      ListedLess(es, sp, log, start, next, i, j);
      EntriesOrdered(sp, es[i], es[j]);
    }
    forall i | 0 <= i < |es| - 1 && SamePair(es[i], es[i + 1]) ensures es[i].dead != es[i + 1].dead {
      AlternatesAt(es, sp, log, start, next, i);
    }
    MakeGrouped(es);
  }

  lemma ListedLess(es: seq<Entry>, sp: Spaces, log: Log, start: Time, next: Time, i: nat, j: nat)
    requires Listed(es, sp, log, start, next) && i < j < |es|
    ensures Less(KeyOf(sp, es[i]), KeyOf(sp, es[j]))
  {
  }

  lemma MakeGrouped(es: seq<Entry>)
    requires forall i, j, k | 0 <= i < j < k < |es| && SamePair(es[i], es[k]) :: SamePair(es[i], es[j])
    requires forall i, j | 0 <= i < j < |es| && SamePair(es[i], es[j]) :: es[i].rev < es[j].rev
    requires forall i | 0 <= i < |es| - 1 && SamePair(es[i], es[i + 1]) :: es[i].dead != es[i + 1].dead
    ensures Grouped(es)
  {
    hide SamePair;
  }

  lemma EventOf(es: seq<Entry>, sp: Spaces, log: Log, start: Time, next: Time, i: nat) returns (e: Event)
    requires Listed(es, sp, log, start, next) && i < |es|
    ensures e in log && EntryIs(es[i], e) && start <= e.doc.timestamp < next
    ensures e.key == es[i].key && e.rev == es[i].rev && e.dead == es[i].dead && e.doc.timestamp == es[i].time
  {
    assert HasEvent(log, es[i]);
    e :| e in log && EntryIs(es[i], e);
  }

  lemma IndexOfEvent(es: seq<Entry>, sp: Spaces, log: Log, start: Time, next: Time, e: Event) returns (i: nat)
    requires Listed(es, sp, log, start, next) && e in log && start <= e.doc.timestamp < next
    ensures i < |es| && e.key == es[i].key && e.rev == es[i].rev && e.dead == es[i].dead && e.doc.timestamp == es[i].time
  {
    assert HasEntry(es, e);
    i :| 0 <= i < |es| && EntryIs(es[i], e);
  }

  lemma AdjacentInPair(es: seq<Entry>, sp: Spaces, log: Log, start: Time, next: Time, i: nat, j: nat, k: nat)
    requires ValidSpaces(sp) && Listed(es, sp, log, start, next) && KeysAboveRevisions(log)
    requires i < j < k < |es| && SamePair(es[i], es[k])
    ensures SamePair(es[i], es[j])
  {
    hide *;
    var e := EventOf(es, sp, log, start, next, i);
    var f := EventOf(es, sp, log, start, next, j);
    var g := EventOf(es, sp, log, start, next, k);
    ListedLess(es, sp, log, start, next, i, j);
    ListedLess(es, sp, log, start, next, j, k);
    EntriesOrdered(sp, es[i], es[j]);
    EntriesOrdered(sp, es[j], es[k]);
    PairFields(es[i], es[k]);
    PairFields(es[i], es[j]);
    KeyAbove(log, e, g);
    KeyAbove(log, e, f);
    KeyAbove(log, f, g);
    NoInterleaving(es[i].key, IntToString(es[i].rev), es[j].key, IntToString(es[j].rev), IntToString(es[k].rev));
  }

  lemma AlternatesAt(es: seq<Entry>, sp: Spaces, log: Log, start: Time, next: Time, i: nat)
    requires ValidSpaces(sp) && Valid(log) && Listed(es, sp, log, start, next)
    requires i < |es| - 1 && SamePair(es[i], es[i + 1])
    ensures es[i].dead != es[i + 1].dead
  {
    hide *;
    var e := EventOf(es, sp, log, start, next, i);
    var f := EventOf(es, sp, log, start, next, i + 1);
    PairFields(es[i], es[i + 1]);
    ListedLess(es, sp, log, start, next, i, i + 1);
    EntriesOrdered(sp, es[i], es[i + 1]);
    forall g | g in log && g.key == e.key && g.doc.timestamp == e.doc.timestamp ensures g.rev <= e.rev || g.rev >= f.rev {
      var m := IndexOfEvent(es, sp, log, start, next, g);
      PairFields(es[m], es[i]);
      PairFields(es[i + 1], es[m]);
      if m < i {
        ListedLess(es, sp, log, start, next, m, i);
        EntriesOrdered(sp, es[m], es[i]);
      } else if m > i + 1 {
        ListedLess(es, sp, log, start, next, i + 1, m);
        EntriesOrdered(sp, es[i + 1], es[m]);
      }
    }
    ConsecutiveAlternate(log, e, f);
  }

  lemma KeyAbove(log: Log, e: Event, f: Event)
    requires KeysAboveRevisions(log) && e in log && f in log
    ensures forall i | 0 <= i < |e.key| :: e.key[i] > IntToString(f.rev)[0]
  {
  }

  lemma PairFields(x: Entry, y: Entry)
    ensures SamePair(x, y) <==> x.time == y.time && x.key == y.key
  {
  }

  // ---------- What should be seen ----------

  /** A visible entry is the newest event of its key as of `max`, and that is live. */
  lemma VisibleIff(es: seq<Entry>, sp: Spaces, log: Log, start: Time, next: Time, p: nat, max: Revision)
    requires Valid(log) && Listed(es, sp, log, start, next) && p < |es|
    ensures Visible(es, p, max)
       <==> IsLive(UpTo(log, max), es[p].key) && Newest(UpTo(log, max), es[p].key).value.rev == es[p].rev
  {
    var e := EventOf(es, sp, log, start, next, p);
    var past := UpTo(log, max);
    UpToKeeps(log, max);
    NewestIsLast(past, e.key);
    var n := Newest(past, e.key);
    hide UpTo, Newest, Listed;
    if n.Some? && n.value.rev == e.rev && !n.value.dead {
      RevisionsUnique(log, n.value, e);
      forall q | 0 <= q < |es| && SamePair(es[p], es[q]) && es[q].rev <= max ensures es[q].rev <= es[p].rev {
        var g := EventOf(es, sp, log, start, next, q);
      }
    }
    if Visible(es, p, max) {
      NewestPairIsLast(past, e.doc.timestamp, e.key);
      PairFollowsKey(past, e.doc.timestamp, e.key);
      var q := NewestPair(past, e.doc.timestamp, e.key);
      assert q.Some?;
      var m := IndexOfEvent(es, sp, log, start, next, q.value);
      assert SamePair(es[p], es[m]);
      RevisionsUnique(log, q.value, e);
    }
  }

  /** The snapshot holds a revision iff it is that of a document live at `max` whose
      timestamp is in the range. */
  lemma SnapshotIff(es: seq<Entry>, sp: Spaces, log: Log, start: Time, next: Time, max: Revision, e: Event)
    requires Valid(log) && Listed(es, sp, log, start, next) && e in log
    ensures e.rev in Snapshot(es, max)
       <==> DocumentAsOf(log, e.key, max).Some? && Newest(UpTo(log, max), e.key) == Some(e) && start <= e.doc.timestamp < next
  {
    var keep := iset p: int | 0 <= p < |es| && Visible(es, p, max);
    PickMembers(es, keep, 0, e.rev);
    hide Visible, UpTo, Newest, Listed, IsLive, Valid, Pick;
    UpToKeeps(log, max);
    if e.rev in Snapshot(es, max) {
      var i :| 0 <= i < |es| && i in keep && es[i].rev == e.rev;
      var f := EventOf(es, sp, log, start, next, i);
      RevisionsUnique(log, e, f);
      VisibleIff(es, sp, log, start, next, i, max);
      LiveIsNewest(log, e.key, max);
      RevisionsUnique(log, Newest(UpTo(log, max), e.key).value, e);
    }
    if DocumentAsOf(log, e.key, max).Some? && Newest(UpTo(log, max), e.key) == Some(e) && start <= e.doc.timestamp < next {
      var i := IndexOfEvent(es, sp, log, start, next, e);
      VisibleIff(es, sp, log, start, next, i, max);
      assert i in keep;
    }
  }

  lemma LiveIsNewest(log: Log, key: Bytes, max: Revision)
    requires Valid(log) && IsLive(UpTo(log, max), key)
    ensures Newest(UpTo(log, max), key).Some? && Newest(UpTo(log, max), key).value in log
    ensures Newest(UpTo(log, max), key).value.key == key && !Newest(UpTo(log, max), key).value.dead
  {
    UpToKeeps(log, max);
    NewestIsLast(UpTo(log, max), key);
  }

  // ---------- When the scan is exact ----------

  /** Re-insertions never move a key to an earlier timestamp. */
  ghost predicate TimesMonotone(log: Log) {
    forall e, f | e in log && f in log && e.key == f.key && e.rev < f.rev :: e.doc.timestamp <= f.doc.timestamp
  }

  lemma ListedIsTimely(es: seq<Entry>, sp: Spaces, log: Log, start: Time, next: Time, max: Revision)
    requires ValidSpaces(sp) && Valid(log) && Listed(es, sp, log, start, next) && TimesMonotone(log)
    ensures Timely(es, max)
  {
    hide UpTo, Newest, Listed, IsLive, Valid, Less, KeyOf, Visible;
    forall p, i | 0 <= p < i < |es| && Visible(es, p, max) && es[p].key == es[i].key ensures !Kills(es, i, max) {
      if Kills(es, i, max) {
        var e := EventOf(es, sp, log, start, next, p);
        var f := EventOf(es, sp, log, start, next, i);
        VisibleIff(es, sp, log, start, next, p, max);
        UpToKeeps(log, max);
        NewestIsLast(UpTo(log, max), e.key);
        ListedLess(es, sp, log, start, next, p, i);
        EntriesOrdered(sp, es[p], es[i]);
        assert f in UpTo(log, max);
        LiveIsNewest(log, e.key, max);
        assert f.rev <= e.rev;
        if f.rev == e.rev { RevisionsUnique(log, e, f); }
      }
    }
  }

  /** No deletion in the range is newer than the reader. */
  ghost predicate NoLateDeletion(log: Log, start: Time, next: Time, max: Revision) {
    forall e | e in log && e.dead && start <= e.doc.timestamp < next :: e.rev <= max
  }

  /** No two entries in range have one revision. */
  lemma ListedIsDistinct(es: seq<Entry>, sp: Spaces, log: Log, start: Time, next: Time)
    requires Valid(log) && Listed(es, sp, log, start, next)
    ensures DistinctRevisions(es)
  {
    hide *;
    forall i, j | 0 <= i < j < |es| ensures es[i].rev != es[j].rev {
      var e := EventOf(es, sp, log, start, next, i);
      var f := EventOf(es, sp, log, start, next, j);
      if e.rev == f.rev {
        RevisionsUnique(log, e, f);
        KeyOfIs(sp, es[i]);
        KeyOfIs(sp, es[j]);
      }
      ListedLess(es, sp, log, start, next, i, j);
      LessIsStrict(KeyOf(sp, es[i]), KeyOf(sp, es[j]));
    }
    MakeDistinct(es);
  }

  lemma MakeDistinct(es: seq<Entry>)
    requires forall i, j | 0 <= i < j < |es| :: es[i].rev != es[j].rev
    ensures DistinctRevisions(es)
  {
  }

  /** Main result, for every store the database can produce and every user key: a range
      read reports nothing but the snapshot iff every insertion that has ended by `max` is
      covered by a tombstone, misses nothing iff every covered insertion has ended, and
      is the snapshot iff the two coincide. */
  lemma RangeReadIsExactIff(view: Store, sp: Spaces, others: Store, log: Log, start: Time, next: Time, max: Revision, es: seq<Entry>)
    requires Represents(view, sp, others, log)
    requires es == Entries(view, sp.secondary, start, next)
    ensures Sound(es, max) <==> EndedAreCovered(es, max)
    ensures Complete(es, max) <==> CoveredHaveEnded(es, max)
    ensures Reported(es, max) == Snapshot(es, max) <==> EndedAreCovered(es, max) && CoveredHaveEnded(es, max)
  {
    hide *;
    RepresentsFacts(view, sp, others, log);
    EntriesAreListed(view, sp, others, log, start, next);
    ListedIsDistinct(es, sp, log, start, next);
    ScanIsExactIff(es, max);
  }

  /** What it means for an insertion to have ended, in terms of the log: its key is not
      live at that revision any more. */
  lemma SupersededIff(es: seq<Entry>, sp: Spaces, log: Log, start: Time, next: Time, p: nat, max: Revision)
    requires Valid(log) && Listed(es, sp, log, start, next) && p < |es| && MayBeSeen(es, p, max)
    ensures Superseded(es, p, max)
       <==> !(IsLive(UpTo(log, max), es[p].key) && Newest(UpTo(log, max), es[p].key).value.rev == es[p].rev)
  {
    hide *;
    VisibleIff(es, sp, log, start, next, p, max);
    WhatIsSeen(es, p, max);
  }

  /** While keys keep clear of revisions, nothing that has ended is ever reported, only a
      tombstone of another pair can make the read miss something, and none does for a
      reader past the range's deletions when re-insertions do not go back in time. */
  lemma RangeReadIsSnapshot(view: Store, sp: Spaces, others: Store, log: Log, start: Time, next: Time, max: Revision, es: seq<Entry>)
    requires Represents(view, sp, others, log) && KeysAboveRevisions(log)
    requires es == Entries(view, sp.secondary, start, next)
    ensures Sound(es, max)
    ensures Reported(es, max) == Snapshot(es, max)
       <==> forall p, i | 0 <= p < i < |es| && Visible(es, p, max) :: !HidesFrom(es, p, i, max)
    ensures TimesMonotone(log) && NoLateDeletion(log, start, next, max) ==> Reported(es, max) == Snapshot(es, max)
  {
    hide *;
    RepresentsFacts(view, sp, others, log);
    EntriesAreListed(view, sp, others, log, start, next);
    ListedIsGrouped(es, sp, log, start, next);
    ReportedIsSnapshotIff(es, max);
    ReportedWithinSnapshot(es, max);
    if TimesMonotone(log) && NoLateDeletion(log, start, next, max) {
      ListedIsTimely(es, sp, log, start, next, max);
      NoLateTombstone(es, sp, log, start, next, max);
      TimelyScanIsSnapshot(es, max);
    }
  }

  lemma NoLateTombstone(es: seq<Entry>, sp: Spaces, log: Log, start: Time, next: Time, max: Revision)
    requires Listed(es, sp, log, start, next) && NoLateDeletion(log, start, next, max)
    ensures forall p | 0 <= p < |es| && es[p].dead :: es[p].rev <= max
  {
    forall p | 0 <= p < |es| && es[p].dead ensures es[p].rev <= max {
      var e := EventOf(es, sp, log, start, next, p);
    }
  }

  lemma ReportedWithinSnapshot(es: seq<Entry>, max: Revision)
    requires Grouped(es)
    ensures Sound(es, max)
  {
    var keep := iset p: int | 0 <= p < |es| && Visible(es, p, max);
    forall r | r in Reported(es, max) ensures r in Snapshot(es, max) {
      PickMembers(es, Emitted(es, max), 0, r);
      PickMembers(es, keep, 0, r);
      var i :| 0 <= i < |es| && i in Emitted(es, max) && es[i].rev == r;
      EmittedIsVisible(es, i, max);
      assert i in keep;
    }
  }
}
