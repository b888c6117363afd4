/** The order in which a range read reports, and that nothing is reported twice. */
module RangeOrder {
  import opened ByteStrings
  import opened Keys
  import opened RocksDB
  import opened RangeScan
  import opened SecondaryIndex
  import opened History
  import opened RangeHistory
  import opened RangeExactness

  /** Later picks stand at later positions. */
  lemma {:induction false} PickPositions(es: seq<Entry>, keep: iset<int>, start: nat, i: nat, j: nat) returns (p: nat, q: nat)
    requires i < j < |Pick(es, keep, start)|
    ensures start <= p < q < |es| && p in keep && q in keep
    ensures es[p].rev == Pick(es, keep, start)[i] && es[q].rev == Pick(es, keep, start)[j]
    decreases |es| - start
  {
    if start !in keep {
      p, q := PickPositions(es, keep, start + 1, i, j);
    } else if i > 0 {
      p, q := PickPositions(es, keep, start + 1, i - 1, j - 1);
    } else {
      p := start;
      q := PickPosition(es, keep, start + 1, j - 1);
    }
  }

  lemma {:induction false} PickPosition(es: seq<Entry>, keep: iset<int>, start: nat, j: nat) returns (q: nat)
    requires j < |Pick(es, keep, start)|
    ensures start <= q < |es| && q in keep && es[q].rev == Pick(es, keep, start)[j]
    decreases |es| - start
  {
    if start !in keep {
      q := PickPosition(es, keep, start + 1, j);
    } else if j > 0 {
      q := PickPosition(es, keep, start + 1, j - 1);
    } else {
      q := start;
    }
  }

  /** Entry order is key order when no key byte is as small as a first revision byte. */
  lemma {:induction false} KeyOrder(k: Bytes, r: Bytes, k': Bytes, r': Bytes)
    requires r != [] && r' != [] && k != k' && Lex(k + r, k' + r') < 0
    requires forall i | 0 <= i < |k| :: k[i] > r'[0]
    requires forall i | 0 <= i < |k'| :: k'[i] > r[0]
    ensures Lex(k, k') < 0
    decreases |k|
  {
    if k != [] {
      assert (k + r)[0] == k[0] && (k + r)[1..] == k[1..] + r;
      assert [] + r' == r';
      if k' != [] {
        assert (k' + r')[0] == k'[0] && (k' + r')[1..] == k'[1..] + r';
        if k[0] == k'[0] {
          assert k == [k[0]] + k[1..] && k' == [k'[0]] + k'[1..];
          KeyOrder(k[1..], r, k'[1..], r');
        }
      }
    }
  }

  /** By timestamp, then by user key followed by revision. */
  ghost predicate Precedes(log: Log, r: Revision, s: Revision) {
    exists e, f :: e in log && f in log && e.rev == r && f.rev == s && InOrder(e, f)
  }

  predicate InOrder(e: Event, f: Event) {
    e.doc.timestamp < f.doc.timestamp ||
    (e.doc.timestamp == f.doc.timestamp && Lex(e.key + IntToString(e.rev), f.key + IntToString(f.rev)) < 0)
  }

  /** By timestamp, then by user key alone. */
  ghost predicate PrecedesByKey(log: Log, r: Revision, s: Revision) {
    exists e, f :: e in log && f in log && e.rev == r && f.rev == s && InKeyOrder(e, f)
  }

  predicate InKeyOrder(e: Event, f: Event) {
    e.doc.timestamp < f.doc.timestamp || (e.doc.timestamp == f.doc.timestamp && Lex(e.key, f.key) < 0)
  }

  /** Two entries the scan reports belong to different pairs. */
  lemma EmitsOncePerPair(es: seq<Entry>, p: nat, q: nat, max: Revision)
    requires Grouped(es) && p < q < |es| && Emits(es, p, max) && Emits(es, q, max)
    ensures !SamePair(es[p], es[q])
  {
    EmittedIsVisible(es, p, max);
    hide Hidden;
  }

  /** In every store: by timestamp, then by key and revision bytes, nothing twice. */
  lemma RangeReadInOrder(view: Store, sp: Spaces, others: Store, log: Log, start: Time, next: Time, max: Revision, i: nat, j: nat)
    requires Represents(view, sp, others, log)
    requires i < j < |Reported(Entries(view, sp.secondary, start, next), max)|
    ensures var rs := Reported(Entries(view, sp.secondary, start, next), max); Precedes(log, rs[i], rs[j]) && rs[i] != rs[j]
  {
    hide *;
    var es := Entries(view, sp.secondary, start, next);
    RepresentsFacts(view, sp, others, log);
    EntriesAreListed(view, sp, others, log, start, next);
    ListedIsDistinct(es, sp, log, start, next);
    var p, q := EmittedPositions(es, max, i, j);
    DistinctAt(es, p, q);
    var e := EventOf(es, sp, log, start, next, p);
    var f := EventOf(es, sp, log, start, next, q);
    ListedLess(es, sp, log, start, next, p, q);
    EntriesOrdered(sp, es[p], es[q]);
    MakePrecedes(log, e, f);
  }

  lemma DistinctAt(es: seq<Entry>, p: nat, q: nat)
    requires DistinctRevisions(es) && p < q < |es|
    ensures es[p].rev != es[q].rev
  {
  }

  /** While keys keep clear of revisions, user keys alone decide under one timestamp. */
  lemma RangeReadInKeyOrder(view: Store, sp: Spaces, others: Store, log: Log, start: Time, next: Time, max: Revision, i: nat, j: nat)
    requires Represents(view, sp, others, log) && KeysAboveRevisions(log)
    requires i < j < |Reported(Entries(view, sp.secondary, start, next), max)|
    ensures var rs := Reported(Entries(view, sp.secondary, start, next), max); PrecedesByKey(log, rs[i], rs[j])
  {
    hide *;
    var es := Entries(view, sp.secondary, start, next);
    RepresentsFacts(view, sp, others, log);
    EntriesAreListed(view, sp, others, log, start, next);
    ListedIsGrouped(es, sp, log, start, next);
    var p, q := EmittedPositions(es, max, i, j);
    EmitsOncePerPair(es, p, q, max);
    var e := EventOf(es, sp, log, start, next, p);
    var f := EventOf(es, sp, log, start, next, q);
    ListedLess(es, sp, log, start, next, p, q);
    EntriesOrdered(sp, es[p], es[q]);
    PairFields(es[p], es[q]);
    KeyAbove(log, e, f);
    KeyAbove(log, f, e);
    if e.doc.timestamp == f.doc.timestamp {
      KeyOrder(e.key, IntToString(e.rev), f.key, IntToString(f.rev));
    }
    MakePrecedesByKey(log, e, f);
  }

  lemma MakePrecedes(log: Log, e: Event, f: Event)
    requires e in log && f in log && e.doc.timestamp <= f.doc.timestamp
    requires e.doc.timestamp == f.doc.timestamp ==> Lex(e.key + IntToString(e.rev), f.key + IntToString(f.rev)) < 0
    ensures Precedes(log, e.rev, f.rev)
  {
    hide Lex, IntToString;
    assert InOrder(e, f);
  }

  lemma MakePrecedesByKey(log: Log, e: Event, f: Event)
    requires e in log && f in log && e.doc.timestamp <= f.doc.timestamp
    requires e.doc.timestamp == f.doc.timestamp ==> Lex(e.key, f.key) < 0
    ensures PrecedesByKey(log, e.rev, f.rev)
  {
    assert InKeyOrder(e, f);
  }

  lemma EmittedPositions(es: seq<Entry>, max: Revision, i: nat, j: nat) returns (p: nat, q: nat)
    requires i < j < |Reported(es, max)|
    ensures p < q < |es| && Emits(es, p, max) && Emits(es, q, max)
    ensures es[p].rev == Reported(es, max)[i] && es[q].rev == Reported(es, max)[j]
  {
    p, q := PickPositions(es, Emitted(es, max), 0, i, j);
  }
}
