/** Reading a range again at an old revision, after the database has moved on. */
module RangeStability {
  import opened ByteStrings
  import opened Comparator
  import opened Keys
  import opened RocksDB
  import opened RangeScan
  import opened SecondaryIndex
  import opened History
  import opened RangeHistory
  import opened RangeExactness

  // ---------- Selections of two sorted lists ----------

  /** The chosen entries themselves. */
  ghost function Chosen(es: seq<Entry>, keep: iset<int>, p: nat): seq<Entry>
    decreases |es| - p
  {
    if p >= |es| then []
    else (if p in keep then [es[p]] else []) + Chosen(es, keep, p + 1)
  }

  function Revs(es: seq<Entry>): seq<Revision> {
    if es == [] then [] else [es[0].rev] + Revs(es[1..])
  }

  lemma {:induction false} PickIsChosen(es: seq<Entry>, keep: iset<int>, p: nat)
    ensures Pick(es, keep, p) == Revs(Chosen(es, keep, p))
    decreases |es| - p
  {
    if p < |es| {
      PickIsChosen(es, keep, p + 1);
      var rest := Chosen(es, keep, p + 1);
      assert ([es[p]] + rest)[1..] == rest;
      assert [] + rest == rest;
    }
  }

  lemma {:induction false} ChosenMembers(es: seq<Entry>, keep: iset<int>, p: nat, x: Entry)
    ensures x in Chosen(es, keep, p) <==> exists i :: p <= i < |es| && i in keep && es[i] == x
    decreases |es| - p
  {
    if p < |es| { ChosenMembers(es, keep, p + 1, x); }
  }

  lemma {:induction false} ChosenSorted(es: seq<Entry>, keep: iset<int>, p: nat, sp: Spaces)
    requires SortedEntries(es, sp)
    ensures SortedEntries(Chosen(es, keep, p), sp)
    decreases |es| - p
  {
    hide Less, KeyOf;
    if p < |es| {
      ChosenSorted(es, keep, p + 1, sp);
      var rest := Chosen(es, keep, p + 1);
      forall j | 0 <= j < |rest| ensures Less(KeyOf(sp, es[p]), KeyOf(sp, rest[j])) {
        ChosenMembers(es, keep, p + 1, rest[j]);
      }
    }
  }

  /** Every chosen entry of either list is in the other. */
  ghost predicate Shared(es: seq<Entry>, a: iset<int>, fs: seq<Entry>, b: iset<int>) {
    (forall p | 0 <= p < |es| && p in a :: es[p] in fs) && (forall q | 0 <= q < |fs| && q in b :: fs[q] in es)
  }

  /** Entries are told apart by their revisions, across both lists. */
  ghost predicate ByRevision(es: seq<Entry>, fs: seq<Entry>) {
    forall p, q | 0 <= p < |es| && 0 <= q < |fs| && es[p].rev == fs[q].rev :: es[p] == fs[q]
  }

  ghost predicate SameChoice(es: seq<Entry>, a: iset<int>, fs: seq<Entry>, b: iset<int>) {
    forall p, q | 0 <= p < |es| && 0 <= q < |fs| && es[p] == fs[q] :: p in a <==> q in b
  }

  lemma SameChoiceSamePick(es: seq<Entry>, a: iset<int>, fs: seq<Entry>, b: iset<int>, sp: Spaces)
    requires SortedEntries(es, sp) && SortedEntries(fs, sp) && Shared(es, a, fs, b) && SameChoice(es, a, fs, b)
    ensures Pick(es, a, 0) == Pick(fs, b, 0)
  {
    hide SortedEntries, Chosen, Pick;
    ChosenSorted(es, a, 0, sp);
    ChosenSorted(fs, b, 0, sp);
    forall x ensures x in Chosen(es, a, 0) <==> x in Chosen(fs, b, 0) {
      ChosenMembers(es, a, 0, x);
      ChosenMembers(fs, b, 0, x);
    }
    SortedUnique(Chosen(es, a, 0), Chosen(fs, b, 0), sp);
    PickIsChosen(es, a, 0);
    PickIsChosen(fs, b, 0);
  }

  /** Two selections read the same iff they agree on the entries the lists share. */
  lemma PicksAgreeIff(es: seq<Entry>, a: iset<int>, fs: seq<Entry>, b: iset<int>, sp: Spaces)
    requires SortedEntries(es, sp) && SortedEntries(fs, sp) && Shared(es, a, fs, b)
    requires DistinctRevisions(es) && DistinctRevisions(fs) && ByRevision(es, fs)
    ensures Pick(es, a, 0) == Pick(fs, b, 0) <==> SameChoice(es, a, fs, b)
  {
    if SameChoice(es, a, fs, b) {
      SameChoiceSamePick(es, a, fs, b, sp);
    }
    hide SortedEntries, Pick;
    if Pick(es, a, 0) == Pick(fs, b, 0) {
      forall p, q | 0 <= p < |es| && 0 <= q < |fs| && es[p] == fs[q] ensures p in a <==> q in b {
        PickMembers(es, a, 0, es[p].rev);
        PickMembers(fs, b, 0, es[p].rev);
      }
    }
  }

  // ---------- Old and new entries of a range ----------

  lemma ContinuesMeans(log: Log, now: nat, log': Log)
    requires Continues(log, now, log')
    ensures forall e | e in log :: e in log'
    ensures forall e | e in log' && e.rev <= now :: e in log
  {
  }

  /** What the two lists of a range share: the later one has all entries of the earlier
      one, and nothing else up to `now`. */
  lemma EntriesGrow(es: seq<Entry>, fs: seq<Entry>, sp: Spaces, log: Log, now: nat, log': Log, start: Time, next: Time)
    requires Valid(log') && Continues(log, now, log')
    requires Listed(es, sp, log, start, next) && Listed(fs, sp, log', start, next)
    ensures forall p | 0 <= p < |es| :: es[p] in fs
    ensures forall q | 0 <= q < |fs| && fs[q].rev <= now :: fs[q] in es
    ensures ByRevision(es, fs) && SortedEntries(es, sp) && SortedEntries(fs, sp)
  {
    ContinuesMeans(log, now, log');
    ListedSorted(es, sp, log, start, next);
    ListedSorted(fs, sp, log', start, next);
    hide Listed, Valid, Continues, SortedEntries;
    forall p | 0 <= p < |es| ensures es[p] in fs {
      var e := EventOf(es, sp, log, start, next, p);
      var q := IndexOfEvent(fs, sp, log', start, next, e);
      assert fs[q] == es[p];
    }
    forall q | 0 <= q < |fs| && fs[q].rev <= now ensures fs[q] in es {
      var e := EventOf(fs, sp, log', start, next, q);
      var p := IndexOfEvent(es, sp, log, start, next, e);
      assert fs[q] == es[p];
    }
    forall p, q | 0 <= p < |es| && 0 <= q < |fs| && es[p].rev == fs[q].rev ensures es[p] == fs[q] {
      var e := EventOf(es, sp, log, start, next, p);
      var f := EventOf(fs, sp, log', start, next, q);
      RevisionsUnique(log', e, f);
    }
  }

  lemma ListedSorted(es: seq<Entry>, sp: Spaces, log: Log, start: Time, next: Time)
    requires Listed(es, sp, log, start, next)
    ensures SortedEntries(es, sp)
  {
    hide Less, KeyOf, HasEvent, HasEntry;
  }

  lemma UpToContinues(log: Log, now: nat, log': Log, max: nat)
    requires Continues(log, now, log') && max <= now
    ensures UpTo(log', max) == UpTo(log, max)
  {
    var more := log'[|log|..];
    assert log' == log + more;
    PastIsStable(log, more, max);
  }

  // ---------- The snapshot stays, the read may not ----------

  ghost function VisibleSet(es: seq<Entry>, max: Revision): iset<int> {
    iset p: int | 0 <= p < |es| && Visible(es, p, max)
  }

  lemma PicksOf(es: seq<Entry>, max: Revision)
    ensures Snapshot(es, max) == Pick(es, VisibleSet(es, max), 0) && Reported(es, max) == Pick(es, Emitted(es, max), 0)
    ensures forall p | 0 <= p < |es| && p in VisibleSet(es, max) :: es[p].rev <= max
    ensures forall p: int :: p in Emitted(es, max) <==> 0 <= p < |es| && MayBeSeen(es, p, max) && !Covered(es, p, max)
  {
    hide Pick, Covered;
    assert VisibleSet(es, max) == iset p: int | 0 <= p < |es| && Visible(es, p, max);
    forall p | 0 <= p < |es| ensures p in Emitted(es, max) <==> MayBeSeen(es, p, max) && !Covered(es, p, max) {
      WhatIsSeen(es, p, max);
    }
  }

  /** The snapshot of a range at a revision already issued never changes. */
  lemma SnapshotIsStable(view: Store, view': Store, sp: Spaces, others: Store, log: Log, now: nat, log': Log,
                         start: Time, next: Time, max: Revision)
    requires Represents(view, sp, others, log) && Represents(view', sp, others, log')
    requires Continues(log, now, log') && max <= now
    ensures Snapshot(Entries(view', sp.secondary, start, next), max) == Snapshot(Entries(view, sp.secondary, start, next), max)
  {
    hide *;
    var es, fs := Entries(view, sp.secondary, start, next), Entries(view', sp.secondary, start, next);
    RepresentsFacts(view, sp, others, log);
    RepresentsFacts(view', sp, others, log');
    EntriesAreListed(view, sp, others, log, start, next);
    EntriesAreListed(view', sp, others, log', start, next);
    EntriesGrow(es, fs, sp, log, now, log', start, next);
    UpToContinues(log, now, log', max);
    PicksOf(es, max);
    PicksOf(fs, max);
    SharedVisible(es, fs, max, now);
    forall p, q | 0 <= p < |es| && 0 <= q < |fs| && es[p] == fs[q]
      ensures Visible(es, p, max) <==> Visible(fs, q, max)
    {
      VisibleIff(es, sp, log, start, next, p, max);
      VisibleIff(fs, sp, log', start, next, q, max);
    }
    SameVisible(es, fs, max);
    SameChoiceSamePick(es, VisibleSet(es, max), fs, VisibleSet(fs, max), sp);
  }

  lemma SharedVisible(es: seq<Entry>, fs: seq<Entry>, max: Revision, now: nat)
    requires max <= now
    requires forall p | 0 <= p < |es| :: es[p] in fs
    requires forall q | 0 <= q < |fs| && fs[q].rev <= now :: fs[q] in es
    ensures Shared(es, VisibleSet(es, max), fs, VisibleSet(fs, max))
    ensures Shared(es, Emitted(es, max), fs, Emitted(fs, max))
  {
    PicksOf(fs, max);
    hide Visible, Emits, Covered;
  }

  lemma SameVisible(es: seq<Entry>, fs: seq<Entry>, max: Revision)
    requires forall p, q | 0 <= p < |es| && 0 <= q < |fs| && es[p] == fs[q] :: Visible(es, p, max) <==> Visible(fs, q, max)
    ensures SameChoice(es, VisibleSet(es, max), fs, VisibleSet(fs, max))
  {
    hide Visible;
  }

  /** The read itself repeats iff the later entries change no answer to the question which
      of the insertions it may see are covered. */
  lemma RangeReadIsStableIff(view: Store, view': Store, sp: Spaces, others: Store, log: Log, now: nat, log': Log,
                             start: Time, next: Time, max: Revision, es: seq<Entry>, fs: seq<Entry>)
    requires Represents(view, sp, others, log) && Represents(view', sp, others, log')
    requires Continues(log, now, log') && max <= now
    requires es == Entries(view, sp.secondary, start, next) && fs == Entries(view', sp.secondary, start, next)
    ensures Reported(fs, max) == Reported(es, max)
       <==> forall p, q | 0 <= p < |es| && 0 <= q < |fs| && es[p] == fs[q] && MayBeSeen(es, p, max) ::
              Covered(es, p, max) <==> Covered(fs, q, max)
  {
    hide *;
    RepresentsFacts(view, sp, others, log);
    RepresentsFacts(view', sp, others, log');
    EntriesAreListed(view, sp, others, log, start, next);
    EntriesAreListed(view', sp, others, log', start, next);
    EntriesGrow(es, fs, sp, log, now, log', start, next);
    ListedIsDistinct(es, sp, log, start, next);
    ListedIsDistinct(fs, sp, log', start, next);
    PicksOf(es, max);
    PicksOf(fs, max);
    SharedVisible(es, fs, max, now);
    PicksAgreeIff(es, Emitted(es, max), fs, Emitted(fs, max), sp);
    EmittedAgreeIff(es, fs, max);
  }

  lemma EmittedAgreeIff(es: seq<Entry>, fs: seq<Entry>, max: Revision)
    ensures SameChoice(es, Emitted(es, max), fs, Emitted(fs, max))
       <==> forall p, q | 0 <= p < |es| && 0 <= q < |fs| && es[p] == fs[q] && MayBeSeen(es, p, max) ::
              Covered(es, p, max) <==> Covered(fs, q, max)
  {
    PicksOf(es, max);
    PicksOf(fs, max);
    hide Covered, Emits;
    var a, b := Emitted(es, max), Emitted(fs, max);
    hide Emitted;
    if SameChoice(es, a, fs, b) {
      forall p, q | 0 <= p < |es| && 0 <= q < |fs| && es[p] == fs[q] && MayBeSeen(es, p, max)
        ensures Covered(es, p, max) <==> Covered(fs, q, max)
      {
        assert p in a <==> q in b;
      }
    }
  }

  lemma PrefixConditions(log: Log, now: nat, log': Log, start: Time, next: Time, max: Revision)
    requires Continues(log, now, log') && KeysAboveRevisions(log') && TimesMonotone(log') && NoLateDeletion(log', start, next, max)
    ensures KeysAboveRevisions(log) && TimesMonotone(log) && NoLateDeletion(log, start, next, max)
  {
    ContinuesMeans(log, now, log');
    hide IntToString, Continues;
  }

  /** So it repeats while the conditions of exactness hold of the later log. */
  lemma ExactReadsAreStable(view: Store, view': Store, sp: Spaces, others: Store, log: Log, now: nat, log': Log,
                            start: Time, next: Time, max: Revision)
    requires Represents(view, sp, others, log) && Represents(view', sp, others, log')
    requires Continues(log, now, log') && max <= now
    requires KeysAboveRevisions(log') && TimesMonotone(log') && NoLateDeletion(log', start, next, max)
    ensures Reported(Entries(view', sp.secondary, start, next), max) == Reported(Entries(view, sp.secondary, start, next), max)
  {
    hide *;
    PrefixConditions(log, now, log', start, next, max);
    RangeReadIsSnapshot(view, sp, others, log, start, next, max, Entries(view, sp.secondary, start, next));
    RangeReadIsSnapshot(view', sp, others, log', start, next, max, Entries(view', sp.secondary, start, next));
    SnapshotIsStable(view, view', sp, others, log, now, log', start, next, max);
  }
}
