/** Cutting a range read in two: the snapshots of adjacent ranges concatenate. */
module RangeSplit {
  import opened ByteStrings
  import opened Comparator
  import opened Keys
  import opened RocksDB
  import opened RangeScan
  import opened SecondaryIndex
  import opened History
  import opened RangeHistory
  import opened RangeExactness

  lemma BoundsOrdered(p: Bytes, a: Time, b: Time)
    requires IsIndexPrefix(p) && a <= b
    ensures Order(ValuePrefix(p, At(a)), ValuePrefix(p, At(b))) <= 0
  {
    RankOfBound(p, a);
    RankOfBound(p, b);
    hide Rank, ValuePrefix, WellFormed;
    LexCommonPrefix(p, [a], [b]);
    LexOfSingles(a, b);
  }

  lemma CountsOrdered(ks: seq<Bytes>, p: Bytes, a: Time, b: Time)
    requires Sorted(ks) && IsIndexPrefix(p) && a <= b
    ensures CountBelow(ks, ValuePrefix(p, At(a))) <= CountBelow(ks, ValuePrefix(p, At(b)))
  {
    hide *;
    var x, y := ValuePrefix(p, At(a)), ValuePrefix(p, At(b));
    BoundsOrdered(p, a, b);
    CountBelowSplits(ks, x);
    CountBelowSplits(ks, y);
    if CountBelow(ks, y) < CountBelow(ks, x) {
      var i := CountBelow(ks, y);
      OrderTransitive(ks[i], x, y);
    }
  }

  lemma EntriesSplit(view: Store, p: Bytes, a: Time, b: Time, c: Time)
    requires Indexable(view, p) && a <= b <= c
    ensures Entries(view, p, a, c) == Entries(view, p, a, b) + Entries(view, p, b, c)
  {
    hide *;
    IndexablePrefix(view, p);
    var ks := SortedKeys(view.Keys);
    var l, m, n := CountBelow(ks, ValuePrefix(p, At(a))), CountBelow(ks, ValuePrefix(p, At(b))), CountBelow(ks, ValuePrefix(p, At(c)));
    CountsOrdered(ks, p, a, b);
    CountsOrdered(ks, p, b, c);
    OpenWindow(view, p, a, c, ks);
    OpenWindow(view, p, a, b, ks);
    OpenWindow(view, p, b, c, ks);
    WindowSize(view, p, a, c, ks, l, n, Entries(view, p, a, c));
    WindowSize(view, p, a, b, ks, l, m, Entries(view, p, a, b));
    WindowSize(view, p, b, c, ks, m, n, Entries(view, p, b, c));
    SameByPoints(Entries(view, p, a, c), Entries(view, p, a, b), Entries(view, p, b, c), i requires 0 <= i < |ks| => EntryOf(view, ks[i]), l, m, n);
  }

  lemma SameByPoints(all: seq<Entry>, es: seq<Entry>, fs: seq<Entry>, f: int --> Entry, l: nat, m: nat, n: nat)
    requires l <= m <= n && |all| == n - l && |es| == m - l && |fs| == n - m
    requires forall i | l <= i < n :: f.requires(i)
    requires forall i | 0 <= i < |all| :: all[i] == f(l + i)
    requires forall i | 0 <= i < |es| :: es[i] == f(l + i)
    requires forall i | 0 <= i < |fs| :: fs[i] == f(m + i)
    ensures all == es + fs
  {
    forall i | 0 <= i < |all| ensures all[i] == (es + fs)[i] {
      if i >= |es| { assert fs[i - |es|] == f(m + (i - |es|)); }
    }
  }

  /** Entries before and after a timestamp share no pair. */
  ghost predicate Apart(es: seq<Entry>, fs: seq<Entry>) {
    forall i, j | 0 <= i < |es| && 0 <= j < |fs| :: !SamePair(es[i], fs[j])
  }

  lemma VisibleInHalf(es: seq<Entry>, fs: seq<Entry>, max: Revision, p: nat)
    requires Apart(es, fs) && p < |es| + |fs|
    ensures Visible(es + fs, p, max) <==> if p < |es| then Visible(es, p, max) else Visible(fs, p - |es|, max)
  {
    var all := es + fs;
    if p < |es| {
      assert forall q | 0 <= q < |es| :: all[q] == es[q];
      assert forall q | |es| <= q < |all| :: all[q] == fs[q - |es|];
    } else {
      assert forall q | 0 <= q < |fs| :: all[q + |es|] == fs[q];
      assert forall q | 0 <= q < |es| :: all[q] == es[q];
    }
  }

  lemma {:induction false} PickSecond(all: seq<Entry>, fs: seq<Entry>, n: nat, keep: iset<int>, other: iset<int>, p: nat)
    requires |all| == n + |fs| && p <= |fs| && forall q | 0 <= q < |fs| :: all[n + q] == fs[q]
    requires forall q | p <= q < |fs| :: n + q in keep <==> q in other
    ensures Pick(all, keep, n + p) == Pick(fs, other, p)
    decreases |fs| - p
  {
    if p < |fs| { PickSecond(all, fs, n, keep, other, p + 1); }
  }

  lemma {:induction false} PickFirst(all: seq<Entry>, es: seq<Entry>, fs: seq<Entry>, keep: iset<int>, first: iset<int>, second: iset<int>, p: nat)
    requires |all| == |es| + |fs| && p <= |es|
    requires forall q | 0 <= q < |es| :: all[q] == es[q]
    requires forall q | 0 <= q < |fs| :: all[|es| + q] == fs[q]
    requires forall q | p <= q < |es| :: q in keep <==> q in first
    requires forall q | 0 <= q < |fs| :: |es| + q in keep <==> q in second
    ensures Pick(all, keep, p) == Pick(es, first, p) + Pick(fs, second, 0)
    decreases |es| - p
  {
    if p < |es| {
      PickFirst(all, es, fs, keep, first, second, p + 1);
      var x, y := Pick(es, first, p + 1), Pick(fs, second, 0);
      assert [es[p].rev] + (x + y) == ([es[p].rev] + x) + y;
      assert [] + (x + y) == ([] + x) + y;
    } else {
      PickSecond(all, fs, |es|, keep, second, 0);
      assert Pick(es, first, p) == [];
    }
  }

  lemma SnapshotOfHalves(es: seq<Entry>, fs: seq<Entry>, max: Revision)
    requires Apart(es, fs)
    ensures Snapshot(es + fs, max) == Snapshot(es, max) + Snapshot(fs, max)
  {
    hide Visible, Pick, Apart;
    var all := es + fs;
    var keep := iset p: int | 0 <= p < |all| && Visible(all, p, max);
    var first := iset p: int | 0 <= p < |es| && Visible(es, p, max);
    var second := iset p: int | 0 <= p < |fs| && Visible(fs, p, max);
    forall q: int | 0 <= q < |all| ensures q in keep <==> if q < |es| then q in first else q - |es| in second {
      VisibleInHalf(es, fs, max, q);
    }
    forall q | 0 <= q < |fs| ensures |es| + q in keep <==> q in second {
      assert (|es| + q in keep) == (|es| + q - |es| in second);
    }
    PickFirst(all, es, fs, keep, first, second, 0);
  }

  /** Reading `[a, b)` and then `[b, c)` is reading `[a, c)`, at any revision. */
  lemma SnapshotsConcatenate(view: Store, sp: Spaces, others: Store, log: Log, a: Time, b: Time, c: Time, max: Revision)
    requires Represents(view, sp, others, log) && a <= b <= c
    ensures Snapshot(Entries(view, sp.secondary, a, c), max)
         == Snapshot(Entries(view, sp.secondary, a, b), max) + Snapshot(Entries(view, sp.secondary, b, c), max)
  {
    hide *;
    RepresentsFacts(view, sp, others, log);
    RepresentsIndexable(view, sp, others, log);
    EntriesSplit(view, sp.secondary, a, b, c);
    EntriesAreListed(view, sp, others, log, a, b);
    EntriesAreListed(view, sp, others, log, b, c);
    var es, fs := Entries(view, sp.secondary, a, b), Entries(view, sp.secondary, b, c);
    ListedApart(es, fs, sp, log, a, b, c);
    SnapshotOfHalves(es, fs, max);
  }

  lemma ListedApart(es: seq<Entry>, fs: seq<Entry>, sp: Spaces, log: Log, a: Time, b: Time, c: Time)
    requires Listed(es, sp, log, a, b) && Listed(fs, sp, log, b, c)
    ensures Apart(es, fs)
  {
  }

  // ---------- The reads themselves ----------

  /** Where a scan of both halves hides an entry: like the half alone, or from above. */
  lemma HiddenInHalf(es: seq<Entry>, fs: seq<Entry>, max: Revision, p: nat)
    requires p < |es| + |fs|
    ensures p >= |es| ==> (Hidden(es + fs, p, max) <==> Hidden(fs, p - |es|, max))
    ensures p < |es| ==> (Hidden(es + fs, p, max)
                    <==> Hidden(es, p, max) || exists i :: |es| <= i < |es| + |fs| && HidesFrom(es + fs, p, i, max))
  {
    hide Hidden;
    var all, m := es + fs, |es|;
    HiddenIff(all, p, max);
    if p >= m {
      var q := p - m;
      HiddenIff(fs, q, max);
      forall i | p < i < |all| ensures HidesFrom(all, p, i, max) <==> HidesFrom(fs, q, i - m, max) {
        HidesAbove(es, fs, max, p, i);
      }
      if i :| q < i < |fs| && HidesFrom(fs, q, i, max) {
        HidesAbove(es, fs, max, p, i + m);
      }
    } else {
      HiddenIff(es, p, max);
      forall i | p < i < m ensures HidesFrom(all, p, i, max) <==> HidesFrom(es, p, i, max) {
        assert forall j | p <= j < i :: RunTop(all, j) <==> RunTop(es, j);
      }
    }
  }

  lemma HidesAbove(es: seq<Entry>, fs: seq<Entry>, max: Revision, p: nat, i: nat)
    requires |es| <= p < i < |es| + |fs|
    ensures HidesFrom(es + fs, p, i, max) <==> HidesFrom(fs, p - |es|, i - |es|, max)
  {
    var all, m := es + fs, |es|;
    forall j | m <= j < |all| ensures all[j] == fs[j - m] && (RunTop(all, j) <==> RunTop(fs, j - m)) {
    }
    assert forall j | 0 <= j < |fs| :: RunTop(fs, j) <==> RunTop(all, m + j);
    assert forall j | 0 <= j < |fs| :: fs[j] == all[m + j];
  }

  lemma EmittedInHalf(es: seq<Entry>, fs: seq<Entry>, max: Revision, p: nat)
    requires p < |es| + |fs|
    ensures p >= |es| ==> (Emits(es + fs, p, max) <==> Emits(fs, p - |es|, max))
    ensures p < |es| ==> (Emits(es + fs, p, max)
                    <==> Emits(es, p, max) && forall i | |es| <= i < |es| + |fs| :: !HidesFrom(es + fs, p, i, max))
  {
    hide Hidden, HidesFrom;
    HiddenInHalf(es, fs, max, p);
  }

  lemma EmittedMeans(es: seq<Entry>, max: Revision)
    ensures forall p: int :: p in Emitted(es, max) <==> 0 <= p < |es| && Emits(es, p, max)
    ensures Reported(es, max) == Pick(es, Emitted(es, max), 0)
  {
    hide Emits, Pick;
  }

  /** What both halves report, as positions of the whole. */
  ghost function EitherHalf(es: seq<Entry>, fs: seq<Entry>, max: Revision): iset<int> {
    iset p: int | 0 <= p < |es| + |fs| && if p < |es| then Emits(es, p, max) else Emits(fs, p - |es|, max)
  }

  lemma PickEitherHalf(es: seq<Entry>, fs: seq<Entry>, max: Revision)
    ensures Pick(es + fs, EitherHalf(es, fs, max), 0) == Reported(es, max) + Reported(fs, max)
  {
    hide Emits, Pick, Emitted;
    EmittedMeans(es, max);
    EmittedMeans(fs, max);
    forall q | 0 <= q < |fs| ensures |es| + q in EitherHalf(es, fs, max) <==> q in Emitted(fs, max) {
      assert |es| + q - |es| == q;
    }
    PickFirst(es + fs, es, fs, EitherHalf(es, fs, max), Emitted(es, max), Emitted(fs, max), 0);
  }

  /** Two scans report at least what one scan over both halves reports, and the same iff
      no tombstone of the upper half hides what the lower half reports. */
  lemma ReportedSplitIff(es: seq<Entry>, fs: seq<Entry>, max: Revision)
    ensures |Reported(es + fs, max)| <= |Reported(es, max)| + |Reported(fs, max)|
    ensures Reported(es + fs, max) == Reported(es, max) + Reported(fs, max)
       <==> forall p, i | 0 <= p < |es| <= i < |es| + |fs| && Emits(es, p, max) :: !HidesFrom(es + fs, p, i, max)
  {
    hide Emits, HidesFrom, Pick, Emitted, Reported;
    var all := es + fs;
    var a, b := Emitted(all, max), EitherHalf(es, fs, max);
    EmittedMeans(all, max);
    forall p | 0 <= p < |all|
      ensures p >= |es| ==> (p in a <==> p in b)
      ensures p < |es| ==> (p in a <==> p in b && forall i | |es| <= i < |all| :: !HidesFrom(all, p, i, max))
    {
      EmittedInHalf(es, fs, max, p);
    }
    PickSubset(all, a, b, 0);
    PickEitherHalf(es, fs, max);
    if Reported(all, max) == Reported(es, max) + Reported(fs, max) {
      forall p, i | 0 <= p < |es| <= i < |es| + |fs| && Emits(es, p, max) ensures !HidesFrom(all, p, i, max) {
        assert p in b;
      }
    }
  }

  /** So range reads concatenate wherever they are exact. */
  lemma RangeReadsConcatenate(view: Store, sp: Spaces, others: Store, log: Log, a: Time, b: Time, c: Time, max: Revision)
    requires Represents(view, sp, others, log) && a <= b <= c
    requires KeysAboveRevisions(log) && TimesMonotone(log) && NoLateDeletion(log, a, c, max)
    ensures Reported(Entries(view, sp.secondary, a, c), max)
         == Reported(Entries(view, sp.secondary, a, b), max) + Reported(Entries(view, sp.secondary, b, c), max)
  {
    NoLateDeletionWithin(log, a, b, c, max);
    hide *;
    var p := sp.secondary;
    RangeReadIsSnapshot(view, sp, others, log, a, c, max, Entries(view, p, a, c));
    RangeReadIsSnapshot(view, sp, others, log, a, b, max, Entries(view, p, a, b));
    RangeReadIsSnapshot(view, sp, others, log, b, c, max, Entries(view, p, b, c));
    SnapshotsConcatenate(view, sp, others, log, a, b, c, max);
  }

  lemma NoLateDeletionWithin(log: Log, a: Time, b: Time, c: Time, max: Revision)
    requires a <= b <= c && NoLateDeletion(log, a, c, max)
    ensures NoLateDeletion(log, a, b, max) && NoLateDeletion(log, b, c, max)
  {
  }
}
