/** What the tombstone-skipping backward scan of a secondary-index range reports, as a
    property of the entries in the range, and how that compares with a snapshot. */
module RangeScan {
  import opened ByteStrings
  import opened VPack
  import opened Keys

  datatype Entry = Entry(time: Time, key: Bytes, rev: Revision, dead: bool)

  /** Revisions at the chosen positions, in key order. */
  ghost function Pick(es: seq<Entry>, keep: iset<int>, p: nat): seq<Revision>
    decreases |es| - p
  {
    if p >= |es| then []
    else (if p in keep then [es[p].rev] else []) + Pick(es, keep, p + 1)
  }

  // ---------- The scan, from the last entry down ----------

  /** `p` is the highest entry of a run of entries with one user key. */
  ghost predicate RunTop(es: seq<Entry>, p: nat)
    requires p < |es|
  {
    p + 1 == |es| || es[p].key != es[p + 1].key
  }

  /** A tombstone the reader may see. */
  ghost predicate Kills(es: seq<Entry>, p: nat, max: Revision)
    requires p < |es|
  {
    es[p].dead && es[p].rev <= max
  }

  /** The scan arrives at `p` while looking for a different user key. */
  ghost predicate Skipping(es: seq<Entry>, p: nat, max: Revision)
    requires p < |es|
    decreases |es| - p, 0
  {
    p + 1 < |es| && (Kills(es, p + 1, max) || Hidden(es, p + 1, max))
  }

  /** The scan passes `p` unread. */
  ghost predicate Hidden(es: seq<Entry>, p: nat, max: Revision)
    requires p < |es|
    decreases |es| - p, 1
  {
    Skipping(es, p, max) && (RunTop(es, p) ==> es[p].dead)
  }

  ghost predicate Emits(es: seq<Entry>, p: nat, max: Revision)
    requires p < |es|
  {
    !es[p].dead && es[p].rev <= max && !Hidden(es, p, max)
  }

  ghost function Emitted(es: seq<Entry>, max: Revision): iset<int> {
    iset p: int | 0 <= p < |es| && Emits(es, p, max)
  }

  ghost function Reported(es: seq<Entry>, max: Revision): seq<Revision> {
    Pick(es, Emitted(es, max), 0)
  }

  /** How the state of the scan changes on the way down. */
  lemma ScanStep(es: seq<Entry>, p: nat, max: Revision)
    requires p < |es|
    ensures Skipping(es, p, max) <==> p + 1 < |es| && (Kills(es, p + 1, max) || Hidden(es, p + 1, max))
    ensures Hidden(es, p, max) <==> Skipping(es, p, max) && (RunTop(es, p) ==> es[p].dead)
  {
  }

  /** A tombstone at `i` hides everything below it down to `p`: each run in between
      starts with a tombstone, of whatever revision. */
  ghost predicate HidesFrom(es: seq<Entry>, p: nat, i: nat, max: Revision)
    requires p < i < |es|
  {
    Kills(es, i, max) && forall j | p <= j < i && RunTop(es, j) :: es[j].dead
  }

  lemma {:induction false} HiddenIff(es: seq<Entry>, p: nat, max: Revision)
    requires p < |es|
    ensures Hidden(es, p, max) <==> exists i :: p < i < |es| && HidesFrom(es, p, i, max)
    decreases |es| - p
  {
    if p + 1 < |es| {
      HiddenIff(es, p + 1, max);
      if Hidden(es, p, max) {
        if Kills(es, p + 1, max) {
          assert HidesFrom(es, p, p + 1, max);
        } else {
          ScanStep(es, p, max);
          assert Hidden(es, p + 1, max);
          var i :| p + 1 < i < |es| && HidesFrom(es, p + 1, i, max);
          assert HidesFrom(es, p, i, max);
        }
      }
      if i :| p < i < |es| && HidesFrom(es, p, i, max) {
        assert RunTop(es, p) ==> es[p].dead;
        if i > p + 1 {
          assert HidesFrom(es, p + 1, i, max);
        }
      }
    }
  }

  // ---------- The snapshot ----------

  predicate SamePair(a: Entry, b: Entry) { a.time == b.time && a.key == b.key }

  /** Live at revision `max`: no newer entry of the same timestamp and key. */
  ghost predicate Visible(es: seq<Entry>, p: nat, max: Revision)
    requires p < |es|
  {
    !es[p].dead && es[p].rev <= max &&
    forall q | 0 <= q < |es| && SamePair(es[p], es[q]) && es[q].rev <= max :: es[q].rev <= es[p].rev
  }

  ghost function Snapshot(es: seq<Entry>, max: Revision): seq<Revision> {
    Pick(es, iset p: int | 0 <= p < |es| && Visible(es, p, max), 0)
  }

  /** Entries of one pair are adjacent, in revision order, live and dead in turn. */
  ghost predicate Grouped(es: seq<Entry>) {
    (forall i, j, k | 0 <= i < j < k < |es| && SamePair(es[i], es[k]) :: SamePair(es[i], es[j])) &&
    (forall i, j | 0 <= i < j < |es| && SamePair(es[i], es[j]) :: es[i].rev < es[j].rev) &&
    (forall i | 0 <= i < |es| - 1 && SamePair(es[i], es[i + 1]) :: es[i].dead != es[i + 1].dead)
  }

  /** Nothing deleted is ever reported. */
  lemma EmittedIsVisible(es: seq<Entry>, p: nat, max: Revision)
    requires Grouped(es) && p < |es| && Emits(es, p, max)
    ensures Visible(es, p, max)
  {
    forall q | 0 <= q < |es| && SamePair(es[p], es[q]) && es[q].rev <= max ensures es[q].rev <= es[p].rev {
      if es[q].rev > es[p].rev {
        assert q > p by {
          if q < p { assert SamePair(es[q], es[p]); }
        }
        assert SamePair(es[p], es[p + 1]) by {
          if q > p + 1 { assert SamePair(es[p], es[p + 1]); }
        }
        assert es[p + 1].rev <= es[q].rev by {
          if q > p + 1 { assert SamePair(es[p + 1], es[q]); }
        }
        assert Kills(es, p + 1, max);
        assert !RunTop(es, p);
        assert Hidden(es, p, max);
      }
    }
  }

  // ---------- Exactly when the scan is right ----------

  /** Insertions a reader at `max` may see. */
  ghost predicate MayBeSeen(es: seq<Entry>, p: nat, max: Revision)
    requires p < |es|
  {
    !es[p].dead && es[p].rev <= max
  }

  /** A newer entry of the same timestamp and key ends it. */
  ghost predicate Superseded(es: seq<Entry>, p: nat, max: Revision)
    requires p < |es|
  {
    exists q :: 0 <= q < |es| && SamePair(es[p], es[q]) && es[p].rev < es[q].rev <= max
  }

  /** A tombstone above hides it. */
  ghost predicate Covered(es: seq<Entry>, p: nat, max: Revision)
    requires p < |es|
  {
    exists i :: p < i < |es| && HidesFrom(es, p, i, max)
  }

  ghost predicate DistinctRevisions(es: seq<Entry>) {
    forall i, j | 0 <= i < j < |es| :: es[i].rev != es[j].rev
  }

  lemma WhatIsSeen(es: seq<Entry>, p: nat, max: Revision)
    requires p < |es|
    ensures Visible(es, p, max) <==> MayBeSeen(es, p, max) && !Superseded(es, p, max)
    ensures Emits(es, p, max) <==> MayBeSeen(es, p, max) && !Covered(es, p, max)
  {
    HiddenIff(es, p, max);
    hide Hidden, HidesFrom;
  }

  lemma {:induction false} PickMembers(es: seq<Entry>, keep: iset<int>, p: nat, r: Revision)
    ensures r in Pick(es, keep, p) <==> exists i :: p <= i < |es| && i in keep && es[i].rev == r
    decreases |es| - p
  {
    if p < |es| { PickMembers(es, keep, p + 1, r); }
  }

  lemma {:induction false} PickSame(es: seq<Entry>, a: iset<int>, b: iset<int>, p: nat)
    requires forall q | p <= q < |es| :: q in a <==> q in b
    ensures Pick(es, a, p) == Pick(es, b, p)
    decreases |es| - p
  {
    if p < |es| { PickSame(es, a, b, p + 1); }
  }

  lemma PickWithinIff(es: seq<Entry>, a: iset<int>, b: iset<int>)
    requires DistinctRevisions(es)
    ensures (forall r | r in Pick(es, a, 0) :: r in Pick(es, b, 0)) <==> forall p | 0 <= p < |es| && p in a :: p in b
  {
    hide Pick;
    forall r ensures r in Pick(es, a, 0) <==> exists i :: 0 <= i < |es| && i in a && es[i].rev == r {
      PickMembers(es, a, 0, r);
    }
    forall r ensures r in Pick(es, b, 0) <==> exists i :: 0 <= i < |es| && i in b && es[i].rev == r {
      PickMembers(es, b, 0, r);
    }
    if forall r | r in Pick(es, a, 0) :: r in Pick(es, b, 0) {
      forall p | 0 <= p < |es| && p in a ensures p in b {
        assert es[p].rev in Pick(es, a, 0);
        var i :| 0 <= i < |es| && i in b && es[i].rev == es[p].rev;
        assert i == p;
      }
    }
  }

  ghost predicate Sound(es: seq<Entry>, max: Revision) { forall r | r in Reported(es, max) :: r in Snapshot(es, max) }
  ghost predicate Complete(es: seq<Entry>, max: Revision) { forall r | r in Snapshot(es, max) :: r in Reported(es, max) }

  ghost predicate EndedAreCovered(es: seq<Entry>, max: Revision) {
    forall p | 0 <= p < |es| && MayBeSeen(es, p, max) :: Superseded(es, p, max) ==> Covered(es, p, max)
  }

  ghost predicate CoveredHaveEnded(es: seq<Entry>, max: Revision) {
    forall p | 0 <= p < |es| && MayBeSeen(es, p, max) :: Covered(es, p, max) ==> Superseded(es, p, max)
  }

  /** On any entries, the scan reports nothing but the snapshot iff every entry that has
      ended is covered, misses nothing iff every covered entry has ended, and returns the
      snapshot iff the two coincide. */
  lemma ScanIsExactIff(es: seq<Entry>, max: Revision)
    requires DistinctRevisions(es)
    ensures Sound(es, max) <==> EndedAreCovered(es, max)
    ensures Complete(es, max) <==> CoveredHaveEnded(es, max)
    ensures Reported(es, max) == Snapshot(es, max) <==> EndedAreCovered(es, max) && CoveredHaveEnded(es, max)
  {
    hide Pick, Visible, Emits, MayBeSeen, Superseded, Covered;
    var a := Emitted(es, max);
    var b := iset p: int | 0 <= p < |es| && Visible(es, p, max);
    assert Reported(es, max) == Pick(es, a, 0) && Snapshot(es, max) == Pick(es, b, 0);
    PickWithinIff(es, a, b);
    PickWithinIff(es, b, a);
    assert Sound(es, max) <==> forall p | 0 <= p < |es| && p in a :: p in b;
    assert Complete(es, max) <==> forall p | 0 <= p < |es| && p in b :: p in a;
    forall p | 0 <= p < |es|
      ensures p in a <==> MayBeSeen(es, p, max) && !Covered(es, p, max)
      ensures p in b <==> MayBeSeen(es, p, max) && !Superseded(es, p, max)
    {
      WhatIsSeen(es, p, max);
    }
    assert (forall p | 0 <= p < |es| && p in a :: p in b)
      <==> forall p | 0 <= p < |es| && MayBeSeen(es, p, max) :: Superseded(es, p, max) ==> Covered(es, p, max) by {
      if forall p | 0 <= p < |es| && p in a :: p in b {
        forall p | 0 <= p < |es| && MayBeSeen(es, p, max) ensures Superseded(es, p, max) ==> Covered(es, p, max) {
          assert p in a ==> p in b;
        }
      }
    }
    assert (forall p | 0 <= p < |es| && p in b :: p in a)
      <==> forall p | 0 <= p < |es| && MayBeSeen(es, p, max) :: Covered(es, p, max) ==> Superseded(es, p, max) by {
      if forall p | 0 <= p < |es| && p in b :: p in a {
        forall p | 0 <= p < |es| && MayBeSeen(es, p, max) ensures Covered(es, p, max) ==> Superseded(es, p, max) {
          assert p in b ==> p in a;
        }
      }
    }
    if forall p | 0 <= p < |es| && MayBeSeen(es, p, max) :: Superseded(es, p, max) <==> Covered(es, p, max) {
      PickSame(es, a, b, 0);
    }
  }

  // ---------- Comparing two selections ----------

  lemma {:induction false} PickSubset(es: seq<Entry>, a: iset<int>, b: iset<int>, p: nat)
    requires forall q | p <= q < |es| && q in a :: q in b
    ensures |Pick(es, a, p)| <= |Pick(es, b, p)|
    ensures Pick(es, a, p) == Pick(es, b, p) <==> forall q | p <= q < |es| && q in b :: q in a
    decreases |es| - p
  {
    if p < |es| {
      PickSubset(es, a, b, p + 1);
      var x, y := Pick(es, a, p + 1), Pick(es, b, p + 1);
      if p in a {
        assert Pick(es, a, p)[1..] == x && Pick(es, b, p)[1..] == y;
      } else if p in b {
        assert |Pick(es, a, p)| < |Pick(es, b, p)|;
      } else {
        assert Pick(es, a, p) == x && Pick(es, b, p) == y;
      }
    }
  }

  /** On grouped entries the scan returns the snapshot iff no visible entry is hidden;
      otherwise it returns strictly less. */
  lemma ReportedIsSnapshotIff(es: seq<Entry>, max: Revision)
    requires Grouped(es)
    ensures Reported(es, max) == Snapshot(es, max)
       <==> forall p, i | 0 <= p < i < |es| && Visible(es, p, max) :: !HidesFrom(es, p, i, max)
    ensures |Reported(es, max)| <= |Snapshot(es, max)|
  {
    var a := Emitted(es, max);
    var b := iset p: int | 0 <= p < |es| && Visible(es, p, max);
    forall p | 0 <= p < |es| && p in a ensures p in b {
      EmittedIsVisible(es, p, max);
    }
    PickSubset(es, a, b, 0);
    forall p | 0 <= p < |es| && Visible(es, p, max)
      ensures p in a <==> forall i | p < i < |es| :: !HidesFrom(es, p, i, max)
    {
      HiddenIff(es, p, max);
    }
    if forall q | 0 <= q < |es| && q in b :: q in a {
      forall p, i | 0 <= p < i < |es| && Visible(es, p, max) ensures !HidesFrom(es, p, i, max) {
        assert p in b;
      }
    }
  }

  // ---------- When nothing visible is hidden ----------

  /** No tombstone the reader sees stands above a visible entry of the same user key. */
  ghost predicate Timely(es: seq<Entry>, max: Revision) {
    forall p, i | 0 <= p < i < |es| && Visible(es, p, max) && es[p].key == es[i].key :: !Kills(es, i, max)
  }

  lemma {:induction false} SameRun(es: seq<Entry>, p: nat, i: nat) returns (t: nat)
    requires p <= i < |es|
    ensures p <= t <= i && es[t].key == es[p].key && (t == i || RunTop(es, t))
    decreases i - p
  {
    if p == i || RunTop(es, p) {
      t := p;
    } else {
      t := SameRun(es, p + 1, i);
    }
  }

  /** Reading at or after every tombstone of the range, with no deleted entry of a
      visible key above it, the scan is exact. */
  lemma TimelyScanIsSnapshot(es: seq<Entry>, max: Revision)
    requires Grouped(es) && Timely(es, max)
    requires forall p | 0 <= p < |es| && es[p].dead :: es[p].rev <= max
    ensures Reported(es, max) == Snapshot(es, max)
  {
    forall p, i | 0 <= p < i < |es| && Visible(es, p, max) ensures !HidesFrom(es, p, i, max) {
      if HidesFrom(es, p, i, max) {
        var t := SameRun(es, p, i);
        if t != i {
          assert es[t].dead;
        }
        assert Kills(es, t, max);
        assert false;
      }
    }
    ReportedIsSnapshotIff(es, max);
  }

  // ---------- Two ways to lose a live document ----------

  function LateTombstone(t: Time): seq<Entry> {
    [Entry(t, [49], 1, false), Entry(t, [49], 9, true), Entry(t, [50], 2, false), Entry(t, [50], 3, true)]
  }

  /** A tombstone newer than the reader hides a live pair when the scan reaches it
      while skipping another key. */
  lemma LateTombstoneHides(t: Time)
    ensures Grouped(LateTombstone(t)) && Snapshot(LateTombstone(t), 5) == [1] && Reported(LateTombstone(t), 5) == []
  {
    LateTombstoneVisible(t);
    LateTombstoneSkips(t);
    PickFour(LateTombstone(t), iset p: int | 0 <= p < 4 && Visible(LateTombstone(t), p, 5));
    PickFour(LateTombstone(t), Emitted(LateTombstone(t), 5));
    KeysDiffer();
    hide Visible, Emits, Pick;
  }

  lemma LateTombstoneSkips(t: Time)
    ensures forall p | 0 <= p < 4 :: !Emits(LateTombstone(t), p, 5)
  {
    var es := LateTombstone(t);
    KeysDiffer();
    assert Kills(es, 3, 5) && !RunTop(es, 2) && !RunTop(es, 0) && es[1].dead && es[3].dead;
    hide Hidden, Skipping, RunTop, Kills;
    ScanStep(es, 2, 5);
    ScanStep(es, 1, 5);
    ScanStep(es, 0, 5);
  }

  lemma LateTombstoneVisible(t: Time)
    ensures Visible(LateTombstone(t), 0, 5) && !Visible(LateTombstone(t), 1, 5)
    ensures !Visible(LateTombstone(t), 2, 5) && !Visible(LateTombstone(t), 3, 5)
  {
    var es := LateTombstone(t);
    KeysDiffer();
    assert SamePair(es[2], es[3]);
  }

  lemma KeysDiffer()
    ensures [49] != [50]
  {
    assert [49][0] != [50][0];
  }

  function EarlierReinsertion(t: Time): seq<Entry>
    requires IsInt64(t + 1)
  {
    [Entry(t, [49], 3, false), Entry(t + 1, [49], 1, false), Entry(t + 1, [49], 2, true)]
  }

  /** A tombstone also hides the same user key re-inserted under an earlier timestamp,
      because the skip compares user keys only. */
  lemma EarlierReinsertionHides(t: Time)
    requires IsInt64(t + 1)
    ensures Grouped(EarlierReinsertion(t)) && Snapshot(EarlierReinsertion(t), 5) == [3]
         && Reported(EarlierReinsertion(t), 5) == []
  {
    EarlierReinsertionVisible(t);
    EarlierReinsertionSkips(t);
    PickThree(EarlierReinsertion(t), iset p: int | 0 <= p < 3 && Visible(EarlierReinsertion(t), p, 5));
    PickThree(EarlierReinsertion(t), Emitted(EarlierReinsertion(t), 5));
    hide Visible, Emits, Pick;
  }

  lemma EarlierReinsertionSkips(t: Time)
    requires IsInt64(t + 1)
    ensures forall p | 0 <= p < 3 :: !Emits(EarlierReinsertion(t), p, 5)
  {
    var es := EarlierReinsertion(t);
    assert Kills(es, 2, 5) && !RunTop(es, 0) && !RunTop(es, 1) && es[2].dead;
    hide Hidden, Skipping, RunTop, Kills;
    ScanStep(es, 1, 5);
    ScanStep(es, 0, 5);
  }

  lemma EarlierReinsertionVisible(t: Time)
    requires IsInt64(t + 1)
    ensures Visible(EarlierReinsertion(t), 0, 5) && !Visible(EarlierReinsertion(t), 1, 5) && !Visible(EarlierReinsertion(t), 2, 5)
  {
    var es := EarlierReinsertion(t);
    assert SamePair(es[1], es[2]);
  }

  function Interleaved(t: Time, k: Bytes): seq<Entry> {
    [Entry(t, [49], 1, false), Entry(t, k, 3, false), Entry(t, [49], 2, true)]
  }

  /** Without adjacency even a deleted document comes back: the run of user key "1" is
      cut by another key, and its first entry is read again below it. */
  lemma InterleavedKeyResurrects(t: Time, k: Bytes)
    requires k != [49]
    ensures !Visible(Interleaved(t, k), 0, 5) && Reported(Interleaved(t, k), 5) == [1, 3]
  {
    var es := Interleaved(t, k);
    assert RunTop(es, 0) && RunTop(es, 1) && RunTop(es, 2);
    assert SamePair(es[0], es[2]);
    assert !Hidden(es, 0, 5) && !Hidden(es, 1, 5);
    PickThree(es, Emitted(es, 5));
  }

  lemma PickThree(es: seq<Entry>, keep: iset<int>)
    requires |es| == 3
    ensures Pick(es, keep, 0) == (if 0 in keep then [es[0].rev] else []) + (if 1 in keep then [es[1].rev] else [])
                               + (if 2 in keep then [es[2].rev] else [])
  {
    assert Pick(es, keep, 3) == [];
    assert Pick(es, keep, 2) == if 2 in keep then [es[2].rev] else [];
    assert Pick(es, keep, 1) == (if 1 in keep then [es[1].rev] else []) + Pick(es, keep, 2);
  }

  lemma PickFour(es: seq<Entry>, keep: iset<int>)
    requires |es| == 4
    ensures Pick(es, keep, 0) == (if 0 in keep then [es[0].rev] else []) + (if 1 in keep then [es[1].rev] else [])
                               + (if 2 in keep then [es[2].rev] else []) + (if 3 in keep then [es[3].rev] else [])
  {
    assert Pick(es, keep, 4) == [];
    assert Pick(es, keep, 3) == if 3 in keep then [es[3].rev] else [];
    assert Pick(es, keep, 2) == (if 2 in keep then [es[2].rev] else []) + Pick(es, keep, 3);
    assert Pick(es, keep, 1) == (if 1 in keep then [es[1].rev] else []) + Pick(es, keep, 2);
  }
}
