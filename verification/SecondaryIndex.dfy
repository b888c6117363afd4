/** `SecondaryIndex`: timestamp, user key and revision to a live or tombstone mark. */
module SecondaryIndex {
  import opened ByteStrings
  import opened Comparator
  import opened IndexValues
  import opened Keys
  import opened RocksDB
  import opened AsOf
  import opened RangeScan

  // ---------- The entries of a range ----------

  /** Keys of this index hold a timestamp, and a revision behind it. */
  ghost predicate Indexable(view: Store, p: Bytes) {
    AllWellFormed(view.Keys) && IsIndexPrefix(p) &&
    forall k | k in view && p <= k :: IsEntryKey(k)
  }

  predicate IsEntryKey(k: Bytes) {
    WellFormed(k) && k[0] == TypeIndex && IndexedOf(k).At? && |RestOf(k)| >= 8
  }

  function UserKey(k: Bytes): Bytes
    requires IsEntryKey(k)
  {
    RestOf(k)[..|RestOf(k)| - 8]
  }

  lemma EntryKeyParts(k: Bytes)
    requires IsEntryKey(k)
    ensures |k| >= 8 && k == EntryKey(k[..SluggedLength], IndexedOf(k), UserKey(k), Unwrap(k))
  {
    IndexKeyParts(k);
    var y, u := RestOf(k), UserKey(k);
    KeyPrefixIs(k[..SluggedLength], IndexedOf(k), u);
    hide IndexedOf, RestOf, UserKey;
    assert y == u + y[|u|..];
    assert k == KeyPrefix(k[..SluggedLength], IndexedOf(k), u) + y[|u|..];
    EntryFromPrefix(k[..SluggedLength], IndexedOf(k), u, k);
  }

  /** How many of the sorted keys precede the target. */
  ghost function CountBelow(ks: seq<Bytes>, target: Bytes): (n: nat)
    ensures n <= |ks|
  {
    if ks == [] then 0
    else CountBelow(ks[..|ks| - 1], target) + (if Order(ks[|ks| - 1], target) < 0 then 1 else 0)
  }

  lemma {:induction false} CountBelowSplits(ks: seq<Bytes>, target: Bytes)
    requires Sorted(ks)
    ensures forall i | 0 <= i < |ks| :: Order(ks[i], target) < 0 <==> i < CountBelow(ks, target)
    decreases |ks|
  {
    hide Order, WellFormed;
    if ks != [] {
      var last := |ks| - 1;
      CountBelowSplits(ks[..last], target);
      if Order(ks[last], target) < 0 {
        forall i | 0 <= i < last ensures Order(ks[..last][i], target) < 0 && i < CountBelow(ks[..last], target) {
          assert Less(ks[i], ks[last]);
          OrderTransitive(ks[i], ks[last], target);
        }
        assert CountBelow(ks[..last], target) >= last;
      } else {
        forall i | 0 <= i < last ensures Order(ks[i], target) < 0 <==> i < CountBelow(ks, target) {
          assert ks[..last][i] == ks[i];
        }
      }
    }
  }

  lemma RangeBounds(p: Bytes, t: Time, k: Bytes)
    requires IsIndexPrefix(p) && WellFormed(k)
    requires k[0] == TypeIndex && k[..SluggedLength] == p && IndexedOf(k).At?
    ensures Order(k, ValuePrefix(p, At(t))) < 0 <==> IndexedOf(k).time < t
  {
    RankParts(k);
    RankOfBound(p, t);
    LexAtTime(p, IndexedOf(k).time, RestOf(k), t);
  }

  lemma RankOfBound(p: Bytes, t: Time)
    requires IsIndexPrefix(p)
    ensures WellFormed(ValuePrefix(p, At(t))) && Rank(ValuePrefix(p, At(t))) == p + [t]
  {
    IndexKeyShape(p, At(t), []);
    assert ValuePrefix(p, At(t)) + [] == ValuePrefix(p, At(t));
    assert p + [t] + [] == p + [t];
  }

  lemma LexAtTime(p: seq<int>, c: int, y: seq<int>, t: int)
    ensures Lex(p + [c] + y, p + [t]) < 0 <==> c < t
  {
    assert p + [c] + y == p + ([c] + y) && p + [t] == p + ([t] + []);
    LexCommonPrefix(p, [c] + y, [t] + []);
    LexHeads([c], [t], y, []);
    LexOfSingles(c, t);
    LexOfPrefix([], y);
    LexFlip([], y);
  }

  lemma SlugOfRank(p: Bytes, k: Bytes)
    requires IsIndexPrefix(p) && WellFormed(k) && p <= Rank(k)
    ensures p <= k
  {
    RankHead(k);
    assert Rank(k)[0] == p[0];
    SplitPrefix(k);
    assert Rank(k)[..SluggedLength] == p;
  }

  /** The keys between the two bounds of a range are those of this index and the range. */
  lemma RangeIff(p: Bytes, start: Time, next: Time, k: Bytes)
    requires IsIndexPrefix(p) && WellFormed(k)
    requires p <= k ==> IsEntryKey(k)
    ensures !(Order(k, ValuePrefix(p, At(start))) < 0) && Order(k, ValuePrefix(p, At(next))) < 0
       <==> p <= k && IsEntryKey(k) && start <= IndexedOf(k).time < next
  {
    RankOfBound(p, start);
    RankOfBound(p, next);
    if p <= k {
      assert k[..SluggedLength] == p;
      RangeBounds(p, start, k);
      RangeBounds(p, next, k);
    } else if !(Order(k, ValuePrefix(p, At(start))) < 0) && Order(k, ValuePrefix(p, At(next))) < 0 {
      OrderTotal(k, ValuePrefix(p, At(start)));
      LexBetween(p, Rank(ValuePrefix(p, At(start))), Rank(k), Rank(ValuePrefix(p, At(next))));
      SlugOfRank(p, k);
      assert false;
    }
  }

  ghost function EntryOf(view: Store, k: Bytes): Entry {
    if k in view && IsEntryKey(k) then
      EntryKeyParts(k);
      Entry(IndexedOf(k).time, UserKey(k), Unwrap(k), view[k] == Tombstone)
    else Entry(0, [], 0, false)
  }

  ghost function EntriesOf(view: Store, ks: seq<Bytes>): (es: seq<Entry>)
    ensures |es| == |ks| && forall i | 0 <= i < |ks| :: es[i] == EntryOf(view, ks[i])
  {
    if ks == [] then [] else [EntryOf(view, ks[0])] + EntriesOf(view, ks[1..])
  }

  /** The entries with a timestamp in `[start, next)`, in key order. */
  ghost function Entries(view: Store, p: Bytes, start: Time, next: Time): (es: seq<Entry>) {
    if !AllWellFormed(view.Keys) then []
    else
      var ks := SortedKeys(view.Keys);
      var lo, hi := CountBelow(ks, ValuePrefix(p, At(start))), CountBelow(ks, ValuePrefix(p, At(next)));
      if lo <= hi then EntriesOf(view, ks[lo..hi]) else []
  }

  lemma InRange(view: Store, p: Bytes, ks: seq<Bytes>, i: nat, start: Time, next: Time)
    requires Indexable(view, p) && ks == SortedKeys(view.Keys) && i < |ks|
    ensures ks[i] in view
    ensures CountBelow(ks, ValuePrefix(p, At(start))) <= i < CountBelow(ks, ValuePrefix(p, At(next)))
       <==> p <= ks[i] && IsEntryKey(ks[i]) && start <= IndexedOf(ks[i]).time < next
  {
    CountBelowSplits(ks, ValuePrefix(p, At(start)));
    CountBelowSplits(ks, ValuePrefix(p, At(next)));
    assert ks[i] in ks;
    RangeIff(p, start, next, ks[i]);
  }

  // ---------- Progress of the range scan ----------

  function Backwards(rs: seq<Revision>): (r: seq<Revision>)
    ensures |r| == |rs|
  {
    if rs == [] then [] else Backwards(rs[1..]) + [rs[0]]
  }

  lemma {:induction false} BackwardsAppend(rs: seq<Revision>, r: Revision)
    ensures Backwards(rs + [r]) == [r] + Backwards(rs)
    decreases |rs|
  {
    if rs == [] {
      assert rs + [r] == [r];
    } else {
      BackwardsAppend(rs[1..], r);
      assert (rs + [r])[1..] == rs[1..] + [r];
    }
  }

  /** The collected revisions are those the scan reports above the cursor. */
  ghost predicate Gathered(es: seq<Entry>, max: Revision, lo: nat, pos: int, revisions: seq<Revision>) {
    Backwards(revisions) == Pick(es, Emitted(es, max), if pos + 1 >= lo then pos + 1 - lo else 0)
  }

  lemma Gather(es: seq<Entry>, max: Revision, lo: nat, pos: int, revisions: seq<Revision>, below: int)
    requires Gathered(es, max, lo, pos, revisions) && below == pos - 1 && pos - lo < |es|
    ensures pos >= lo && Emits(es, pos - lo, max) ==> Gathered(es, max, lo, below, revisions + [es[pos - lo].rev])
    ensures !(pos >= lo && Emits(es, pos - lo, max)) ==> Gathered(es, max, lo, below, revisions)
  {
    if pos >= lo {
      BackwardsAppend(revisions, es[pos - lo].rev);
    }
  }

  /** A tombstone the scan stops at, or passes, sends it on to the next user key. */
  lemma PassTombstone(es: seq<Entry>, p: nat, max: Revision)
    requires p < |es| && es[p].dead && (Skipping(es, p, max) || es[p].rev <= max)
    ensures !Emits(es, p, max) && (p > 0 ==> Skipping(es, p - 1, max))
  {
    ScanStep(es, p, max);
    if p > 0 { ScanStep(es, p - 1, max); }
  }

  lemma PassSameKey(es: seq<Entry>, p: nat, max: Revision)
    requires p + 1 < |es| && es[p].key == es[p + 1].key && Skipping(es, p, max)
    ensures !Emits(es, p, max) && (p > 0 ==> Skipping(es, p - 1, max))
  {
    ScanStep(es, p, max);
    if p > 0 { ScanStep(es, p - 1, max); }
  }

  lemma PassTooNew(es: seq<Entry>, p: nat, max: Revision)
    requires p < |es| && es[p].rev > max && !Skipping(es, p, max)
    ensures !Emits(es, p, max) && (p > 0 ==> !Skipping(es, p - 1, max))
  {
    ScanStep(es, p, max);
    if p > 0 { ScanStep(es, p - 1, max); }
  }

  lemma ReadLive(es: seq<Entry>, p: nat, max: Revision)
    requires p < |es| && !es[p].dead && (!Skipping(es, p, max) || RunTop(es, p))
    ensures Emits(es, p, max) <==> es[p].rev <= max
    ensures p > 0 ==> !Skipping(es, p - 1, max)
  {
    ScanStep(es, p, max);
    if p > 0 { ScanStep(es, p - 1, max); }
  }

  /** The sorted keys, the part of them that makes up the range, and its entries. */
  ghost predicate Window(view: Store, p: Bytes, start: Time, next: Time, ks: seq<Bytes>, lo: nat, hi: nat, es: seq<Entry>) {
    Indexable(view, p) && ks == SortedKeys(view.Keys) &&
    lo == CountBelow(ks, ValuePrefix(p, At(start))) && hi == CountBelow(ks, ValuePrefix(p, At(next))) &&
    es == Entries(view, p, start, next)
  }

  lemma WindowSize(view: Store, p: Bytes, start: Time, next: Time, ks: seq<Bytes>, lo: nat, hi: nat, es: seq<Entry>)
    requires Window(view, p, start, next, ks, lo, hi, es)
    ensures Sorted(ks) && Indexable(view, p) && IsIndexPrefix(p) && lo <= |ks| && hi <= |ks|
    ensures forall k :: k in ks <==> k in view
    ensures |es| == if lo <= hi then hi - lo else 0
    ensures forall i | 0 <= i < |es| :: es[i] == EntryOf(view, ks[lo + i])
    ensures forall i | 0 <= i < |ks| :: ks[i] in view && WellFormed(ks[i])
  {
    hide CountBelow, EntryOf, WellFormed, ValuePrefix, SortedKeys, IsEntryKey, Less, IsIndexPrefix;
    if lo <= hi {
      forall i | 0 <= i < |es| ensures es[i] == EntryOf(view, ks[lo + i]) {
        assert ks[lo..hi][i] == ks[lo + i];
      }
    }
    forall i | 0 <= i < |ks| ensures ks[i] in view { assert ks[i] in ks; }
  }

  lemma WindowStart(view: Store, p: Bytes, start: Time, next: Time, ks: seq<Bytes>, lo: nat, hi: nat, es: seq<Entry>, pos: nat)
    requires Window(view, p, start, next, ks, lo, hi, es) && pos < |ks|
    ensures WellFormed(ks[pos]) && WellFormed(ValuePrefix(p, At(start)))
    ensures AtOrAfter(ks[pos], ValuePrefix(p, At(start))) <==> lo <= pos
  {
    WindowSize(view, p, start, next, ks, lo, hi, es);
    RankOfBound(p, start);
    var k, b := ks[pos], ValuePrefix(p, At(start));
    assert WellFormed(k) && lo == CountBelow(ks, b);
    hide *;
    AtOrAfterIsOrder(k, b);
    CountBelowSplits(ks, b);
  }

  /** The end-of-range test of the scan. */
  predicate AtOrAfter(k: Bytes, bound: Bytes)
    requires WellFormed(k) && WellFormed(bound)
  {
    Compare(k, bound) >= 0
  }

  lemma AtOrAfterIsOrder(k: Bytes, bound: Bytes)
    requires WellFormed(k) && WellFormed(bound)
    ensures AtOrAfter(k, bound) <==> !(Order(k, bound) < 0)
  {
    CompareIsOrder(k, bound);
  }

  lemma SignOfComparison(x: int)
    ensures Sign(x) < 0 <==> x < 0
  {
  }

  lemma WindowEntry(view: Store, p: Bytes, start: Time, next: Time, ks: seq<Bytes>, lo: nat, hi: nat, es: seq<Entry>, pos: nat)
    requires Window(view, p, start, next, ks, lo, hi, es) && lo <= pos < hi
    ensures pos < |ks| && pos - lo < |es| && ks[pos] in view && IsEntryKey(ks[pos]) && |ks[pos]| >= 8
    ensures es[pos - lo].key == UserKey(ks[pos]) && es[pos - lo].rev == Unwrap(ks[pos])
    ensures es[pos - lo].dead <==> view[ks[pos]] == Tombstone
  {
    WindowSize(view, p, start, next, ks, lo, hi, es);
    InRange(view, p, ks, pos, start, next);
    assert es[pos - lo] == EntryOf(view, ks[lo + (pos - lo)]);
    hide Window, Indexable, CountBelow, SortedKeys, ValuePrefix, IsEntryKey, UserKey, Unwrap;
    EntryKeyParts(ks[pos]);
  }

  lemma BoundIsNoEntry(p: Bytes, t: Time)
    requires IsIndexPrefix(p)
    ensures p <= ValuePrefix(p, At(t)) && !IsEntryKey(ValuePrefix(p, At(t)))
  {
    assert ValuePrefix(p, At(t)) + [] == ValuePrefix(p, At(t));
    PartsOf(p, At(t), []);
  }

  lemma WindowTop(view: Store, p: Bytes, start: Time, next: Time, ks: seq<Bytes>, lo: nat, hi: nat, es: seq<Entry>, pos: int)
    requires Window(view, p, start, next, ks, lo, hi, es)
    requires AtOrBelow(ks, pos, ValuePrefix(p, At(next))) && -1 <= pos < |ks|
    ensures pos + 1 == hi
  {
    WindowSize(view, p, start, next, ks, lo, hi, es);
    var b := ValuePrefix(p, At(next));
    assert hi == CountBelow(ks, b);
    RankOfBound(p, next);
    BoundIsNoEntry(p, next);
    NoSuchKey(view, p, b);
    hide *;
    CountBelowSplits(ks, b);
    LastAtOrBelow(ks, hi, b, pos);
  }

  lemma LastAtOrBelow(ks: seq<Bytes>, hi: nat, b: Bytes, pos: int)
    requires Sorted(ks) && b !in ks && WellFormed(b) && hi <= |ks| && -1 <= pos < |ks|
    requires forall i | 0 <= i < |ks| :: Order(ks[i], b) < 0 <==> i < hi
    requires AtOrBelow(ks, pos, b)
    ensures pos + 1 == hi
  {
    hide Order, WellFormed;
    if 0 <= pos { OrderTotal(ks[pos], b); }
    if pos + 1 < |ks| { assert !(Order(ks[pos + 1], b) <= 0); }
  }

  lemma NoSuchKey(view: Store, p: Bytes, b: Bytes)
    requires Indexable(view, p) && p <= b && !IsEntryKey(b)
    ensures b !in view
  {
  }

  lemma NothingGathered(es: seq<Entry>, max: Revision, lo: nat, hi: nat, pos: int)
    requires |es| == (if lo <= hi then hi - lo else 0) && pos + 1 == hi
    ensures Gathered(es, max, lo, pos, [])
    ensures lo <= pos ==> pos - lo < |es| && !Skipping(es, pos - lo, max)
  {
    assert Backwards([]) == [];
    if lo <= pos { ScanStep(es, pos - lo, max); }
  }

  lemma IndexablePrefix(view: Store, p: Bytes)
    requires Indexable(view, p)
    ensures IsIndexPrefix(p) && AllWellFormed(view.Keys)
  {
  }

  lemma OpenWindow(view: Store, p: Bytes, start: Time, next: Time, ks: seq<Bytes>)
    requires Indexable(view, p) && ks == SortedKeys(view.Keys)
    ensures AllWellFormed(view.Keys)
    ensures Window(view, p, start, next, ks, CountBelow(ks, ValuePrefix(p, At(start))),
                   CountBelow(ks, ValuePrefix(p, At(next))), Entries(view, p, start, next))
  {
  }

  /** The cursor is past entries of `key` and still looks for another key. */
  ghost predicate Skipped(es: seq<Entry>, lo: nat, pos: int, key: Bytes, max: Revision) {
    pos >= lo ==> pos + 1 - lo < |es| && Skipping(es, pos - lo, max) && es[pos + 1 - lo].key == key
  }

  lemma SkipBegins(es: seq<Entry>, lo: nat, first: int, below: int, key: Bytes, max: Revision)
    requires lo <= first && first - lo < |es| && below == first - 1 && es[first - lo].key == key
    requires es[first - lo].dead && (Skipping(es, first - lo, max) || es[first - lo].rev <= max)
    ensures Skipped(es, lo, below, key, max) && !Emits(es, first - lo, max)
  {
    PassTombstone(es, first - lo, max);
  }

  lemma SkipStep(es: seq<Entry>, lo: nat, pos: int, below: int, key: Bytes, max: Revision)
    requires Skipped(es, lo, pos, key, max) && below == pos - 1
    requires pos >= lo ==> es[pos - lo].key == key
    ensures Skipped(es, lo, below, key, max) && (pos >= lo ==> !Emits(es, pos - lo, max))
  {
    if pos >= lo { PassSameKey(es, pos - lo, max); }
  }

  lemma SkipEnds(es: seq<Entry>, lo: nat, pos: int, key: Bytes, max: Revision)
    requires Skipped(es, lo, pos, key, max) && pos >= lo && pos - lo < |es| && es[pos - lo].key != key
    ensures Skipping(es, pos - lo, max) && RunTop(es, pos - lo)
  {
  }

  lemma Finished(es: seq<Entry>, max: Revision, lo: nat, pos: int, revisions: seq<Revision>)
    requires Gathered(es, max, lo, pos, revisions) && pos < lo
    ensures Backwards(revisions) == Reported(es, max)
  {
  }

  // ---------- The index ----------

  class SecondaryIndex {
    const prefix: Bytes

    constructor (slug: Slug)
      ensures prefix == IndexPrefix(slug)
    {
      prefix := IndexPrefix(slug);
    }

    /** Compares the user key behind the value, whatever the value. */
    predicate SameKey(k: Bytes, key: Bytes)
      requires IsIndexPrefix(prefix)
    {
      |k| > |prefix| &&
      var prefixLength := |prefix| + ByteSize(k[|prefix|..]);
      |k| == prefixLength + |key| + 8 && Memcmp(k[prefixLength..], key, |key|) == 0
    }

    function ExtractKey(k: Bytes): Bytes
      requires IsIndexPrefix(prefix) && IsEntryKey(k)
    {
      var offset := |prefix| + ByteSize(k[|prefix|..]);
      k[offset..|k| - 8]
    }

    lemma ExtractsUserKey(k: Bytes)
      requires IsIndexPrefix(prefix) && IsEntryKey(k)
      ensures ExtractKey(k) == UserKey(k)
    {
      EncodedIndexedOf(k);
      var offset := |prefix| + ByteSize(k[|prefix|..]);
      assert RestOf(k) == k[offset..];
      assert k[offset..][..|k| - offset - 8] == k[offset..|k| - 8];
    }

    lemma SameUserKey(k: Bytes, key: Bytes)
      requires IsIndexPrefix(prefix) && IsEntryKey(k)
      ensures SameKey(k, key) <==> UserKey(k) == key
    {
      EncodedIndexedOf(k);
      var offset := |prefix| + ByteSize(k[|prefix|..]);
      var y := RestOf(k);
      assert y == k[offset..] && UserKey(k) == y[..|y| - 8];
      hide *;
      if |y| == |key| + 8 {
        MemcmpIsLex(y, key, |key|);
        LexZero(y[..|key|], key[..|key|]);
        assert key[..|key|] == key;
        SignOfComparison(Memcmp(y, key, |key|));
        SignOfComparison(-Memcmp(y, key, |key|));
      }
      SameKeyIs(k, key, offset, y);
    }

    lemma SameKeyIs(k: Bytes, key: Bytes, offset: nat, y: Bytes)
      requires IsIndexPrefix(prefix) && |k| > SluggedLength
      requires offset == |prefix| + ByteSize(k[|prefix|..]) <= |k| && y == k[offset..]
      ensures SameKey(k, key) <==> |y| == |key| + 8 && Memcmp(y, key, |key|) == 0
    {
    }

    method Insert(tx: Transaction, key: Bytes, revision: Revision, value: Time, tombstone: bool) returns (ok: bool)
      requires IsIndexPrefix(prefix) && AllWellFormed(tx.View().Keys)
      modifies tx
      ensures ok == (Accepts(old(tx.View()), prefix, At(value), key, tombstone) && tx.env.putOk(old(tx.puts)))
      ensures tx.View() == if ok then old(tx.View())[EntryKey(prefix, At(value), key, revision) := Mark(tombstone)]
                           else old(tx.View())
      ensures Accepts(old(tx.View()), prefix, At(value), key, tombstone) ==> tx.puts == old(tx.puts) + 1
    {
      hide *;
      var keyPrefix := KeyPrefix(prefix, At(value), key);
      var sentinel := EntryKey(prefix, At(value), key, MaxRevision);
      EntryKeyShape(prefix, At(value), key, MaxRevision);
      var it := tx.GetIterator();
      it.SeekForPrev(sentinel);
      ghost var top := it.pos;
      ScanStarts(it.view.Keys, it.keys, it.pos, prefix, At(value), key, MaxRevision);
      while it.Valid() && keyPrefix <= it.Key()
        invariant it.Coherent() && it.pos < |it.keys|
        invariant Scanning(it.view.Keys, it.keys, top, it.pos, prefix, At(value), key, MaxRevision)
        invariant unchanged(tx)
        decreases it.pos
      {
        SameKeyIff(it.Key(), value, key);
        if SameKey(it.Key(), key) {
          ScanHits(it.view, it.keys, top, it.pos, prefix, At(value), key, MaxRevision);
          if tombstone == (it.Value() != Tombstone) {
            break;  // no matching entry
          } else {
            return false;
          }
        }
        ScanPasses(it.view.Keys, it.keys, top, it.pos, prefix, At(value), key, MaxRevision);
        ghost var below := it.pos - 1;
        it.Prev();
        assert it.pos == below;
      }
      if !(it.Valid() && keyPrefix <= it.Key()) {
        ScanMisses(it.view, it.keys, top, it.pos, prefix, At(value), key, MaxRevision);
      }
      ok := tx.Put(EntryKey(prefix, At(value), key, revision), Mark(tombstone));
    }

    lemma SameKeyIff(k: Bytes, value: Time, key: Bytes)
      requires IsIndexPrefix(prefix) && KeyPrefix(prefix, At(value), key) <= k
      ensures SameKey(k, key) <==> |k| == |KeyPrefix(prefix, At(value), key)| + 8
    {
      KeyPrefixIs(prefix, At(value), key);
      var vp := ValuePrefix(prefix, At(value));
      Cut(vp, key, k);
      var y := key + k[|vp| + |key|..];
      IndexKeyShape(prefix, At(value), y);
      ValueShapeOf(At(value), y);
      assert k[|prefix|..] == Encoded(At(value)) + y;
      assert |vp| == |prefix| + ByteSize(k[|prefix|..]);
      assert k[|vp|..] == y;
      hide *;
      MemcmpIsLex(y, key, |key|);
      assert y[..|key|] == key && key[..|key|] == key;
      LexZero(key, key);
      SignOfComparison(Memcmp(y, key, |key|));
      SignOfComparison(-Memcmp(y, key, |key|));
      SameKeyIs(k, key, |vp|, y);
    }

    /** The inner loop of the range lookup: while the cursor stands on a tombstone, skip
        back until the user key changes. Reports whether the range was left. */
    method SkipTombstones(it: Iterator, valuePrefix: Bytes, ghost start: Time, ghost next: Time, ghost lo: nat, ghost hi: nat,
                          ghost es: seq<Entry>, ghost max: Revision, ghost revisions: seq<Revision>)
      returns (ended: bool)
      requires Window(it.view, prefix, start, next, it.keys, lo, hi, es) && IsIndexPrefix(prefix)
      requires valuePrefix == ValuePrefix(prefix, At(start)) && WellFormed(valuePrefix)
      requires it.Coherent() && it.Valid() && lo <= it.pos < hi && it.pos - lo < |es|
      requires Gathered(es, max, lo, it.pos, revisions)
      requires !Skipping(es, it.pos - lo, max) && es[it.pos - lo].rev <= max
      modifies it
      ensures it.Coherent() && it.pos <= old(it.pos)
      ensures ended ==> Backwards(revisions) == Reported(es, max)
      ensures !ended ==> it.Valid() && it.pos >= lo && it.pos - lo < |es| && it.Value() != Tombstone
      ensures !ended ==> Gathered(es, max, lo, it.pos, revisions)
      ensures !ended ==> !Skipping(es, it.pos - lo, max) || RunTop(es, it.pos - lo)
    {
      hide *;
      while it.Value() == Tombstone
        invariant it.Coherent() && it.Valid() && lo <= it.pos <= old(it.pos) && it.pos - lo < |es|
        invariant Gathered(es, max, lo, it.pos, revisions)
        invariant Skipping(es, it.pos - lo, max) || es[it.pos - lo].rev <= max
        invariant !Skipping(es, it.pos - lo, max) || RunTop(es, it.pos - lo)
        decreases it.pos
      {
        WindowEntry(it.view, prefix, start, next, it.keys, lo, hi, es, it.pos);
        var key := ExtractKey(it.Key());
        ExtractsUserKey(it.Key());
        SameUserKey(it.Key(), key);
        ghost var first, below := it.pos, it.pos - 1;
        SkipBegins(es, lo, first, below, key, max);
        Gather(es, max, lo, first, revisions, below);
        while it.Valid() && SameKey(it.Key(), key)
          invariant it.Coherent() && it.pos <= first
          invariant Gathered(es, max, lo, it.pos, revisions)
          invariant it.pos < first ==> Skipped(es, lo, it.pos, key, max)
          decreases it.pos
        {
          below := it.pos - 1;
          if it.pos < first {
            if it.pos >= lo {
              WindowEntry(it.view, prefix, start, next, it.keys, lo, hi, es, it.pos);
              SameUserKey(it.Key(), key);
            }
            SkipStep(es, lo, it.pos, below, key, max);
            Gather(es, max, lo, it.pos, revisions, below);
          }
          it.Prev();
          assert it.pos == below;
        }
        if it.Valid() {
          WindowStart(it.view, prefix, start, next, it.keys, lo, hi, es, it.pos);
        }
        if !it.Valid() || !AtOrAfter(it.Key(), valuePrefix) {
          Finished(es, max, lo, it.pos, revisions);
          return true;
        }
        WindowEntry(it.view, prefix, start, next, it.keys, lo, hi, es, it.pos);
        SameUserKey(it.Key(), key);
        SkipEnds(es, lo, it.pos, key, max);
      }
      return false;
    }

    /** All revisions live at `maxRevision` with a timestamp in `[start, end]`, as far as
        the backward scan finds them. */
    method Lookup(tx: Transaction, start: Time, end: Time, maxRevision: Revision) returns (revisions: seq<Revision>)
      requires Indexable(tx.View(), prefix) && end < 0x7FFF_FFFF_FFFF_FFFF
      ensures revisions == Reported(Entries(tx.View(), prefix, start, end + 1), maxRevision)
    {
      hide *;
      revisions := [];
      var next: Time := end + 1;
      var valuePrefix := ValuePrefix(prefix, At(start));
      var endSentinel := ValuePrefix(prefix, At(next));
      IndexablePrefix(tx.View(), prefix);
      RankOfBound(prefix, next);
      RankOfBound(prefix, start);
      var it := tx.GetIterator();
      it.SeekForPrev(endSentinel);

      ghost var view, ks := tx.View(), it.keys;
      ghost var lo, hi := CountBelow(ks, valuePrefix), CountBelow(ks, endSentinel);
      ghost var es := Entries(view, prefix, start, next);
      OpenWindow(view, prefix, start, next, ks);
      WindowSize(view, prefix, start, next, ks, lo, hi, es);
      WindowTop(view, prefix, start, next, ks, lo, hi, es, it.pos);
      NothingGathered(es, maxRevision, lo, hi, it.pos);

      while it.Valid() && AtOrAfter(it.Key(), valuePrefix)
        invariant it.Coherent() && it.pos < hi
        invariant Gathered(es, maxRevision, lo, it.pos, revisions)
        invariant it.pos >= lo ==> it.pos - lo < |es| && !Skipping(es, it.pos - lo, maxRevision)
        decreases it.pos
      {
        ghost var begin := it.pos;
        WindowStart(view, prefix, start, next, ks, lo, hi, es, it.pos);
        WindowEntry(view, prefix, start, next, ks, lo, hi, es, it.pos);
        ghost var below := it.pos - 1;
        if Unwrap(it.Key()) > maxRevision {
          PassTooNew(es, it.pos - lo, maxRevision);
          Gather(es, maxRevision, lo, it.pos, revisions, below);
          it.Prev();
          assert it.pos == below;
          continue;
        }
        var ended := SkipTombstones(it, valuePrefix, start, next, lo, hi, es, maxRevision, revisions);
        if ended {
          return Backwards(revisions);
        }
        WindowEntry(view, prefix, start, next, ks, lo, hi, es, it.pos);
        ReadLive(es, it.pos - lo, maxRevision);
        below := it.pos - 1;
        Gather(es, maxRevision, lo, it.pos, revisions, below);
        var r := Unwrap(it.Key());
        if r <= maxRevision {
          revisions := revisions + [r];
        }
        it.Prev();
        assert it.pos == below;
      }
      if it.Valid() {
        WindowStart(view, prefix, start, next, ks, lo, hi, es, it.pos);
      }
      Finished(es, maxRevision, lo, it.pos, revisions);
      return Backwards(revisions);
    }
  }
}
