/** The meaning of a backward scan over the entries of one user key: the newest
    revision at or below a bound. */
module AsOf {
  import opened ByteStrings
  import opened Comparator
  import opened Wrappers
  import opened Keys
  import opened RocksDB

  const MaxRevision: Revision := 0xFFFF_FFFF_FFFF_FFFF

  /** The mark of a deletion is "1"; the other mark is built from the C string "\0"
      and is therefore empty. */
  const Tombstone: Cell := Raw([49])
  const NonTombstone: Cell := Raw([])

  function Mark(tombstone: bool): Cell { if tombstone then Tombstone else NonTombstone }

  /** Reference definition: try every revision from `max` down. */
  ghost function NewestAtMost(s: set<Bytes>, p: Bytes, v: Indexed, key: Bytes, max: Revision): Option<Revision> {
    if EntryKey(p, v, key, max) in s then Some(max)
    else if max == 0 then None
    else NewestAtMost(s, p, v, key, max - 1)
  }

  lemma {:induction false} NewestIs(s: set<Bytes>, p: Bytes, v: Indexed, key: Bytes, max: Revision)
    ensures var n := NewestAtMost(s, p, v, key, max);
            (n.Some? ==> n.value <= max && EntryKey(p, v, key, n.value) in s) &&
            (forall r: Revision | r <= max && EntryKey(p, v, key, r) in s :: n.Some? && r <= n.value)
  {
    hide EntryKey;
    if EntryKey(p, v, key, max) !in s && max > 0 {
      NewestIs(s, p, v, key, max - 1);
      forall r: Revision | r <= max && EntryKey(p, v, key, r) in s ensures r <= max - 1 {
        if r == max { assert false; }
      }
    }
  }

  /** The defining property picks out one answer. */
  lemma NewestUnique(s: set<Bytes>, p: Bytes, v: Indexed, key: Bytes, max: Revision, n: Option<Revision>)
    requires n.Some? ==> n.value <= max && EntryKey(p, v, key, n.value) in s
    requires forall r: Revision | r <= max && EntryKey(p, v, key, r) in s :: n.Some? && r <= n.value
    ensures NewestAtMost(s, p, v, key, max) == n
  {
    hide EntryKey;
    NewestIs(s, p, v, key, max);
  }

  /** What an index answers for one entry key: the newest revision at or below `max`,
      unless that entry is a tombstone. */
  ghost function LiveAtMost(view: Store, p: Bytes, v: Indexed, key: Bytes, max: Revision): (r: Option<Revision>) {
    NewestIs(view.Keys, p, v, key, max);
    var n := NewestAtMost(view.Keys, p, v, key, max);
    if n.Some? && view[EntryKey(p, v, key, n.value)] != Tombstone then n else None
  }

  /** Whether an index accepts a live entry or a tombstone now: it looks at the newest
      entry only, and an absent key accepts either. */
  ghost predicate Accepts(view: Store, p: Bytes, v: Indexed, key: Bytes, tombstone: bool) {
    NewestIs(view.Keys, p, v, key, MaxRevision);
    var n := NewestAtMost(view.Keys, p, v, key, MaxRevision);
    n.None? || tombstone == (view[EntryKey(p, v, key, n.value)] != Tombstone)
  }

  // ---------- The scan ----------

  /** No entry of interest lies above the cursor. */
  ghost predicate NothingAbove(ks: seq<Bytes>, pos: int, p: Bytes, v: Indexed, key: Bytes, max: Revision) {
    forall i, r: Revision | 0 <= i < |ks| && pos < i && r <= max :: ks[i] != EntryKey(p, v, key, r)
  }

  /** The state of a scan that started at the entry key with revision `max`. */
  ghost predicate Scanning(s: set<Bytes>, ks: seq<Bytes>, top: int, pos: int, p: Bytes, v: Indexed, key: Bytes, max: Revision) {
    IsIndexPrefix(p) && AllWellFormed(s) && ks == SortedKeys(s) &&
    AtOrBelow(ks, top, EntryKey(p, v, key, max)) && -1 <= pos <= top < |ks| &&
    NothingAbove(ks, pos, p, v, key, max)
  }

  lemma ScanStarts(s: set<Bytes>, ks: seq<Bytes>, pos: int, p: Bytes, v: Indexed, key: Bytes, max: Revision)
    requires IsIndexPrefix(p) && AllWellFormed(s) && ks == SortedKeys(s) && -1 <= pos < |ks|
    requires AtOrBelow(ks, pos, EntryKey(p, v, key, max))
    ensures Scanning(s, ks, pos, pos, p, v, key, max)
  {
    hide EntryKey, Order, WellFormed;
    forall i, r: Revision | 0 <= i < |ks| && pos < i && r <= max ensures ks[i] != EntryKey(p, v, key, r) {
      EntriesInOrder(p, v, key, r, max);
      OrderTotal(ks[i], ks[i]);
      assert Order(ks[i], EntryKey(p, v, key, max)) > 0;
    }
  }

  /** A key that is not exactly one entry of the user key may be passed. */
  lemma ScanPasses(s: set<Bytes>, ks: seq<Bytes>, top: int, pos: int, p: Bytes, v: Indexed, key: Bytes, max: Revision)
    requires Scanning(s, ks, top, pos, p, v, key, max) && 0 <= pos
    requires |ks[pos]| != |KeyPrefix(p, v, key)| + 8
    ensures Scanning(s, ks, top, pos - 1, p, v, key, max)
  {
    forall r: Revision ensures ks[pos] != EntryKey(p, v, key, r) {
      EntryKeyTail(p, v, key, r);
    }
  }

  /** Between an entry of the key and the sentinel every key carries the key prefix. */
  lemma PrefixBetween(p: Bytes, v: Indexed, key: Bytes, r: Revision, k: Bytes, max: Revision)
    requires IsIndexPrefix(p) && WellFormed(k)
    requires Order(EntryKey(p, v, key, r), k) <= 0 && Order(k, EntryKey(p, v, key, max)) <= 0
    ensures KeyPrefix(p, v, key) <= k
  {
    var x := p + [CodeOf(v)] + key;
    EntryKeyShape(p, v, key, r);
    EntryKeyShape(p, v, key, max);
    PrefixIffRankPrefix(p, v, key, k);
    LexBetween(x, Rank(EntryKey(p, v, key, r)), Rank(k), Rank(EntryKey(p, v, key, max)));
  }

  /** Leaving the prefix, or the store, means there is nothing to find. */
  lemma ScanMisses(view: Store, ks: seq<Bytes>, top: int, pos: int, p: Bytes, v: Indexed, key: Bytes, max: Revision)
    requires Scanning(view.Keys, ks, top, pos, p, v, key, max)
    requires pos == -1 || !(KeyPrefix(p, v, key) <= ks[pos])
    ensures NewestAtMost(view.Keys, p, v, key, max) == None
    ensures LiveAtMost(view, p, v, key, max) == None
    ensures max == MaxRevision ==> forall tombstone :: Accepts(view, p, v, key, tombstone)
  {
    hide EntryKey, KeyPrefix, Order, WellFormed;
    var s := view.Keys;
    forall r: Revision | r <= max ensures EntryKey(p, v, key, r) !in s {
      if EntryKey(p, v, key, r) in s {
        var i :| 0 <= i < |ks| && ks[i] == EntryKey(p, v, key, r);
        assert 0 <= i <= pos;
        if i < pos { assert Less(ks[i], ks[pos]); } else { OrderTotal(ks[i], ks[i]); }
        PrefixBetween(p, v, key, r, ks[pos], max);
      }
    }
    NewestUnique(s, p, v, key, max, None);
  }

  /** The first entry of exactly this key is the newest one. */
  lemma ScanHits(view: Store, ks: seq<Bytes>, top: int, pos: int, p: Bytes, v: Indexed, key: Bytes, max: Revision)
    requires Scanning(view.Keys, ks, top, pos, p, v, key, max) && 0 <= pos
    requires KeyPrefix(p, v, key) <= ks[pos] && |ks[pos]| == |KeyPrefix(p, v, key)| + 8
    ensures ks[pos] in view
    ensures NewestAtMost(view.Keys, p, v, key, max) == Some(Unwrap(ks[pos]))
    ensures LiveAtMost(view, p, v, key, max) == if view[ks[pos]] == Tombstone then None else Some(Unwrap(ks[pos]))
    ensures max == MaxRevision ==>
              forall tombstone :: Accepts(view, p, v, key, tombstone) <==> tombstone == (view[ks[pos]] != Tombstone)
  {
    EntryFromPrefix(p, v, key, ks[pos]);
    hide EntryKey, KeyPrefix, Unwrap;
    FirstEntryIsNewest(view.Keys, ks, top, pos, p, v, key, max, Unwrap(ks[pos]));
  }

  lemma FirstEntryIsNewest(s: set<Bytes>, ks: seq<Bytes>, top: int, pos: int, p: Bytes, v: Indexed, key: Bytes, max: Revision, n: Revision)
    requires Scanning(s, ks, top, pos, p, v, key, max) && 0 <= pos
    requires ks[pos] == EntryKey(p, v, key, n)
    ensures ks[pos] in s && NewestAtMost(s, p, v, key, max) == Some(n)
  {
    hide EntryKey, Order, WellFormed;
    RevisionBound(p, v, key, n, max);
    assert ks[pos] in s;
    forall r: Revision | r <= max && EntryKey(p, v, key, r) in s ensures r <= n {
      var i :| 0 <= i < |ks| && ks[i] == EntryKey(p, v, key, r);
      EntriesInOrder(p, v, key, r, n);
      if i < pos { assert Less(ks[i], ks[pos]); }
    }
    NewestUnique(s, p, v, key, max, Some(n));
  }

  lemma RevisionBound(p: Bytes, v: Indexed, key: Bytes, r: Revision, max: Revision)
    requires IsIndexPrefix(p)
    requires Order(EntryKey(p, v, key, r), EntryKey(p, v, key, max)) <= 0
    ensures r <= max
  {
    EntryOrder(p, v, key, r, max);
  }

  lemma EntriesInOrder(p: Bytes, v: Indexed, key: Bytes, r: Revision, s: Revision)
    requires IsIndexPrefix(p)
    ensures Order(EntryKey(p, v, key, r), EntryKey(p, v, key, s)) == Sign(r - s)
    ensures EntryKey(p, v, key, r) == EntryKey(p, v, key, s) <==> r == s
  {
    EntryOrder(p, v, key, r, s);
    if r != s { LexZero(Rank(EntryKey(p, v, key, r)), Rank(EntryKey(p, v, key, s))); }
  }
}
