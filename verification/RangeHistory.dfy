/** The entries of a timestamp range, read against the log: when they are grouped, what
    the visible ones are, and when the range scan returns exactly those. */
module RangeHistory {
  import opened ByteStrings
  import opened Comparator
  import opened Keys
  import opened RocksDB
  import opened AsOf
  import opened RangeScan
  import opened SecondaryIndex
  import opened History

  // ---------- Entries are events ----------

  lemma RepresentsFacts(view: Store, sp: Spaces, others: Store, log: Log)
    requires Represents(view, sp, others, log)
    ensures ValidSpaces(sp) && Valid(log) && IsIndexPrefix(sp.secondary)
  {
  }

  lemma WindowFacts(view: Store, p: Bytes, start: Time, next: Time, ks: seq<Bytes>, lo: nat, hi: nat, es: seq<Entry>)
    requires Window(view, p, start, next, ks, lo, hi, es)
    ensures Indexable(view, p) && AllWellFormed(view.Keys) && ks == SortedKeys(view.Keys)
    ensures lo == CountBelow(ks, ValuePrefix(p, At(start))) && hi == CountBelow(ks, ValuePrefix(p, At(next)))
  {
  }

  lemma OurSecondary(view: Store, sp: Spaces, others: Store, log: Log, k: Bytes) returns (e: Event)
    requires Represents(view, sp, others, log) && k in view && sp.secondary <= k
    ensures e in log && k == SecondaryKey(sp, e.doc.timestamp, e.key, e.rev) && view[k] == Mark(e.dead)
  {
    hide *;
    RepresentsFacts(view, sp, others, log);
    e := OurKeys(view, sp, others, log, k);
    var b, c := PrimaryKey(sp, e.key, e.rev), SecondaryKey(sp, e.doc.timestamp, e.key, e.rev);
    var d := DocumentKey(sp.documents, e.rev);
    var t := e.doc.timestamp;
    KeysApart(sp, b, k, t, e.key, e.rev);
    KeysApart(sp, b, c, t, e.key, e.rev);
    KeysApart(sp, k, d, t, e.key, e.rev);
    KeysApart(sp, b, d, t, e.key, e.rev);
    KeysApart(sp, c, d, t, e.key, e.rev);
    CellsAre(sp, e, b, c, d, k);
  }

  lemma SecondaryKeyShape(sp: Spaces, t: Time, key: Bytes, r: Revision)
    requires ValidSpaces(sp)
    ensures var k := SecondaryKey(sp, t, key, r);
            IsEntryKey(k) && IndexedOf(k) == At(t) && UserKey(k) == key && |k| >= 8 && Unwrap(k) == r
    ensures Rank(SecondaryKey(sp, t, key, r)) == sp.secondary + [t] + key + IntToString(r)
    ensures sp.secondary <= SecondaryKey(sp, t, key, r)
  {
    var k := SecondaryKey(sp, t, key, r);
    EntryKeyShape(sp.secondary, At(t), key, r);
    EntryKeyTail(sp.secondary, At(t), key, r);
    assert RestOf(k) == key + IntToString(r);
    hide WellFormed, EntryKey, RestOf, IndexedOf, Unwrap, Rank;
    PrefixOf(sp.secondary, k);
  }

  lemma RepresentsIndexable(view: Store, sp: Spaces, others: Store, log: Log)
    requires Represents(view, sp, others, log)
    ensures Indexable(view, sp.secondary)
  {
    RepresentsWellFormed(view, sp, others, log);
    hide Image, IsEntryKey, WellFormed, SecondaryKey;
    forall k | k in view && sp.secondary <= k ensures IsEntryKey(k) {
      var e := OurSecondary(view, sp, others, log, k);
      SecondaryKeyShape(sp, e.doc.timestamp, e.key, e.rev);
    }
  }

  predicate EntryIs(x: Entry, e: Event) {
    x.time == e.doc.timestamp && x.key == e.key && x.rev == e.rev && x.dead == e.dead
  }

  lemma EntryOfKey(view: Store, sp: Spaces, e: Event)
    requires ValidSpaces(sp)
    requires var k := SecondaryKey(sp, e.doc.timestamp, e.key, e.rev); k in view && view[k] == Mark(e.dead)
    ensures EntryIs(EntryOf(view, SecondaryKey(sp, e.doc.timestamp, e.key, e.rev)), e)
  {
    SecondaryKeyShape(sp, e.doc.timestamp, e.key, e.rev);
    hide SecondaryKey, IsEntryKey, UserKey, Unwrap;
  }

  ghost predicate HasEvent(log: Log, x: Entry) { exists e :: e in log && EntryIs(x, e) }

  ghost predicate HasEntry(es: seq<Entry>, e: Event) { exists i :: 0 <= i < |es| && EntryIs(es[i], e) }

  lemma EventFound(log: Log, x: Entry, e: Event)
    requires e in log && EntryIs(x, e)
    ensures HasEvent(log, x)
  {
  }

  lemma EntryFound(es: seq<Entry>, i: nat, e: Event)
    requires i < |es| && EntryIs(es[i], e)
    ensures HasEntry(es, e)
  {
  }

  /** The entries in range are the events in range, sorted by their keys. */
  ghost predicate Listed(es: seq<Entry>, sp: Spaces, log: Log, start: Time, next: Time) {
    (forall i | 0 <= i < |es| :: start <= es[i].time < next && HasEvent(log, es[i])) &&
    (forall e | e in log && start <= e.doc.timestamp < next :: HasEntry(es, e)) &&
    (forall i, j | 0 <= i < j < |es| :: Less(KeyOf(sp, es[i]), KeyOf(sp, es[j])))
  }

  function KeyOf(sp: Spaces, x: Entry): Bytes { SecondaryKey(sp, x.time, x.key, x.rev) }

  lemma EntriesAreListed(view: Store, sp: Spaces, others: Store, log: Log, start: Time, next: Time)
    requires Represents(view, sp, others, log)
    ensures Listed(Entries(view, sp.secondary, start, next), sp, log, start, next)
  {
    hide *;
    RepresentsIndexable(view, sp, others, log);
    IndexablePrefix(view, sp.secondary);
    var p, ks := sp.secondary, SortedKeys(view.Keys);
    var es := Entries(view, p, start, next);
    var lo, hi := CountBelow(ks, ValuePrefix(p, At(start))), CountBelow(ks, ValuePrefix(p, At(next)));
    OpenWindow(view, p, start, next, ks);
    WindowSize(view, p, start, next, ks, lo, hi, es);
    forall i | 0 <= i < |es|
      ensures start <= es[i].time < next && HasEvent(log, es[i]) && ks[lo + i] == KeyOf(sp, es[i])
    {
      var e := EntryAt(view, sp, others, log, start, next, ks, lo, hi, es, i);
      EventFound(log, es[i], e);
    }
    forall e | e in log && start <= e.doc.timestamp < next ensures HasEntry(es, e) {
      var i := IndexOf(view, sp, others, log, start, next, ks, lo, hi, es, e);
      EntryFound(es, i, e);
    }
    forall i, j | 0 <= i < j < |es| ensures Less(KeyOf(sp, es[i]), KeyOf(sp, es[j])) {
      SortedAt(ks, lo + i, lo + j);
    }
    MakeListed(es, sp, log, start, next);
  }

  lemma SortedAt(ks: seq<Bytes>, i: nat, j: nat)
    requires Sorted(ks) && i < j < |ks|
    ensures Less(ks[i], ks[j])
  {
  }

  lemma MakeListed(es: seq<Entry>, sp: Spaces, log: Log, start: Time, next: Time)
    requires forall i | 0 <= i < |es| :: start <= es[i].time < next && HasEvent(log, es[i])
    requires forall e | e in log && start <= e.doc.timestamp < next :: HasEntry(es, e)
    requires forall i, j | 0 <= i < j < |es| :: Less(KeyOf(sp, es[i]), KeyOf(sp, es[j]))
    ensures Listed(es, sp, log, start, next)
  {
    hide Less, KeyOf, HasEvent, HasEntry;
  }

  lemma EntryAt(view: Store, sp: Spaces, others: Store, log: Log, start: Time, next: Time,
                ks: seq<Bytes>, lo: nat, hi: nat, es: seq<Entry>, i: nat) returns (e: Event)
    requires Represents(view, sp, others, log)
    requires Window(view, sp.secondary, start, next, ks, lo, hi, es) && i < |es|
    ensures e in log && EntryIs(es[i], e) && start <= es[i].time < next
    ensures lo + i < |ks| && ks[lo + i] == KeyOf(sp, es[i])
  {
    hide *;
    RepresentsFacts(view, sp, others, log);
    WindowFacts(view, sp.secondary, start, next, ks, lo, hi, es);
    WindowSize(view, sp.secondary, start, next, ks, lo, hi, es);
    var k := ks[lo + i];
    InRange(view, sp.secondary, ks, lo + i, start, next);
    e := OurSecondary(view, sp, others, log, k);
    EntryOfKey(view, sp, e);
    SecondaryKeyShape(sp, e.doc.timestamp, e.key, e.rev);
    EntryIsFields(es[i], e);
    KeyOfIs(sp, es[i]);
  }

  lemma KeyOfIs(sp: Spaces, x: Entry)
    ensures KeyOf(sp, x) == SecondaryKey(sp, x.time, x.key, x.rev)
  {
  }

  lemma EntryIsFields(x: Entry, e: Event)
    requires EntryIs(x, e)
    ensures x.time == e.doc.timestamp && x.key == e.key && x.rev == e.rev && x.dead == e.dead
  {
  }

  lemma IndexOf(view: Store, sp: Spaces, others: Store, log: Log, start: Time, next: Time,
                ks: seq<Bytes>, lo: nat, hi: nat, es: seq<Entry>, e: Event) returns (i: nat)
    requires Represents(view, sp, others, log)
    requires Window(view, sp.secondary, start, next, ks, lo, hi, es)
    requires e in log && start <= e.doc.timestamp < next
    ensures i < |es| && EntryIs(es[i], e)
  {
    hide *;
    RepresentsFacts(view, sp, others, log);
    WindowFacts(view, sp.secondary, start, next, ks, lo, hi, es);
    WindowSize(view, sp.secondary, start, next, ks, lo, hi, es);
    var k := SecondaryKey(sp, e.doc.timestamp, e.key, e.rev);
    SecondaryEntries(view, sp, others, log, e.doc.timestamp, e.key, e.rev);
    SecondaryKeyShape(sp, e.doc.timestamp, e.key, e.rev);
    assert k in ks;
    var j :| 0 <= j < |ks| && ks[j] == k;
    InRange(view, sp.secondary, ks, j, start, next);
    EntryOfKey(view, sp, e);
    i := j - lo;
    assert ks[lo + i] == k;
  }

  // ---------- A sorted list of entries is determined by the log ----------

  ghost predicate SortedEntries(es: seq<Entry>, sp: Spaces) {
    forall i, j | 0 <= i < j < |es| :: Less(KeyOf(sp, es[i]), KeyOf(sp, es[j]))
  }

  lemma LessIsStrict(k: Bytes, j: Bytes)
    requires Less(k, j)
    ensures !Less(j, k) && k != j
  {
    LexFlip(Rank(k), Rank(j));
    LexZero(Rank(k), Rank(k));
  }

  lemma {:induction false} SortedUnique(es: seq<Entry>, fs: seq<Entry>, sp: Spaces)
    requires SortedEntries(es, sp) && SortedEntries(fs, sp)
    requires forall x :: x in es <==> x in fs
    ensures es == fs
    decreases |es|
  {
    hide Less, KeyOf;
    assert fs == [] || fs[0] in fs;
    if es != [] {
      var m, n := |es| - 1, |fs| - 1;
      assert es[m] in fs;
      SameLast(es, fs, sp);
      LastIsNew(es, sp);
      LastIsNew(fs, sp);
      forall x ensures x in es[..m] <==> x in fs[..n] {
        assert x in es[..m] <==> x in es && x != es[m];
        assert x in fs[..n] <==> x in fs && x != fs[n];
      }
      SortedUnique(es[..m], fs[..n], sp);
      assert es == es[..m] + [es[m]] && fs == fs[..n] + [fs[n]];
    }
  }

  lemma SameLast(es: seq<Entry>, fs: seq<Entry>, sp: Spaces)
    requires SortedEntries(es, sp) && SortedEntries(fs, sp) && es != [] && fs != []
    requires forall x :: x in es <==> x in fs
    ensures es[|es| - 1] == fs[|fs| - 1]
  {
    hide Less, KeyOf;
    var m, n := |es| - 1, |fs| - 1;
    assert es[m] in fs && fs[n] in es;
    var i :| 0 <= i < |es| && es[i] == fs[n];
    var j :| 0 <= j < |fs| && fs[j] == es[m];
    if i < m && j < n {
      LessIsStrict(KeyOf(sp, es[i]), KeyOf(sp, es[m]));
    }
  }

  lemma LastIsNew(es: seq<Entry>, sp: Spaces)
    requires es != [] && SortedEntries(es, sp)
    ensures forall x :: x in es[..|es| - 1] <==> x in es && x != es[|es| - 1]
  {
    hide Less, KeyOf;
    var m := |es| - 1;
    forall i | 0 <= i < m ensures es[i] != es[m] {
      LessIsStrict(KeyOf(sp, es[i]), KeyOf(sp, es[m]));
    }
    assert es == es[..m] + [es[m]];
  }

  function EntryFor(e: Event): Entry { Entry(e.doc.timestamp, e.key, e.rev, e.dead) }

  /** A sorted list of exactly the events in range is what the index holds for the range. */
  lemma ListedIs(es: seq<Entry>, fs: seq<Entry>, sp: Spaces, log: Log, start: Time, next: Time)
    requires Listed(es, sp, log, start, next) && SortedEntries(fs, sp)
    requires forall x :: x in fs <==> exists e :: e in log && start <= e.doc.timestamp < next && x == EntryFor(e)
    ensures es == fs
  {
    hide Less, KeyOf;
    forall x ensures x in es <==> x in fs {
      if x in es {
        var i :| 0 <= i < |es| && es[i] == x;
        assert HasEvent(log, es[i]);
        var e :| e in log && EntryIs(es[i], e);
        assert x == EntryFor(e);
      }
      if x in fs {
        var e :| e in log && start <= e.doc.timestamp < next && x == EntryFor(e);
        assert HasEntry(es, e);
        var i :| 0 <= i < |es| && EntryIs(es[i], e);
        assert es[i] == x;
      }
    }
    SortedUnique(es, fs, sp);
  }
}
