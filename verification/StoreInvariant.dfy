/** What the stored entries look like at every moment, told from the entries alone. */
module StoreInvariant {
  import opened ByteStrings
  import opened Wrappers
  import opened Keys
  import opened RocksDB
  import opened AsOf
  import opened History
  import opened RangeExactness

  /** No entry of the key lies strictly between two revisions. */
  ghost predicate Consecutive(view: Store, sp: Spaces, key: Bytes, r: int, s: Revision) {
    r < s && PrimaryKey(sp, key, s) in view && forall q: Revision | r < q < s :: PrimaryKey(sp, key, q) !in view
  }

  lemma MarkedBy(view: Store, sp: Spaces, others: Store, log: Log, key: Bytes, s: Revision) returns (e: Event)
    requires Represents(view, sp, others, log) && PrimaryKey(sp, key, s) in view
    ensures e in log && e.key == key && e.rev == s && view[PrimaryKey(sp, key, s)] == Mark(e.dead)
  {
    hide PrimaryKey, Represents, Mark;
    PrimaryEntries(view, sp, others, log, key, s);
    e :| e in log && e.key == key && e.rev == s;
  }

  lemma ValidOf(view: Store, sp: Spaces, others: Store, log: Log)
    requires Represents(view, sp, others, log)
    ensures Valid(log)
  {
  }

  lemma MarksDiffer(a: bool, b: bool)
    ensures (Mark(a) == Tombstone) == a && (Mark(a) == Mark(b) <==> a == b)
  {
  }

  lemma FollowsMeans(log: Log, e: Event)
    requires Follows(log, e)
    ensures e.dead <==> Newest(log, e.key).Some? && !Newest(log, e.key).value.dead
    ensures e.dead ==> e.doc == Newest(log, e.key).value.doc
  {
  }

  lemma NoneBetween(view: Store, sp: Spaces, key: Bytes, r: int, s: Revision, q: Revision)
    requires Consecutive(view, sp, key, r, s) && PrimaryKey(sp, key, q) in view
    ensures r < s && PrimaryKey(sp, key, s) in view && (q <= r || q >= s)
  {
    hide PrimaryKey;
  }

  /** The event that an entry's event followed. */
  lemma Predecessor(view: Store, sp: Spaces, others: Store, log: Log, f: Event) returns (n: Option<Event>)
    requires Represents(view, sp, others, log) && f in log
    ensures f.dead <==> n.Some? && !n.value.dead
    ensures f.dead ==> f.doc == n.value.doc
    ensures n.Some? ==> n.value in log && n.value.key == f.key && n.value.rev < f.rev && PrimaryKey(sp, f.key, n.value.rev) in view
    ensures forall e | e in log && e.key == f.key && e.rev < f.rev :: n.Some? && e.rev <= n.value.rev
  {
    hide *;
    ValidOf(view, sp, others, log);
    EventFollowedPast(log, f);
    var past := UpTo(log, f.rev - 1);
    n := Newest(past, f.key);
    FollowsMeans(past, f);
    UpToKeeps(log, f.rev - 1);
    NewestIsLast(past, f.key);
    if n.Some? {
      PrimaryEntries(view, sp, others, log, f.key, n.value.rev);
    }
  }

  /** The first entry of a key is live. */
  lemma FirstEntryIsLive(view: Store, sp: Spaces, others: Store, log: Log, key: Bytes, s: Revision)
    requires Represents(view, sp, others, log) && Consecutive(view, sp, key, -1, s)
    ensures view[PrimaryKey(sp, key, s)] == NonTombstone
  {
    MarksDiffer(false, false);
    assert Mark(false) == NonTombstone;
    hide *;
    ConsecutiveKey(view, sp, key, -1, s);
    var f := MarkedBy(view, sp, others, log, key, s);
    var n := Predecessor(view, sp, others, log, f);
    if n.Some? {
      NoneBetween(view, sp, key, -1, s, n.value.rev);
    }
  }

  lemma ConsecutiveKey(view: Store, sp: Spaces, key: Bytes, r: int, s: Revision)
    requires Consecutive(view, sp, key, r, s)
    ensures r < s && PrimaryKey(sp, key, s) in view
  {
  }

  /** From one entry of a key to the next the mark changes, and a tombstone has its
      secondary entry exactly where the entry it ends has one. */
  lemma EntriesAlternate(view: Store, sp: Spaces, others: Store, log: Log, key: Bytes, r: Revision, s: Revision)
    requires Represents(view, sp, others, log) && PrimaryKey(sp, key, r) in view && Consecutive(view, sp, key, r, s)
    ensures PrimaryKey(sp, key, s) in view && view[PrimaryKey(sp, key, s)] != view[PrimaryKey(sp, key, r)]
    ensures view[PrimaryKey(sp, key, s)] == Tombstone ==>
              forall t: Time :: SecondaryKey(sp, t, key, s) in view <==> SecondaryKey(sp, t, key, r) in view
  {
    hide *;
    ConsecutiveKey(view, sp, key, r, s);
    var e := MarkedBy(view, sp, others, log, key, r);
    var f := MarkedBy(view, sp, others, log, key, s);
    ValidOf(view, sp, others, log);
    MarksDiffer(e.dead, f.dead);
    MarksDiffer(f.dead, e.dead);
    var n := Predecessor(view, sp, others, log, f);
    NoneBetween(view, sp, key, r, s, n.value.rev);
    RevisionsUnique(log, n.value, e);
    if f.dead {
      forall t: Time ensures SecondaryKey(sp, t, key, s) in view <==> SecondaryKey(sp, t, key, r) in view {
        SecondaryOf(view, sp, others, log, t, e);
        SecondaryOf(view, sp, others, log, t, f);
      }
    }
  }

  lemma SecondaryOf(view: Store, sp: Spaces, others: Store, log: Log, t: Time, e: Event)
    requires Represents(view, sp, others, log) && e in log
    ensures SecondaryKey(sp, t, e.key, e.rev) in view <==> t == e.doc.timestamp
  {
    ValidOf(view, sp, others, log);
    hide Represents, SecondaryKey, Valid;
    SecondaryEntries(view, sp, others, log, t, e.key, e.rev);
    forall g | g in log && g.key == e.key && g.rev == e.rev ensures g == e {
      RevisionsUnique(log, e, g);
    }
  }
}
