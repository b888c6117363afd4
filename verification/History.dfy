/** The abstract database: one log of insertions and deletions in revision order, and
    the store contents it stands for. */
module History {
  import opened ByteStrings
  import opened Comparator
  import opened Wrappers
  import opened Keys
  import opened RocksDB
  import opened AsOf

  /** An insertion of `doc`, or (`dead`) the deletion of the document it ends. */
  datatype Event = Event(rev: Revision, key: Bytes, dead: bool, doc: Document)

  type Log = seq<Event>

  // ---------- The log ----------

  function LastRevision(log: Log): nat { if log == [] then 0 else log[|log| - 1].rev }

  function Newest(log: Log, key: Bytes): Option<Event> {
    if log == [] then None
    else if log[|log| - 1].key == key then Some(log[|log| - 1])
    else Newest(log[..|log| - 1], key)
  }

  predicate IsLive(log: Log, key: Bytes) {
    var n := Newest(log, key);
    n.Some? && !n.value.dead
  }

  /** What may be appended: a newer revision; an insertion of a key that is not live or
      the deletion of the live document. */
  predicate Follows(log: Log, e: Event) {
    e.rev > LastRevision(log) &&
    (e.dead == IsLive(log, e.key)) &&
    (e.dead ==> e.doc == Newest(log, e.key).value.doc)
  }

  predicate Valid(log: Log) {
    log == [] || (Valid(log[..|log| - 1]) && Follows(log[..|log| - 1], log[|log| - 1]))
  }

  function UpTo(log: Log, max: nat): Log {
    if log == [] || log[|log| - 1].rev <= max then log else UpTo(log[..|log| - 1], max)
  }

  /** The document of a key as of a revision: replay the log up to it. */
  function DocumentAsOf(log: Log, key: Bytes, max: nat): Option<Document> {
    var past := UpTo(log, max);
    if IsLive(past, key) then Some(Newest(past, key).value.doc) else None
  }

  lemma {:induction false} RevisionsBounded(log: Log)
    requires Valid(log)
    ensures forall e | e in log :: 0 < e.rev <= LastRevision(log)
  {
    if log != [] {
      var front, last := log[..|log| - 1], log[|log| - 1];
      RevisionsBounded(front);
      assert log == front + [last];
    }
  }

  lemma {:induction false} RevisionsUnique(log: Log, e: Event, f: Event)
    requires Valid(log) && e in log && f in log && e.rev == f.rev
    ensures e == f
  {
    var front, last := log[..|log| - 1], log[|log| - 1];
    RevisionsBounded(front);
    assert log == front + [last];
    if e in front && f in front {
      RevisionsUnique(front, e, f);
    }
  }

  lemma {:induction false} NewestIsLast(log: Log, key: Bytes)
    requires Valid(log)
    ensures var n := Newest(log, key);
            (n.Some? ==> n.value in log && n.value.key == key) &&
            (forall e | e in log && e.key == key :: n.Some? && e.rev <= n.value.rev)
  {
    if log != [] {
      var front, last := log[..|log| - 1], log[|log| - 1];
      NewestIsLast(front, key);
      RevisionsBounded(log);
      assert log == front + [last];
    }
  }

  lemma NewestIs(log: Log, key: Bytes, n: Event)
    requires Valid(log) && n in log && n.key == key
    requires forall e | e in log && e.key == key :: e.rev <= n.rev
    ensures Newest(log, key) == Some(n)
  {
    NewestIsLast(log, key);
    RevisionsUnique(log, Newest(log, key).value, n);
  }

  lemma {:induction false} UpToKeeps(log: Log, max: nat)
    requires Valid(log)
    ensures Valid(UpTo(log, max)) && UpTo(log, max) <= log
    ensures forall e :: e in UpTo(log, max) <==> e in log && e.rev <= max
  {
    if log != [] {
      var front, last := log[..|log| - 1], log[|log| - 1];
      assert log == front + [last];
      RevisionsBounded(log);
      if last.rev > max {
        UpToKeeps(front, max);
      }
    }
  }

  lemma UpToAll(log: Log, max: nat)
    requires LastRevision(log) <= max
    ensures UpTo(log, max) == log
  {
  }

  /** Reading the past is stable: events after `max` do not change what was as of `max`. */
  lemma {:induction false} PastIsStable(log: Log, more: Log, max: nat)
    requires forall e | e in more :: e.rev > max
    ensures UpTo(log + more, max) == UpTo(log, max)
    decreases |more|
  {
    if more == [] {
      assert log + more == log;
    } else {
      var whole := log + more;
      assert whole[..|whole| - 1] == log + more[..|more| - 1];
      assert whole[|whole| - 1] == more[|more| - 1];
      PastIsStable(log, more[..|more| - 1], max);
    }
  }

  /** `log'` continues `log` with revisions above `now`. */
  predicate Continues(log: Log, now: nat, log': Log) {
    log <= log' && forall i | |log| <= i < |log'| :: log'[i].rev > now
  }

  lemma ContinuesTransitive(a: Log, now: nat, b: Log, later: nat, c: Log)
    requires Continues(a, now, b) && Continues(b, later, c) && now <= later
    ensures Continues(a, now, c)
  {
  }

  /** Time-travel reads are stable: whatever is written after revision `r` was issued,
      the answer as of `r` stays. */
  lemma PastReadsAreStable(log: Log, now: nat, log': Log, key: Bytes, r: nat)
    requires Continues(log, now, log') && r <= now
    ensures DocumentAsOf(log', key, r) == DocumentAsOf(log, key, r)
  {
    var more := log'[|log|..];
    assert log' == log + more;
    PastIsStable(log, more, r);
  }

  // ---------- Alternation per timestamp and key ----------

  /** The last event of a key under one timestamp. */
  function NewestPair(log: Log, t: Time, key: Bytes): Option<Event> {
    if log == [] then None
    else
      var last := log[|log| - 1];
      if last.key == key && last.doc.timestamp == t then Some(last) else NewestPair(log[..|log| - 1], t, key)
  }

  /** Under each timestamp, too, a key is open only while it is live: the live document's
      own timestamp. */
  lemma {:induction false} PairFollowsKey(log: Log, t: Time, key: Bytes)
    requires Valid(log)
    ensures var n, q := Newest(log, key), NewestPair(log, t, key);
            if IsLive(log, key) && n.value.doc.timestamp == t then q == n
            else q.Some? ==> q.value.dead
  {
    if log != [] {
      PairFollowsKey(log[..|log| - 1], t, key);
      var e := log[|log| - 1];
      if e.key == key {
        PairFollowsKey(log[..|log| - 1], e.doc.timestamp, key);
      }
    }
  }

  lemma {:induction false} NewestPairIsLast(log: Log, t: Time, key: Bytes)
    requires Valid(log)
    ensures var n := NewestPair(log, t, key);
            (n.Some? ==> n.value in log && n.value.key == key && n.value.doc.timestamp == t) &&
            (forall e | e in log && e.key == key && e.doc.timestamp == t :: n.Some? && e.rev <= n.value.rev)
  {
    if log != [] {
      var front, last := log[..|log| - 1], log[|log| - 1];
      NewestPairIsLast(front, t, key);
      RevisionsBounded(log);
      assert log == front + [last];
    }
  }

  // ---------- The store a log stands for ----------

  /** The prefixes of the three key spaces of a database. */
  datatype Spaces = Spaces(primary: Bytes, secondary: Bytes, documents: Bytes)

  predicate ValidSpaces(sp: Spaces) {
    IsIndexPrefix(sp.primary) && IsIndexPrefix(sp.secondary) && sp.primary != sp.secondary && IsDocumentPrefix(sp.documents)
  }

  function PrimaryKey(sp: Spaces, key: Bytes, r: Revision): Bytes { EntryKey(sp.primary, Nothing, key, r) }
  function SecondaryKey(sp: Spaces, t: Time, key: Bytes, r: Revision): Bytes { EntryKey(sp.secondary, At(t), key, r) }

  /** What one event adds: an entry in both indexes, and the document of an insertion. */
  function Cells(sp: Spaces, e: Event): Store {
    map[PrimaryKey(sp, e.key, e.rev) := Mark(e.dead),
        SecondaryKey(sp, e.doc.timestamp, e.key, e.rev) := Mark(e.dead)]
    + (if e.dead then map[] else map[DocumentKey(sp.documents, e.rev) := Packed(e.doc)])
  }

  function Image(sp: Spaces, log: Log): Store {
    if log == [] then map[] else Image(sp, log[..|log| - 1]) + Cells(sp, log[|log| - 1])
  }

  /** Keys outside the three spaces. */
  ghost predicate Foreign(sp: Spaces, others: Store) {
    AllWellFormed(others.Keys) &&
    forall k | k in others :: !(sp.primary <= k) && !(sp.secondary <= k) && !(sp.documents <= k)
  }

  /** The store holds exactly the image of the log, beside foreign keys. */
  ghost predicate Represents(view: Store, sp: Spaces, others: Store, log: Log) {
    ValidSpaces(sp) && Foreign(sp, others) && Valid(log) && view == others + Image(sp, log)
  }

  /** Whose key is it: the space and the revision can be read off a key. */
  lemma SpaceOfKey(sp: Spaces, e: Event, k: Bytes)
    requires ValidSpaces(sp) && k in Cells(sp, e)
    ensures WellFormed(k) && |k| >= 8 && Unwrap(k) == e.rev
    ensures k[..SluggedLength] in {sp.primary, sp.secondary, sp.documents}
  {
    hide *;
    var b, c := PrimaryKey(sp, e.key, e.rev), SecondaryKey(sp, e.doc.timestamp, e.key, e.rev);
    var d, t := DocumentKey(sp.documents, e.rev), e.doc.timestamp;
    IndexKeyFacts(sp, t, e.key, e.rev);
    DocumentKeyFacts(sp, e.rev);
    KeysApart(sp, b, c, t, e.key, e.rev);
    KeysApart(sp, b, d, t, e.key, e.rev);
    KeysApart(sp, c, d, t, e.key, e.rev);
    CellsAre(sp, e, b, c, d, k);
  }

  lemma IndexKeyFacts(sp: Spaces, t: Time, key: Bytes, r: Revision)
    requires ValidSpaces(sp)
    ensures var b := PrimaryKey(sp, key, r); WellFormed(b) && |b| >= 8 && Unwrap(b) == r && b[..SluggedLength] == sp.primary
    ensures var c := SecondaryKey(sp, t, key, r); WellFormed(c) && |c| >= 8 && Unwrap(c) == r && c[..SluggedLength] == sp.secondary
  {
    EntryKeyShape(sp.primary, Nothing, key, r);
    EntryKeyTail(sp.primary, Nothing, key, r);
    EntryKeyShape(sp.secondary, At(t), key, r);
    EntryKeyTail(sp.secondary, At(t), key, r);
    hide EntryKey, WellFormed, Unwrap;
  }

  lemma DocumentKeyFacts(sp: Spaces, r: Revision)
    requires ValidSpaces(sp)
    ensures var d := DocumentKey(sp.documents, r); WellFormed(d) && |d| >= 8 && Unwrap(d) == r && d[..SluggedLength] == sp.documents
  {
    DocumentKeyShape(sp.documents, r);
  }

  lemma {:induction false} ImageKeys(sp: Spaces, log: Log, k: Bytes)
    ensures k in Image(sp, log) <==> exists e :: e in log && k in Cells(sp, e)
  {
    if log != [] {
      hide Cells;
      var front, last := log[..|log| - 1], log[|log| - 1];
      assert log == front + [last];
      ImageKeys(sp, front, k);
    }
  }

  lemma {:induction false} ImageCells(sp: Spaces, log: Log, e: Event, k: Bytes)
    requires ValidSpaces(sp) && Valid(log) && e in log && k in Cells(sp, e)
    ensures k in Image(sp, log) && Image(sp, log)[k] == Cells(sp, e)[k]
  {
    hide Cells, Unwrap, WellFormed, ValidSpaces;
    var front, last := log[..|log| - 1], log[|log| - 1];
    assert log == front + [last];
    RevisionsBounded(front);
    if e in front {
      ImageCells(sp, front, e, k);
      SpaceOfKey(sp, e, k);
      if k in Cells(sp, last) {
        SpaceOfKey(sp, last, k);
        assert false;
      }
    }
  }

  lemma RepresentsWellFormed(view: Store, sp: Spaces, others: Store, log: Log)
    requires Represents(view, sp, others, log)
    ensures AllWellFormed(view.Keys)
  {
    hide Cells, WellFormed, Image;
    forall k | k in view ensures WellFormed(k) {
      if k !in others {
        ImageKeys(sp, log, k);
        var e :| e in log && k in Cells(sp, e);
        SpaceOfKey(sp, e, k);
      }
    }
  }

  /** Every key of one of our spaces belongs to an event, with that event's cell. */
  lemma OurKeys(view: Store, sp: Spaces, others: Store, log: Log, k: Bytes) returns (e: Event)
    requires Represents(view, sp, others, log) && k in view
    requires sp.primary <= k || sp.secondary <= k || sp.documents <= k
    ensures e in log && k in Cells(sp, e) && view[k] == Cells(sp, e)[k]
  {
    hide Cells, Image;
    assert k !in others;
    ImageKeys(sp, log, k);
    e :| e in log && k in Cells(sp, e);
    ImageCells(sp, log, e, k);
  }

  lemma EventKeys(view: Store, sp: Spaces, others: Store, log: Log, e: Event, k: Bytes)
    requires Represents(view, sp, others, log) && e in log && k in Cells(sp, e)
    ensures k in view && view[k] == Cells(sp, e)[k]
  {
    hide Cells, Image, WellFormed, Unwrap;
    ImageCells(sp, log, e, k);
    SpaceOfKey(sp, e, k);
    PrefixOf(k[..SluggedLength], k);
  }

  // ---------- Reading the image ----------

  /** The three keys of an event are told apart by their prefixes. */
  lemma KeysApart(sp: Spaces, k: Bytes, j: Bytes, t: Time, key: Bytes, r: Revision)
    requires ValidSpaces(sp)
    ensures sp.primary <= PrimaryKey(sp, key, r) && sp.secondary <= SecondaryKey(sp, t, key, r)
    ensures sp.documents <= DocumentKey(sp.documents, r)
    ensures sp.primary <= k && sp.secondary <= j ==> k != j
    ensures sp.primary <= k && sp.documents <= j ==> k != j
    ensures sp.secondary <= k && sp.documents <= j ==> k != j
  {
    EntryKeyShape(sp.primary, Nothing, key, r);
    EntryKeyShape(sp.secondary, At(t), key, r);
    hide EntryKey, WellFormed;
    PrefixOf(sp.primary, PrimaryKey(sp, key, r));
    PrefixOf(sp.secondary, SecondaryKey(sp, t, key, r));
    if sp.primary <= k { assert k[..SluggedLength] == sp.primary; }
    if sp.secondary <= k { assert k[..SluggedLength] == sp.secondary; }
  }

  lemma CellsAre(sp: Spaces, e: Event, b: Bytes, c: Bytes, d: Bytes, k: Bytes)
    requires b == PrimaryKey(sp, e.key, e.rev) && c == SecondaryKey(sp, e.doc.timestamp, e.key, e.rev)
    requires d == DocumentKey(sp.documents, e.rev) && b != c && b != d && c != d
    ensures k in Cells(sp, e) <==> k == b || k == c || (k == d && !e.dead)
    ensures Cells(sp, e)[b] == Mark(e.dead) && Cells(sp, e)[c] == Mark(e.dead)
    ensures !e.dead ==> Cells(sp, e)[d] == Packed(e.doc)
  {
    hide PrimaryKey, SecondaryKey, DocumentKey, Mark;
  }

  lemma PrimaryCell(sp: Spaces, e: Event, key: Bytes, r: Revision)
    requires ValidSpaces(sp)
    ensures PrimaryKey(sp, key, r) in Cells(sp, e) <==> e.key == key && e.rev == r
    ensures Cells(sp, e)[PrimaryKey(sp, e.key, e.rev)] == Mark(e.dead)
    ensures sp.primary <= PrimaryKey(sp, key, r)
  {
    EntryKeyInjective(sp.primary, sp.primary, Nothing, Nothing, key, e.key, r, e.rev);
    var a, b := PrimaryKey(sp, key, r), PrimaryKey(sp, e.key, e.rev);
    var c, d := SecondaryKey(sp, e.doc.timestamp, e.key, e.rev), DocumentKey(sp.documents, e.rev);
    assert a == b <==> key == e.key && r == e.rev;
    hide *;
    KeysApart(sp, a, c, e.doc.timestamp, key, r);
    KeysApart(sp, b, c, e.doc.timestamp, e.key, e.rev);
    KeysApart(sp, a, d, e.doc.timestamp, e.key, e.rev);
    KeysApart(sp, b, d, e.doc.timestamp, e.key, e.rev);
    KeysApart(sp, c, d, e.doc.timestamp, e.key, e.rev);
    CellsAre(sp, e, b, c, d, a);
  }

  lemma PrefixOf(p: Bytes, k: Bytes)
    requires |k| >= SluggedLength && k[..SluggedLength] == p
    ensures p <= k
  {
  }

  lemma SecondaryCell(sp: Spaces, e: Event, t: Time, key: Bytes, r: Revision)
    requires ValidSpaces(sp)
    ensures SecondaryKey(sp, t, key, r) in Cells(sp, e) <==> e.key == key && e.rev == r && e.doc.timestamp == t
    ensures Cells(sp, e)[SecondaryKey(sp, e.doc.timestamp, e.key, e.rev)] == Mark(e.dead)
    ensures sp.secondary <= SecondaryKey(sp, t, key, r)
  {
    EntryKeyInjective(sp.secondary, sp.secondary, At(t), At(e.doc.timestamp), key, e.key, r, e.rev);
    var b, c := PrimaryKey(sp, e.key, e.rev), SecondaryKey(sp, e.doc.timestamp, e.key, e.rev);
    var a, d := SecondaryKey(sp, t, key, r), DocumentKey(sp.documents, e.rev);
    assert a == c <==> key == e.key && r == e.rev && t == e.doc.timestamp;
    hide *;
    KeysApart(sp, b, a, t, key, r);
    KeysApart(sp, b, c, e.doc.timestamp, e.key, e.rev);
    KeysApart(sp, a, d, e.doc.timestamp, e.key, e.rev);
    KeysApart(sp, b, d, e.doc.timestamp, e.key, e.rev);
    KeysApart(sp, c, d, e.doc.timestamp, e.key, e.rev);
    CellsAre(sp, e, b, c, d, a);
  }

  lemma DocumentCell(sp: Spaces, e: Event, r: Revision)
    requires ValidSpaces(sp)
    ensures DocumentKey(sp.documents, r) in Cells(sp, e) <==> e.rev == r && !e.dead
    ensures !e.dead ==> Cells(sp, e)[DocumentKey(sp.documents, e.rev)] == Packed(e.doc)
    ensures sp.documents <= DocumentKey(sp.documents, r)
  {
    DocumentKeyInjective(sp.documents, sp.documents, r, e.rev);
    var b, c := PrimaryKey(sp, e.key, e.rev), SecondaryKey(sp, e.doc.timestamp, e.key, e.rev);
    var a, d := DocumentKey(sp.documents, r), DocumentKey(sp.documents, e.rev);
    hide *;
    KeysApart(sp, b, a, e.doc.timestamp, e.key, e.rev);
    KeysApart(sp, c, a, e.doc.timestamp, e.key, r);
    KeysApart(sp, b, c, e.doc.timestamp, e.key, e.rev);
    KeysApart(sp, b, d, e.doc.timestamp, e.key, e.rev);
    KeysApart(sp, c, d, e.doc.timestamp, e.key, e.rev);
    CellsAre(sp, e, b, c, d, a);
  }

  lemma PrimaryEntries(view: Store, sp: Spaces, others: Store, log: Log, key: Bytes, r: Revision)
    requires Represents(view, sp, others, log)
    ensures PrimaryKey(sp, key, r) in view <==> exists e :: e in log && e.key == key && e.rev == r
    ensures forall e | e in log && e.key == key && e.rev == r ::
              PrimaryKey(sp, key, r) in view && view[PrimaryKey(sp, key, r)] == Mark(e.dead)
  {
    hide Cells, Image, PrimaryKey, Mark;
    var k := PrimaryKey(sp, key, r);
    forall e | e in log && e.key == key && e.rev == r ensures k in view && view[k] == Mark(e.dead) {
      PrimaryCell(sp, e, key, r);
      EventKeys(view, sp, others, log, e, k);
    }
    if k in view {
      PrimaryCell(sp, Event(r, key, false, Document([], 0, [], 0)), key, r);
      var e := OurKeys(view, sp, others, log, k);
      PrimaryCell(sp, e, key, r);
    }
  }

  lemma SecondaryEntries(view: Store, sp: Spaces, others: Store, log: Log, t: Time, key: Bytes, r: Revision)
    requires Represents(view, sp, others, log)
    ensures SecondaryKey(sp, t, key, r) in view <==> exists e :: e in log && e.key == key && e.rev == r && e.doc.timestamp == t
    ensures forall e | e in log && e.key == key && e.rev == r && e.doc.timestamp == t ::
              SecondaryKey(sp, t, key, r) in view && view[SecondaryKey(sp, t, key, r)] == Mark(e.dead)
  {
    hide Cells, Image, SecondaryKey, Mark;
    var k := SecondaryKey(sp, t, key, r);
    forall e | e in log && e.key == key && e.rev == r && e.doc.timestamp == t ensures k in view && view[k] == Mark(e.dead) {
      SecondaryCell(sp, e, t, key, r);
      EventKeys(view, sp, others, log, e, k);
    }
    if k in view {
      SecondaryCell(sp, Event(r, key, false, Document([], 0, [], 0)), t, key, r);
      var e := OurKeys(view, sp, others, log, k);
      SecondaryCell(sp, e, t, key, r);
    }
  }

  lemma DocumentCells(view: Store, sp: Spaces, others: Store, log: Log, r: Revision)
    requires Represents(view, sp, others, log)
    ensures DocumentKey(sp.documents, r) in view <==> exists e :: e in log && e.rev == r && !e.dead
    ensures forall e | e in log && e.rev == r && !e.dead ::
              DocumentKey(sp.documents, r) in view && view[DocumentKey(sp.documents, r)] == Packed(e.doc)
  {
    hide Cells, Image, DocumentKey;
    var k := DocumentKey(sp.documents, r);
    forall e | e in log && e.rev == r && !e.dead ensures k in view && view[k] == Packed(e.doc) {
      DocumentCell(sp, e, r);
      EventKeys(view, sp, others, log, e, k);
    }
    if k in view {
      DocumentCell(sp, Event(r, [], false, Document([], 0, [], 0)), r);
      var e := OurKeys(view, sp, others, log, k);
      DocumentCell(sp, e, r);
    }
  }

  // ---------- The two indexes answer from the log ----------

  lemma PrimaryNewest(view: Store, sp: Spaces, others: Store, log: Log, key: Bytes, max: Revision)
    requires Represents(view, sp, others, log)
    ensures var n := Newest(UpTo(log, max), key);
            NewestAtMost(view.Keys, sp.primary, Nothing, key, max) == if n.Some? then Some(n.value.rev) else None
    ensures LiveAtMost(view, sp.primary, Nothing, key, max)
         == if IsLive(UpTo(log, max), key) then Some(Newest(UpTo(log, max), key).value.rev) else None
  {
    UpToKeeps(log, max);
    NewestIsLast(UpTo(log, max), key);
    hide Image, UpTo, Newest, Represents, EntryKey;
    var n := Newest(UpTo(log, max), key);
    var m := if n.Some? then Some(n.value.rev) else None;
    forall r: Revision | r <= max && EntryKey(sp.primary, Nothing, key, r) in view.Keys ensures m.Some? && r <= m.value {
      PrimaryEntries(view, sp, others, log, key, r);
    }
    if m.Some? { PrimaryEntries(view, sp, others, log, key, m.value); }
    NewestUnique(view.Keys, sp.primary, Nothing, key, max, m);
  }

  lemma PrimaryAccepts(view: Store, sp: Spaces, others: Store, log: Log, key: Bytes, tombstone: bool)
    requires Represents(view, sp, others, log)
    ensures Accepts(view, sp.primary, Nothing, key, tombstone)
       <==> Newest(log, key).None? || Newest(log, key).value.dead != tombstone
  {
    AllRevisions(log);
    PrimaryNewest(view, sp, others, log, key, MaxRevision);
    hide Image, Newest;
    var n := Newest(log, key);
    if n.Some? {
      NewestIsLast(log, key);
      PrimaryEntries(view, sp, others, log, key, n.value.rev);
    }
  }

  lemma AllRevisions(log: Log)
    ensures UpTo(log, MaxRevision) == log
  {
  }

  /** Under a timestamp the secondary index accepts what the log allows there. */
  lemma SecondaryAccepts(view: Store, sp: Spaces, others: Store, log: Log, t: Time, key: Bytes, tombstone: bool)
    requires Represents(view, sp, others, log)
    ensures Accepts(view, sp.secondary, At(t), key, tombstone)
       <==> NewestPair(log, t, key).None? || NewestPair(log, t, key).value.dead != tombstone
  {
    SecondaryNewest(view, sp, others, log, t, key);
    NewestPairIsLast(log, t, key);
    hide Image, NewestPair, Represents;
    var n := NewestPair(log, t, key);
    if n.Some? { SecondaryEntries(view, sp, others, log, t, key, n.value.rev); }
  }

  lemma SecondaryNewest(view: Store, sp: Spaces, others: Store, log: Log, t: Time, key: Bytes)
    requires Represents(view, sp, others, log)
    ensures var n := NewestPair(log, t, key);
            NewestAtMost(view.Keys, sp.secondary, At(t), key, MaxRevision) == if n.Some? then Some(n.value.rev) else None
  {
    NewestPairIsLast(log, t, key);
    hide Image, NewestPair, Represents, EntryKey;
    var n := NewestPair(log, t, key);
    var m := if n.Some? then Some(n.value.rev) else None;
    forall r: Revision | r <= MaxRevision && EntryKey(sp.secondary, At(t), key, r) in view.Keys ensures m.Some? && r <= m.value {
      SecondaryEntries(view, sp, others, log, t, key, r);
    }
    if m.Some? { SecondaryEntries(view, sp, others, log, t, key, m.value); }
    NewestUnique(view.Keys, sp.secondary, At(t), key, MaxRevision, m);
  }

  // ---------- Appending ----------

  lemma Extended(view: Store, sp: Spaces, others: Store, log: Log, e: Event)
    requires Represents(view, sp, others, log) && Follows(log, e)
    ensures Represents(view + Cells(sp, e), sp, others, log + [e])
  {
    ImageOfAppend(sp, log, e);
    ValidAppend(log, e);
    var image, cells := Image(sp, log), Cells(sp, e);
    hide Cells, Foreign, Image, Valid, ValidSpaces, Follows;
    MapPlus(others, image, cells);
  }

  lemma ImageOfAppend(sp: Spaces, log: Log, e: Event)
    ensures Image(sp, log + [e]) == Image(sp, log) + Cells(sp, e)
  {
    var longer := log + [e];
    assert longer[..|longer| - 1] == log;
    hide Cells;
  }

  lemma ValidAppend(log: Log, e: Event)
    ensures Valid(log + [e]) <==> Valid(log) && Follows(log, e)
  {
    var longer := log + [e];
    assert longer[..|longer| - 1] == log;
    hide Follows;
  }

  lemma MapPlus(a: Store, b: Store, c: Store)
    ensures a + (b + c) == (a + b) + c
  {
  }

  // ---------- The three spaces agree ----------

  lemma IndexesAgree(view: Store, sp: Spaces, others: Store, log: Log, key: Bytes, r: Revision)
    requires Represents(view, sp, others, log)
    ensures PrimaryKey(sp, key, r) in view <==> exists t: Time :: SecondaryKey(sp, t, key, r) in view
    ensures forall t: Time, u: Time | SecondaryKey(sp, t, key, r) in view && SecondaryKey(sp, u, key, r) in view :: t == u
    ensures forall t: Time | SecondaryKey(sp, t, key, r) in view ::
              view[SecondaryKey(sp, t, key, r)] == view[PrimaryKey(sp, key, r)]
  {
    PrimaryEntries(view, sp, others, log, key, r);
    assert Valid(log);
    hide Image, Represents, PrimaryKey, SecondaryKey, DocumentKey, Valid;
    if PrimaryKey(sp, key, r) in view {
      var e :| e in log && e.key == key && e.rev == r;
      SecondaryEntries(view, sp, others, log, e.doc.timestamp, key, r);
    }
    forall t: Time | SecondaryKey(sp, t, key, r) in view
      ensures exists e :: e in log && e.key == key && e.rev == r && e.doc.timestamp == t && view[SecondaryKey(sp, t, key, r)] == Mark(e.dead)
    {
      SecondaryEntries(view, sp, others, log, t, key, r);
    }
    forall t: Time, u: Time | SecondaryKey(sp, t, key, r) in view && SecondaryKey(sp, u, key, r) in view ensures t == u {
      var e :| e in log && e.key == key && e.rev == r && e.doc.timestamp == t;
      var f :| f in log && f.key == key && f.rev == r && f.doc.timestamp == u;
      RevisionsUnique(log, e, f);
    }
  }

  /** A live entry in both indexes. */
  predicate LiveEntry(view: Store, sp: Spaces, t: Time, key: Bytes, r: Revision) {
    SecondaryKey(sp, t, key, r) in view && view[SecondaryKey(sp, t, key, r)] == NonTombstone &&
    PrimaryKey(sp, key, r) in view && view[PrimaryKey(sp, key, r)] == NonTombstone
  }

  /** A document with this timestamp is stored at the revision. */
  predicate HasDocument(view: Store, sp: Spaces, t: Time, r: Revision) {
    var d := DocumentKey(sp.documents, r);
    d in view && view[d].Packed? && view[d].document.timestamp == t
  }

  lemma LiveEntryHasDocument(view: Store, sp: Spaces, others: Store, log: Log, t: Time, key: Bytes, r: Revision)
    requires Represents(view, sp, others, log) && SecondaryKey(sp, t, key, r) in view
    requires view[SecondaryKey(sp, t, key, r)] != Tombstone
    ensures HasDocument(view, sp, t, r)
  {
    hide Image, Represents, PrimaryKey, SecondaryKey, DocumentKey;
    SecondaryEntries(view, sp, others, log, t, key, r);
    DocumentCells(view, sp, others, log, r);
  }

  lemma DocumentIsLive(view: Store, sp: Spaces, others: Store, log: Log, r: Revision)
    requires Represents(view, sp, others, log) && DocumentKey(sp.documents, r) in view
    ensures exists k, t :: HasDocument(view, sp, t, r) && LiveEntry(view, sp, t, k, r)
  {
    hide Image, Represents, PrimaryKey, SecondaryKey, DocumentKey;
    DocumentCells(view, sp, others, log, r);
    var e :| e in log && e.rev == r && !e.dead;
    SecondaryEntries(view, sp, others, log, e.doc.timestamp, e.key, r);
    PrimaryEntries(view, sp, others, log, e.key, r);
    assert HasDocument(view, sp, e.doc.timestamp, r) && LiveEntry(view, sp, e.doc.timestamp, e.key, r);
  }

  /** Every primary entry has exactly one secondary entry of the same revision and mark,
      and a live one has its document, with the timestamp of that entry; there are no
      other secondary entries, and every stored document belongs to a live one. */
  lemma SpacesAgree(view: Store, sp: Spaces, others: Store, log: Log, key: Bytes, r: Revision)
    requires Represents(view, sp, others, log)
    ensures PrimaryKey(sp, key, r) in view <==> exists t: Time :: SecondaryKey(sp, t, key, r) in view
    ensures forall t: Time, u: Time | SecondaryKey(sp, t, key, r) in view && SecondaryKey(sp, u, key, r) in view :: t == u
    ensures forall t: Time | SecondaryKey(sp, t, key, r) in view ::
              view[SecondaryKey(sp, t, key, r)] == view[PrimaryKey(sp, key, r)]
    ensures forall t: Time | SecondaryKey(sp, t, key, r) in view && view[SecondaryKey(sp, t, key, r)] != Tombstone ::
              HasDocument(view, sp, t, r)
    ensures DocumentKey(sp.documents, r) in view ==>
              exists k, t :: HasDocument(view, sp, t, r) && LiveEntry(view, sp, t, k, r)
  {
    hide *;
    IndexesAgree(view, sp, others, log, key, r);
    forall t: Time | SecondaryKey(sp, t, key, r) in view && view[SecondaryKey(sp, t, key, r)] != Tombstone
      ensures HasDocument(view, sp, t, r)
    {
      LiveEntryHasDocument(view, sp, others, log, t, key, r);
    }
    if DocumentKey(sp.documents, r) in view {
      DocumentIsLive(view, sp, others, log, r);
    }
  }
}
