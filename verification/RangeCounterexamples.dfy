/** Runs of the database on which the range read is not the snapshot, one for each
    condition of exactness that they break. */
module RangeCounterexamples {
  import opened ByteStrings
  import opened Comparator
  import opened Wrappers
  import opened Keys
  import opened RocksDB
  import opened RangeScan
  import opened SecondaryIndex
  import opened History
  import opened RangeHistory
  import opened RangeExactness

  /** Order of two entry keys from time, user key and revision. */
  lemma LessByParts(sp: Spaces, x: Entry, y: Entry)
    requires ValidSpaces(sp)
    requires x.time < y.time || (x.time == y.time && Lex(x.key + IntToString(x.rev), y.key + IntToString(y.rev)) < 0)
    ensures Less(KeyOf(sp, x), KeyOf(sp, y))
  {
    var a, b := x.key + IntToString(x.rev), y.key + IntToString(y.rev);
    KeyRank(sp, x);
    KeyRank(sp, y);
    LessIs(KeyOf(sp, x), KeyOf(sp, y));
    hide IsEntryKey, Rank, IntToString, KeyOf, Lex, Less;
    LexCommonPrefix(sp.secondary, [x.time] + a, [y.time] + b);
    LexHeads([x.time], [y.time], a, b);
    LexOfSingles(x.time, y.time);
  }

  lemma SameKeyLess(key: Bytes, r: Revision, s: Revision)
    requires r < s
    ensures Lex(key + IntToString(r), key + IntToString(s)) < 0
  {
    LexCommonPrefix(key, IntToString(r), IntToString(s));
    IntStrings(r, s);
  }

  function DocumentAt(t: Time): Document { Document([], 0, [], t) }

  // ---------- A deletion the reader does not see yet ----------

  /** Key "1" inserted at 1 and deleted at 9; key "2" inserted at 2 and deleted at 3. */
  function LateDeletion(t: Time): Log {
    [Event(1, [49], false, DocumentAt(t)), Event(2, [50], false, DocumentAt(t)),
     Event(3, [50], true, DocumentAt(t)), Event(9, [49], true, DocumentAt(t))]
  }

  /** Appending one event: what follows it, and the newest event of each key. */
  lemma Grow(log: Log, e: Event)
    ensures Valid(log) && Follows(log, e) ==> Valid(log + [e])
    ensures LastRevision(log + [e]) == e.rev
    ensures forall k :: Newest(log + [e], k) == if e.key == k then Some(e) else Newest(log, k)
  {
    ValidAppend(log, e);
    var longer := log + [e];
    assert longer[..|longer| - 1] == log;
    hide Follows, Valid;
  }

  lemma LateDeletionIsValid(t: Time)
    ensures Valid(LateDeletion(t))
  {
    KeysDiffer();
    var log := LateDeletion(t);
    hide Valid, Newest, LastRevision;
    StartLog(log[0]);
    Grow([log[0]], log[1]);
    Grow([log[0]] + [log[1]], log[2]);
    Grow([log[0]] + [log[1]] + [log[2]], log[3]);
    assert log == [log[0]] + [log[1]] + [log[2]] + [log[3]];
  }

  lemma StartLog(e: Event)
    requires e.rev > 0 && !e.dead
    ensures Valid([e]) && LastRevision([e]) == e.rev
    ensures forall k :: Newest([e], k) == if e.key == k then Some(e) else None
  {
    assert [e][..0] == [];
  }

  lemma LateDeletionSorted(sp: Spaces, t: Time)
    requires ValidSpaces(sp)
    ensures SortedEntries(LateTombstone(t), sp)
  {
    var es := LateTombstone(t);
    hide KeyOf, Less, Lex, ValidSpaces, IntToString;
    SameKeyLess([49], 1, 9);
    SameKeyLess([50], 2, 3);
    forall i, j | 0 <= i < j < |es| ensures Less(KeyOf(sp, es[i]), KeyOf(sp, es[j])) {
      FirstByteLess([49], [50], IntToString(es[i].rev), IntToString(es[j].rev));
      LessByParts(sp, es[i], es[j]);
    }
  }

  /** Keys that differ in their first byte are ordered by it. */
  lemma FirstByteLess(a: Bytes, b: Bytes, r: Bytes, s: Bytes)
    requires a != [] && b != [] && a[0] < b[0]
    ensures Lex(a + r, b + s) < 0
  {
    assert (a + r)[0] == a[0] && (b + s)[0] == b[0];
  }

  /** At revision 5 key "1" is live, and the range read misses it. */
  lemma LateDeletionIsMissed(view: Store, sp: Spaces, others: Store, t: Time)
    requires Represents(view, sp, others, LateDeletion(t))
    requires VPack.IsInt64(t + 1)
    ensures Reported(Entries(view, sp.secondary, t, t + 1), 5) == []
    ensures DocumentAsOf(LateDeletion(t), [49], 5) == Some(DocumentAt(t))
  {
    var log := LateDeletion(t);
    EntriesAreListed(view, sp, others, log, t, t + 1);
    var es := Entries(view, sp.secondary, t, t + 1);
    LateDeletionEntries(t);
    RepresentsFacts(view, sp, others, log);
    LateDeletionSorted(sp, t);
    LateTombstoneHides(t);
    LateDeletionAsOf(t);
    hide *;
    ListedIs(es, LateTombstone(t), sp, log, t, t + 1);
  }

  lemma LateDeletionEntries(t: Time)
    requires VPack.IsInt64(t + 1)
    ensures forall x :: x in LateTombstone(t) <==>
              exists e :: e in LateDeletion(t) && t <= e.doc.timestamp < t + 1 && x == EntryFor(e)
  {
    var log := LateDeletion(t);
    assert LateTombstone(t) == [EntryFor(log[0]), EntryFor(log[3]), EntryFor(log[1]), EntryFor(log[2])];
    forall x | x in LateTombstone(t) ensures exists e :: e in log && t <= e.doc.timestamp < t + 1 && x == EntryFor(e) {
      assert log[0] in log && log[1] in log && log[2] in log && log[3] in log;
    }
  }

  lemma LateDeletionAsOf(t: Time)
    ensures DocumentAsOf(LateDeletion(t), [49], 5) == Some(DocumentAt(t))
  {
    KeysDiffer();
    var log := LateDeletion(t);
    assert log[..3] == [log[0], log[1], log[2]];
    var past := [log[0], log[1], log[2]];
    assert UpTo(log, 5) == UpTo(past, 5) == past;
    assert past[..2] == [log[0], log[1]] && [log[0], log[1]][..1] == [log[0]];
    assert Newest([log[0]], [49]) == Some(log[0]);
    assert Newest([log[0], log[1]], [49]) == Some(log[0]);
    assert Newest(past, [49]) == Some(log[0]);
  }

  /** The same log before that deletion is written. */
  function Earlier(t: Time): Log {
    [Event(1, [49], false, DocumentAt(t)), Event(2, [50], false, DocumentAt(t)), Event(3, [50], true, DocumentAt(t))]
  }

  lemma EarlierContinues(t: Time)
    ensures Continues(Earlier(t), 5, LateDeletion(t))
  {
  }

  function BeforeDeletion(t: Time): seq<Entry> {
    [Entry(t, [49], 1, false), Entry(t, [50], 2, false), Entry(t, [50], 3, true)]
  }

  lemma BeforeDeletionReads(t: Time)
    ensures Reported(BeforeDeletion(t), 5) == [1]
  {
    var es := BeforeDeletion(t);
    KeysDiffer();
    assert Kills(es, 2, 5) && !RunTop(es, 1) && RunTop(es, 0) && !es[0].dead;
    PickThree(es, Emitted(es, 5));
    hide Hidden, Skipping, RunTop, Kills, Pick;
    ScanStep(es, 1, 5);
    ScanStep(es, 0, 5);
  }

  lemma BeforeDeletionSorted(sp: Spaces, t: Time)
    requires ValidSpaces(sp)
    ensures SortedEntries(BeforeDeletion(t), sp)
  {
    hide KeyOf, Less;
    LateDeletionSorted(sp, t);
    DropSecond(sp, Entry(t, [49], 1, false), Entry(t, [49], 9, true), Entry(t, [50], 2, false), Entry(t, [50], 3, true));
  }

  lemma DropSecond(sp: Spaces, a: Entry, b: Entry, c: Entry, d: Entry)
    requires SortedEntries([a, b, c, d], sp)
    ensures SortedEntries([a, c, d], sp)
  {
    hide KeyOf, Less;
    var es := [a, b, c, d];
    assert Less(KeyOf(sp, es[0]), KeyOf(sp, es[2])) && Less(KeyOf(sp, es[0]), KeyOf(sp, es[3]));
    assert Less(KeyOf(sp, es[2]), KeyOf(sp, es[3]));
  }

  lemma BeforeDeletionEntries(t: Time)
    requires VPack.IsInt64(t + 1)
    ensures forall x :: x in BeforeDeletion(t) <==>
              exists e :: e in Earlier(t) && t <= e.doc.timestamp < t + 1 && x == EntryFor(e)
  {
    var log := Earlier(t);
    assert BeforeDeletion(t) == [EntryFor(log[0]), EntryFor(log[1]), EntryFor(log[2])];
    forall x | x in BeforeDeletion(t) ensures exists e :: e in log && t <= e.doc.timestamp < t + 1 && x == EntryFor(e) {
      assert log[0] in log && log[1] in log && log[2] in log;
    }
  }

  /** Range reads do not repeat: at revision 5 the key is reported before the deletion at
      9 is written, and not after it. */
  lemma LateDeletionChangesTheRead(view: Store, view': Store, sp: Spaces, others: Store, t: Time)
    requires Represents(view, sp, others, Earlier(t)) && Represents(view', sp, others, LateDeletion(t))
    requires VPack.IsInt64(t + 1)
    ensures Continues(Earlier(t), 5, LateDeletion(t))
    ensures Reported(Entries(view, sp.secondary, t, t + 1), 5) == [1]
    ensures Reported(Entries(view', sp.secondary, t, t + 1), 5) == []
  {
    var log, next: Time := Earlier(t), t + 1;
    hide *;
    EarlierContinues(t);
    LateDeletionIsMissed(view', sp, others, t);
    EntriesAreListed(view, sp, others, log, t, next);
    BeforeDeletionEntries(t);
    RepresentsFacts(view, sp, others, log);
    BeforeDeletionSorted(sp, t);
    BeforeDeletionReads(t);
    ListedIs(Entries(view, sp.secondary, t, next), BeforeDeletion(t), sp, log, t, next);
  }

  // ---------- A key inserted again under an earlier timestamp ----------

  /** Key "1" inserted at 1, deleted at 2 and inserted at 3 with a smaller timestamp. */
  function Reinsertion(t: Time): Log
    requires VPack.IsInt64(t + 1)
  {
    [Event(1, [49], false, DocumentAt(t + 1)), Event(2, [49], true, DocumentAt(t + 1)), Event(3, [49], false, DocumentAt(t))]
  }

  lemma ReinsertionIsValid(t: Time)
    requires VPack.IsInt64(t + 1)
    ensures Valid(Reinsertion(t))
  {
    var log := Reinsertion(t);
    hide Valid, Newest, LastRevision;
    StartLog(log[0]);
    Grow([log[0]], log[1]);
    Grow([log[0]] + [log[1]], log[2]);
    assert log == [log[0]] + [log[1]] + [log[2]];
  }

  /** At revision 5 key "1" is live, no deletion is newer, and the range read misses it. */
  lemma ReinsertionIsMissed(view: Store, sp: Spaces, others: Store, t: Time)
    requires VPack.IsInt64(t + 1) && VPack.IsInt64(t + 2)
    requires Represents(view, sp, others, Reinsertion(t))
    ensures Reported(Entries(view, sp.secondary, t, t + 2), 5) == []
    ensures DocumentAsOf(Reinsertion(t), [49], 5) == Some(DocumentAt(t))
  {
    var log := Reinsertion(t);
    EntriesAreListed(view, sp, others, log, t, t + 2);
    var es := Entries(view, sp.secondary, t, t + 2);
    ReinsertionEntries(t);
    RepresentsFacts(view, sp, others, log);
    ReinsertionSorted(sp, t);
    EarlierReinsertionHides(t);
    hide *;
    ListedIs(es, EarlierReinsertion(t), sp, log, t, t + 2);
    NewestEvent(log, log[2], 5);
  }

  /** The last event of a log, if an insertion, is what is read from then on. */
  lemma NewestEvent(log: Log, e: Event, max: nat)
    requires log != [] && log[|log| - 1] == e && !e.dead && e.rev <= max
    ensures DocumentAsOf(log, e.key, max) == Some(e.doc)
  {
  }

  lemma ReinsertionSorted(sp: Spaces, t: Time)
    requires ValidSpaces(sp) && VPack.IsInt64(t + 1)
    ensures SortedEntries(EarlierReinsertion(t), sp)
  {
    var es := EarlierReinsertion(t);
    hide KeyOf, Less, Lex, ValidSpaces, IntToString;
    SameKeyLess([49], 1, 2);
    forall i, j | 0 <= i < j < |es| ensures Less(KeyOf(sp, es[i]), KeyOf(sp, es[j])) {
      LessByParts(sp, es[i], es[j]);
    }
  }

  lemma ReinsertionEntries(t: Time)
    requires VPack.IsInt64(t + 1) && VPack.IsInt64(t + 2)
    ensures forall x :: x in EarlierReinsertion(t) <==>
              exists e :: e in Reinsertion(t) && t <= e.doc.timestamp < t + 2 && x == EntryFor(e)
  {
    var log := Reinsertion(t);
    assert EarlierReinsertion(t) == [EntryFor(log[2]), EntryFor(log[0]), EntryFor(log[1])];
    forall x | x in EarlierReinsertion(t) ensures exists e :: e in log && t <= e.doc.timestamp < t + 2 && x == EntryFor(e) {
      assert log[0] in log && log[1] in log && log[2] in log;
    }
  }

  // ---------- A key that interleaves with the revisions of another ----------

  /** The key "1" followed by the bytes of revision 1. */
  function Longer(): Bytes { [49] + IntToString(1) }

  /** Key "1" inserted at 1 and deleted at 2, the longer key inserted at 3. */
  function Interleaving(t: Time): Log {
    [Event(1, [49], false, DocumentAt(t)), Event(2, [49], true, DocumentAt(t)), Event(3, Longer(), false, DocumentAt(t))]
  }

  lemma LongerIsLonger()
    ensures Longer() != [49]
  {
    IntStrings(1, 1);
    hide IntToString;
    assert |Longer()| == 9;
  }

  lemma EmptyFirst(b: Bytes)
    requires b != []
    ensures Lex([], b) < 0
  {
  }

  lemma InterleavingIsValid(t: Time)
    ensures Valid(Interleaving(t))
  {
    var log := Interleaving(t);
    LongerIsLonger();
    hide Valid, Newest, LastRevision, Longer;
    StartLog(log[0]);
    Grow([log[0]], log[1]);
    Grow([log[0]] + [log[1]], log[2]);
    assert log == [log[0]] + [log[1]] + [log[2]];
  }

  /** The deleted document of key "1" is reported again at revision 5. */
  lemma InterleavingResurrects(view: Store, sp: Spaces, others: Store, t: Time)
    requires Represents(view, sp, others, Interleaving(t))
    requires VPack.IsInt64(t + 1)
    ensures Reported(Entries(view, sp.secondary, t, t + 1), 5) == [1, 3]
    ensures DocumentAsOf(Interleaving(t), [49], 5) == None
  {
    var log, k := Interleaving(t), Longer();
    EntriesAreListed(view, sp, others, log, t, t + 1);
    var es := Entries(view, sp.secondary, t, t + 1);
    InterleavingEntries(t);
    RepresentsFacts(view, sp, others, log);
    InterleavingSorted(sp, t);
    LongerIsLonger();
    InterleavedKeyResurrects(t, k);
    InterleavingAsOf(t);
    hide *;
    ListedIs(es, Interleaved(t, k), sp, log, t, t + 1);
  }

  lemma InterleavingAsOf(t: Time)
    ensures DocumentAsOf(Interleaving(t), [49], 5) == None
  {
    LongerIsLonger();
    var log := Interleaving(t);
    hide Longer;
    assert log[..2] == [log[0], log[1]];
    assert UpTo(log, 5) == log;
    assert Newest(log, [49]) == Newest(log[..2], [49]) == Some(log[1]);
  }

  lemma InterleavingSorted(sp: Spaces, t: Time)
    requires ValidSpaces(sp)
    ensures SortedEntries(Interleaved(t, Longer()), sp)
  {
    var k, es := Longer(), Interleaved(t, Longer());
    LongerBetween();
    hide KeyOf, Less, Lex, ValidSpaces, IntToString, Longer;
    SameKeyLess([49], 1, 2);
    forall i, j | 0 <= i < j < |es| ensures Less(KeyOf(sp, es[i]), KeyOf(sp, es[j])) {
      LessByParts(sp, es[i], es[j]);
    }
  }

  lemma LongerBetween()
    ensures Lex([49] + IntToString(1), Longer() + IntToString(3)) < 0
    ensures Lex(Longer() + IntToString(3), [49] + IntToString(2)) < 0
  {
    IntStrings(1, 2);
    IntStrings(3, 3);
    hide IntToString, Lex;
    Between([49], IntToString(1), IntToString(3), IntToString(2));
  }

  /** What extends `p + a` lies between it and `p + c`, for a larger `c` of equal length. */
  lemma Between(p: Bytes, a: Bytes, b: Bytes, c: Bytes)
    requires |a| == |c| && Lex(a, c) < 0 && b != []
    ensures Lex(p + a, p + a + b) < 0 && Lex(p + a + b, p + c) < 0
  {
    EmptyFirst(b);
    LexZero(a, a);
    hide Lex;
    LexCommonPrefix(p + a, [], b);
    assert p + a + [] == p + a;
    assert p + a + b == p + (a + b);
    LexCommonPrefix(p, a + b, c);
    LexHeads(a, c, b, []);
    assert c + [] == c;
  }

  lemma InterleavingEntries(t: Time)
    requires VPack.IsInt64(t + 1)
    ensures forall x :: x in Interleaved(t, Longer()) <==>
              exists e :: e in Interleaving(t) && t <= e.doc.timestamp < t + 1 && x == EntryFor(e)
  {
    var log, fs := Interleaving(t), Interleaved(t, Longer());
    hide Longer;
    assert fs == [EntryFor(log[0]), EntryFor(log[2]), EntryFor(log[1])];
    forall x | x in fs ensures exists e :: e in log && t <= e.doc.timestamp < t + 1 && x == EntryFor(e) {
      assert log[0] in log && log[1] in log && log[2] in log;
    }
  }
}
