/** `Database`: every operation against the log it stands for. */
module Database {
  import opened ByteStrings
  import opened Comparator
  import opened Wrappers
  import opened Keys
  import opened RocksDB
  import opened AsOf
  import opened History
  import opened RangeScan
  import opened RangeHistory
  import opened RangeExactness
  import PI = PrimaryIndex
  import SI = SecondaryIndex
  import SE = StorageEngine
  import Clock

  // ---------- Three writes make an event ----------

  /** An index answers from its own entries only. */
  lemma AcceptsFromOwnKeys(view: Store, view': Store, p: Bytes, v: Indexed, key: Bytes, tombstone: bool)
    requires forall r: Revision :: EntryKey(p, v, key, r) in view <==> EntryKey(p, v, key, r) in view'
    requires forall r: Revision | EntryKey(p, v, key, r) in view :: view'[EntryKey(p, v, key, r)] == view[EntryKey(p, v, key, r)]
    ensures Accepts(view, p, v, key, tombstone) <==> Accepts(view', p, v, key, tombstone)
  {
    hide EntryKey;
    AsOf.NewestIs(view.Keys, p, v, key, MaxRevision);
    NewestUnique(view'.Keys, p, v, key, MaxRevision, NewestAtMost(view.Keys, p, v, key, MaxRevision));
  }

  /** Primary and document writes do not disturb the secondary index. */
  lemma SecondaryUndisturbed(view: Store, sp: Spaces, e: Event, tombstone: bool, view': Store)
    requires ValidSpaces(sp)
    requires view' == view[PrimaryKey(sp, e.key, e.rev) := Mark(e.dead)]
          || view' == view[PrimaryKey(sp, e.key, e.rev) := Mark(e.dead)][DocumentKey(sp.documents, e.rev) := Packed(e.doc)]
    ensures Accepts(view', sp.secondary, At(e.doc.timestamp), e.key, tombstone)
       <==> Accepts(view, sp.secondary, At(e.doc.timestamp), e.key, tombstone)
  {
    var t := e.doc.timestamp;
    var b, d := PrimaryKey(sp, e.key, e.rev), DocumentKey(sp.documents, e.rev);
    hide PrimaryKey, DocumentKey, EntryKey, ValidSpaces, Accepts, Mark;
    forall r: Revision ensures EntryKey(sp.secondary, At(t), e.key, r) != b && EntryKey(sp.secondary, At(t), e.key, r) != d {
      SecondaryApart(sp, e, r);
    }
    AcceptsFromOwnKeys(view, view', sp.secondary, At(t), e.key, tombstone);
  }

  lemma SecondaryApart(sp: Spaces, e: Event, r: Revision)
    requires ValidSpaces(sp)
    ensures EntryKey(sp.secondary, At(e.doc.timestamp), e.key, r) != PrimaryKey(sp, e.key, e.rev)
    ensures EntryKey(sp.secondary, At(e.doc.timestamp), e.key, r) != DocumentKey(sp.documents, e.rev)
  {
    var c, b, d := SecondaryKey(sp, e.doc.timestamp, e.key, r), PrimaryKey(sp, e.key, e.rev), DocumentKey(sp.documents, e.rev);
    assert c == EntryKey(sp.secondary, At(e.doc.timestamp), e.key, r);
    hide *;
    KeysApart(sp, b, c, e.doc.timestamp, e.key, r);
    KeysApart(sp, b, c, e.doc.timestamp, e.key, e.rev);
    KeysApart(sp, c, d, e.doc.timestamp, e.key, e.rev);
    KeysApart(sp, c, d, e.doc.timestamp, e.key, r);
  }

  /** The writes of an insertion, and of a deletion, in the order they are made. */
  lemma WritesAreCells(view: Store, sp: Spaces, e: Event)
    requires ValidSpaces(sp)
    ensures var b := PrimaryKey(sp, e.key, e.rev);
            var c := SecondaryKey(sp, e.doc.timestamp, e.key, e.rev);
            var d := DocumentKey(sp.documents, e.rev);
            (!e.dead ==> view[b := Mark(false)][d := Packed(e.doc)][c := Mark(false)] == view + Cells(sp, e)) &&
            (e.dead ==> view[b := Mark(true)][c := Mark(true)] == view + Cells(sp, e))
  {
    var b, c, d := PrimaryKey(sp, e.key, e.rev), SecondaryKey(sp, e.doc.timestamp, e.key, e.rev), DocumentKey(sp.documents, e.rev);
    hide PrimaryKey, SecondaryKey, DocumentKey, ValidSpaces, Mark;
    KeysApart(sp, b, c, e.doc.timestamp, e.key, e.rev);
    KeysApart(sp, b, d, e.doc.timestamp, e.key, e.rev);
    KeysApart(sp, c, d, e.doc.timestamp, e.key, e.rev);
  }

  lemma WritesWellFormed(view: Store, sp: Spaces, e: Event)
    requires ValidSpaces(sp) && AllWellFormed(view.Keys)
    ensures var v := view[PrimaryKey(sp, e.key, e.rev) := Mark(e.dead)];
            AllWellFormed(v.Keys) && AllWellFormed(v[DocumentKey(sp.documents, e.rev) := Packed(e.doc)].Keys)
  {
    EntryKeyShape(sp.primary, Nothing, e.key, e.rev);
    DocumentKeyShape(sp.documents, e.rev);
    hide WellFormed, EntryKey, DocumentKey;
  }

  /** An insertion goes through exactly when the key is not live: the primary check
      decides, the secondary check then passes, and the three writes append the event. */
  lemma InsertionSteps(view: Store, sp: Spaces, others: Store, l: Log, e: Event, v1: Store, v2: Store, v3: Store)
    requires Represents(view, sp, others, l) && e.rev > LastRevision(l) && !e.dead
    requires v1 == view[EntryKey(sp.primary, Nothing, e.key, e.rev) := Mark(false)]
    requires v2 == v1[DocumentKey(sp.documents, e.rev) := Packed(e.doc)]
    requires v3 == v2[EntryKey(sp.secondary, At(e.doc.timestamp), e.key, e.rev) := Mark(false)]
    ensures IsIndexPrefix(sp.primary) && IsIndexPrefix(sp.secondary)
    ensures AllWellFormed(view.Keys) && AllWellFormed(v1.Keys) && AllWellFormed(v2.Keys)
    ensures Accepts(view, sp.primary, Nothing, e.key, false) <==> !IsLive(l, e.key)
    ensures !IsLive(l, e.key) ==> Accepts(v2, sp.secondary, At(e.doc.timestamp), e.key, false)
    ensures !IsLive(l, e.key) ==> Represents(v3, sp, others, l + [e])
  {
    RepresentsWellFormed(view, sp, others, l);
    PrimaryAccepts(view, sp, others, l, e.key, false);
    SecondaryAccepts(view, sp, others, l, e.doc.timestamp, e.key, false);
    PairFollowsKey(l, e.doc.timestamp, e.key);
    hide Image, Cells, EntryKey, DocumentKey, Accepts, WellFormed, Newest, NewestPair, Foreign, Valid;
    WritesWellFormed(view, sp, e);
    SecondaryUndisturbed(view, sp, e, false, v2);
    WritesAreCells(view, sp, e);
    if !IsLive(l, e.key) { Extended(view, sp, others, l, e); }
  }

  /** A deletion of a live key goes through both indexes and appends the event. */
  lemma DeletionSteps(view: Store, sp: Spaces, others: Store, l: Log, e: Event, v1: Store, v2: Store)
    requires Represents(view, sp, others, l) && IsLive(l, e.key) && Follows(l, e)
    requires v1 == view[EntryKey(sp.primary, Nothing, e.key, e.rev) := Mark(true)]
    requires v2 == v1[EntryKey(sp.secondary, At(e.doc.timestamp), e.key, e.rev) := Mark(true)]
    ensures IsIndexPrefix(sp.primary) && IsIndexPrefix(sp.secondary)
    ensures AllWellFormed(view.Keys) && AllWellFormed(v1.Keys)
    ensures Accepts(view, sp.primary, Nothing, e.key, true)
    ensures Accepts(v1, sp.secondary, At(e.doc.timestamp), e.key, true)
    ensures Represents(v2, sp, others, l + [e])
  {
    RepresentsWellFormed(view, sp, others, l);
    PrimaryAccepts(view, sp, others, l, e.key, true);
    SecondaryAccepts(view, sp, others, l, e.doc.timestamp, e.key, true);
    PairFollowsKey(l, e.doc.timestamp, e.key);
    hide Image, Cells, EntryKey, DocumentKey, Accepts, WellFormed, Newest, NewestPair, Foreign, Valid;
    WritesWellFormed(view, sp, e);
    SecondaryUndisturbed(view, sp, e, true, v1);
    WritesAreCells(view, sp, e);
    Extended(view, sp, others, l, e);
  }

  // ---------- Writes that succeed ----------

  predicate PutsOk(env: Env, start: nat, end: nat) {
    forall j | start <= j < end :: env.putOk(j)
  }

  lemma ThreePuts(env: Env, n: nat)
    ensures PutsOk(env, n, n + 3) <==> env.putOk(n) && env.putOk(n + 1) && env.putOk(n + 2)
  {
  }

  lemma ContinuesByOne(log: Log, now: nat, e: Event)
    ensures Continues(log, now, log)
    ensures e.rev > now ==> Continues(log, now, log + [e])
    ensures LastRevision(log + [e]) == e.rev
  {
  }

  // ---------- Batches ----------

  /** The stamps a clock at `last` gives to consecutive calls. */
  function Stamps(last: nat, physicals: seq<nat>): (r: seq<nat>)
    ensures |r| == |physicals|
    decreases |physicals|
  {
    if physicals == [] then []
    else
      var s := Clock.Tick(last, physicals[0]);
      [s] + Stamps(s, physicals[1..])
  }

  /** No document of the batch is live, and none is repeated. */
  predicate AllFresh(log: Log, keys: seq<Bytes>) {
    (forall i | 0 <= i < |keys| :: !IsLive(log, keys[i])) &&
    (forall i, j | 0 <= i < j < |keys| :: keys[i] != keys[j])
  }

  function Insertions(keys: seq<Bytes>, values: seq<Document>, revisions: seq<Revision>): (r: Log)
    requires |keys| == |values| == |revisions|
    ensures |r| == |keys|
  {
    if keys == [] then []
    else
      var n := |keys| - 1;
      Insertions(keys[..n], values[..n], revisions[..n]) + [Event(revisions[n], keys[n], false, values[n])]
  }

  lemma InsertionsAppend(keys: seq<Bytes>, values: seq<Document>, revisions: seq<Revision>, k: Bytes, v: Document, r: Revision)
    requires |keys| == |values| == |revisions|
    ensures Insertions(keys + [k], values + [v], revisions + [r]) == Insertions(keys, values, revisions) + [Event(r, k, false, v)]
  {
    var ks, vs, rs := keys + [k], values + [v], revisions + [r];
    assert ks[..|keys|] == keys && vs[..|keys|] == values && rs[..|keys|] == revisions;
  }

  lemma InsertionsUnfold(keys: seq<Bytes>, values: seq<Document>, revisions: seq<Revision>)
    requires |keys| == |values| == |revisions| && keys != []
    ensures Insertions(keys, values, revisions) == Insertions(keys[..|keys| - 1], values[..|keys| - 1], revisions[..|keys| - 1])
                                                   + [Event(revisions[|keys| - 1], keys[|keys| - 1], false, values[|keys| - 1])]
  {
  }

  lemma LiveAfter(log: Log, e: Event, key: Bytes)
    ensures IsLive(log + [e], key) <==> if e.key == key then !e.dead else IsLive(log, key)
  {
    var longer := log + [e];
    assert longer[..|longer| - 1] == log;
  }

  lemma {:induction false} LiveAfterInsertions(log: Log, keys: seq<Bytes>, values: seq<Document>, revisions: seq<Revision>, key: Bytes)
    requires |keys| == |values| == |revisions|
    ensures IsLive(log + Insertions(keys, values, revisions), key) <==> IsLive(log, key) || key in keys
    decreases |keys|
  {
    if keys == [] {
      assert log + Insertions(keys, values, revisions) == log;
    } else {
      hide *;
      var n := |keys| - 1;
      var front, e := Insertions(keys[..n], values[..n], revisions[..n]), Event(revisions[n], keys[n], false, values[n]);
      InsertionsUnfold(keys, values, revisions);
      LiveAfterInsertions(log, keys[..n], values[..n], revisions[..n], key);
      LiveAfter(log + front, e, key);
      assert log + (front + [e]) == log + front + [e];
      assert keys == keys[..n] + [keys[n]];
    }
  }

  lemma {:induction false} StampsAppend(last: nat, physicals: seq<nat>, p: nat)
    ensures Stamps(last, physicals + [p])
         == Stamps(last, physicals) + [Clock.Tick(if physicals == [] then last else Stamps(last, physicals)[|physicals| - 1], p)]
    decreases |physicals|
  {
    if physicals != [] {
      var s := Clock.Tick(last, physicals[0]);
      assert (physicals + [p])[1..] == physicals[1..] + [p];
      StampsAppend(s, physicals[1..], p);
    } else {
      assert [p][1..] == [];
    }
  }

  /** The state of a batch after `i` documents: their events appended, in the transaction only. */
  ghost predicate BatchState(l: Log, now: nat, keys: seq<Bytes>, values: seq<Document>, physicals: seq<nat>, i: nat,
                             revisions: seq<Revision>, current: Log, last: nat)
    requires i <= |keys| == |values| == |physicals|
  {
    |revisions| == i && revisions == Stamps(now, physicals[..i]) &&
    current == l + Insertions(keys[..i], values[..i], revisions) &&
    AllFresh(l, keys[..i]) && Continues(l, now, current) && now <= last &&
    (i > 0 ==> LastRevision(current) <= last) && last == (if i == 0 then now else revisions[i - 1])
  }

  lemma BatchStarts(l: Log, now: nat, keys: seq<Bytes>, values: seq<Document>, physicals: seq<nat>)
    requires |keys| == |values| == |physicals|
    ensures BatchState(l, now, keys, values, physicals, 0, [], l, now)
  {
    assert l + Insertions([], [], []) == l;
  }

  lemma FreshGrows(log: Log, keys: seq<Bytes>, key: Bytes)
    requires AllFresh(log, keys) && !IsLive(log, key) && key !in keys
    ensures AllFresh(log, keys + [key])
  {
    hide IsLive;
  }

  lemma BatchMeans(l: Log, now: nat, keys: seq<Bytes>, values: seq<Document>, physicals: seq<nat>, i: nat,
                   revisions: seq<Revision>, current: Log, last: nat)
    requires i <= |keys| == |values| == |physicals|
    ensures BatchState(l, now, keys, values, physicals, i, revisions, current, last) <==>
            |revisions| == i && revisions == Stamps(now, physicals[..i]) &&
            current == l + Insertions(keys[..i], values[..i], revisions) &&
            AllFresh(l, keys[..i]) && Continues(l, now, current) && now <= last &&
            (i > 0 ==> LastRevision(current) <= last) && last == (if i == 0 then now else revisions[i - 1])
  {
    hide Stamps, Insertions, AllFresh, Continues;
  }

  lemma SliceGrows<T>(s: seq<T>, i: nat)
    requires i < |s|
    ensures s[..i + 1] == s[..i] + [s[i]] && |s[..i]| == i
  {
  }

  lemma WholeSlice<T>(s: seq<T>)
    ensures s[..|s|] == s
  {
  }

  lemma BatchGrows(l: Log, now: nat, keys: seq<Bytes>, values: seq<Document>, physicals: seq<nat>, i: nat,
                   revisions: seq<Revision>, current: Log, last: nat, r: Revision)
    requires i < |keys| == |values| == |physicals| && BatchState(l, now, keys, values, physicals, i, revisions, current, last)
    requires r == Clock.Tick(last, physicals[i]) && r > last && !IsLive(current, keys[i])
    ensures BatchState(l, now, keys, values, physicals, i + 1, revisions + [r], current + [Event(r, keys[i], false, values[i])], r)
  {
    hide *;
    var e := Event(r, keys[i], false, values[i]);
    BatchMeans(l, now, keys, values, physicals, i, revisions, current, last);
    SliceGrows(keys, i);
    SliceGrows(values, i);
    SliceGrows(physicals, i);
    StampsAppend(now, physicals[..i], physicals[i]);
    InsertionsAppend(keys[..i], values[..i], revisions, keys[i], values[i], r);
    LiveAfterInsertions(l, keys[..i], values[..i], revisions, keys[i]);
    FreshGrows(l, keys[..i], keys[i]);
    ContinuesByOne(current, now, e);
    ContinuesTransitive(l, now, current, now, current + [e]);
    var inserted := Insertions(keys[..i], values[..i], revisions);
    assert (l + inserted) + [e] == l + (inserted + [e]);
    BatchMeans(l, now, keys, values, physicals, i + 1, revisions + [r], current + [e], r);
  }

  /** A refused document spoils the batch for good. */
  lemma BatchFails(l: Log, now: nat, keys: seq<Bytes>, values: seq<Document>, physicals: seq<nat>, i: nat,
                   revisions: seq<Revision>, current: Log, last: nat)
    requires i < |keys| == |values| == |physicals| && BatchState(l, now, keys, values, physicals, i, revisions, current, last)
    requires IsLive(current, keys[i])
    ensures !AllFresh(l, keys)
  {
    LiveAfterInsertions(l, keys[..i], values[..i], revisions, keys[i]);
    hide IsLive, Insertions, Stamps;
    if !IsLive(l, keys[i]) {
      var j :| 0 <= j < i && keys[..i][j] == keys[i];
    }
  }

  lemma BatchEnds(l: Log, now: nat, keys: seq<Bytes>, values: seq<Document>, physicals: seq<nat>,
                  revisions: seq<Revision>, current: Log, last: nat)
    requires |keys| == |values| == |physicals| && BatchState(l, now, keys, values, physicals, |keys|, revisions, current, last)
    ensures |revisions| == |keys| && revisions == Stamps(now, physicals)
    ensures current == l + Insertions(keys, values, revisions)
    ensures AllFresh(l, keys) && Continues(l, now, current) && (keys != [] ==> LastRevision(current) <= last)
  {
    hide *;
    BatchMeans(l, now, keys, values, physicals, |keys|, revisions, current, last);
    WholeSlice(keys);
    WholeSlice(values);
    WholeSlice(physicals);
  }

  /** The first `n` documents of the batch go through. */
  ghost predicate PrefixGoes(log: Log, keys: seq<Bytes>, env: Env, n: nat)
    requires n <= |keys|
  {
    AllFresh(log, keys[..n]) && PutsOk(env, 0, 3 * n)
  }

  /** Stamps are drawn up to the first document that is refused, or for all. */
  ghost predicate Attempted(log: Log, keys: seq<Bytes>, env: Env, n: nat) {
    n <= |keys| && (n > 0 ==> PrefixGoes(log, keys, env, n - 1)) && (n < |keys| ==> !PrefixGoes(log, keys, env, n))
  }

  function LastStamp(first: nat, physicals: seq<nat>): nat {
    if physicals == [] then first else Stamps(first, physicals)[|physicals| - 1]
  }

  /** Where the clock stands after a batch. */
  ghost predicate ClockAfter(log: Log, keys: seq<Bytes>, physicals: seq<nat>, env: Env, first: nat, last: nat) {
    exists n: nat :: Attempted(log, keys, env, n) && n <= |physicals| && last == LastStamp(first, physicals[..n])
  }

  lemma StoppedAt(l: Log, now: nat, keys: seq<Bytes>, values: seq<Document>, physicals: seq<nat>, i: nat,
                  revisions: seq<Revision>, current: Log, last: nat, r: Revision, env: Env)
    requires i < |keys| == |values| == |physicals| && BatchState(l, now, keys, values, physicals, i, revisions, current, last)
    requires r == Clock.Tick(last, physicals[i]) && PutsOk(env, 0, 3 * i)
    requires IsLive(current, keys[i]) || !PutsOk(env, 3 * i, 3 * i + 3)
    ensures ClockAfter(l, keys, physicals, env, now, r)
  {
    hide *;
    BatchMeans(l, now, keys, values, physicals, i, revisions, current, last);
    MakePrefix(l, keys, env, i);
    PutsSplit(env, 0, 3 * i, 3 * i + 3);
    SliceGrows(keys, i);
    SliceGrows(physicals, i);
    StampsAppend(now, physicals[..i], physicals[i]);
    if IsLive(current, keys[i]) {
      LiveAfterInsertions(l, keys[..i], values[..i], revisions, keys[i]);
      NotFresh(l, keys, i);
    }
    MakePrefix(l, keys, env, i + 1);
    MakeClockAfter(l, keys, physicals, env, now, r, i + 1);
  }

  lemma NotFresh(l: Log, keys: seq<Bytes>, i: nat)
    requires i < |keys| && (IsLive(l, keys[i]) || keys[i] in keys[..i])
    ensures !AllFresh(l, keys[..i + 1])
  {
    hide IsLive;
    var front := keys[..i + 1];
    assert front[i] == keys[i];
    if !IsLive(l, keys[i]) {
      var j :| 0 <= j < i && keys[..i][j] == keys[i];
      assert front[j] == front[i];
    }
  }

  lemma MakePrefix(log: Log, keys: seq<Bytes>, env: Env, n: nat)
    requires n <= |keys|
    ensures PrefixGoes(log, keys, env, n) <==> AllFresh(log, keys[..n]) && PutsOk(env, 0, 3 * n)
  {
    hide AllFresh, PutsOk;
  }

  lemma MakeClockAfter(log: Log, keys: seq<Bytes>, physicals: seq<nat>, env: Env, first: nat, last: nat, n: nat)
    requires n <= |keys| == |physicals| && (n > 0 ==> PrefixGoes(log, keys, env, n - 1))
    requires n < |keys| ==> !PrefixGoes(log, keys, env, n)
    requires last == if n == 0 then first else Stamps(first, physicals[..n])[n - 1]
    ensures ClockAfter(log, keys, physicals, env, first, last)
  {
    hide PrefixGoes, Stamps;
    assert Attempted(log, keys, env, n) && last == LastStamp(first, physicals[..n]);
  }

  /** All documents went through. */
  lemma NeverStopped(l: Log, now: nat, keys: seq<Bytes>, values: seq<Document>, physicals: seq<nat>,
                     revisions: seq<Revision>, current: Log, last: nat, env: Env)
    requires |keys| == |values| == |physicals| && BatchState(l, now, keys, values, physicals, |keys|, revisions, current, last)
    requires PutsOk(env, 0, 3 * |keys|)
    ensures ClockAfter(l, keys, physicals, env, now, last)
  {
    hide *;
    var n := |keys|;
    BatchMeans(l, now, keys, values, physicals, n, revisions, current, last);
    if n > 0 {
      FreshFront(l, keys[..n], n - 1);
      PutsSplit(env, 0, 3 * (n - 1), 3 * n);
      assert keys[..n][..n - 1] == keys[..n - 1];
      MakePrefix(l, keys, env, n - 1);
    }
    MakeClockAfter(l, keys, physicals, env, now, last, n);
  }

  lemma FreshFront(l: Log, keys: seq<Bytes>, n: nat)
    requires AllFresh(l, keys) && n <= |keys|
    ensures AllFresh(l, keys[..n])
  {
    hide IsLive;
  }

  lemma NoPuts(env: Env)
    ensures PutsOk(env, 0, 0)
  {
  }

  lemma PutsSplit(env: Env, a: nat, b: nat, c: nat)
    requires a <= b <= c
    ensures PutsOk(env, a, c) <==> PutsOk(env, a, b) && PutsOk(env, b, c)
  {
  }

  // ---------- Documents by revision ----------

  /** The document inserted at a revision. */
  ghost function Inserted(log: Log, r: Revision): Option<Document> {
    if exists e :: e in log && e.rev == r && !e.dead then
      var e :| e in log && e.rev == r && !e.dead; Some(e.doc)
    else None
  }

  ghost function DocumentsOf(log: Log, rs: seq<Revision>): (ds: seq<Option<Document>>)
    ensures |ds| == |rs| && forall i | 0 <= i < |rs| :: ds[i] == Inserted(log, rs[i])
  {
    if rs == [] then [] else [Inserted(log, rs[0])] + DocumentsOf(log, rs[1..])
  }

  lemma InsertedIs(log: Log, e: Event)
    requires Valid(log) && e in log && !e.dead
    ensures Inserted(log, e.rev) == Some(e.doc)
  {
    hide Valid;
    var f :| f in log && f.rev == e.rev && !f.dead && Inserted(log, e.rev) == Some(f.doc);
    RevisionsUnique(log, e, f);
  }

  lemma DocumentLookup(view: Store, sp: Spaces, others: Store, log: Log, r: Revision)
    requires Represents(view, sp, others, log)
    ensures var k := DocumentKey(sp.documents, r);
            Inserted(log, r) == if k in view && view[k].Packed? then Some(view[k].document) else None
  {
    DocumentCells(view, sp, others, log, r);
    hide DocumentKey, Image;
    if e :| e in log && e.rev == r && !e.dead {
      InsertedIs(log, e);
    }
  }

  lemma {:induction false} DocumentsOfAppend(log: Log, rs: seq<Revision>, r: Revision)
    ensures DocumentsOf(log, rs + [r]) == DocumentsOf(log, rs) + [Inserted(log, r)]
    decreases |rs|
  {
    hide Inserted;
    if rs == [] {
      assert [r][1..] == [];
    } else {
      assert (rs + [r])[1..] == rs[1..] + [r];
      DocumentsOfAppend(log, rs[1..], r);
    }
  }

  /** Each revision is that of a document some key holds as of `max`, and that document
      has a timestamp in `[start, next)`. */
  ghost predicate AllLive(log: Log, rs: seq<Revision>, start: Time, next: Time, max: Revision) {
    forall r | r in rs :: LiveForSome(log, r, start, next, max)
  }

  ghost predicate LiveForSome(log: Log, r: Revision, start: Time, next: Time, max: Revision) {
    exists key :: LiveAt(log, r, key, start, next, max)
  }

  ghost predicate LiveAt(log: Log, r: Revision, key: Bytes, start: Time, next: Time, max: Revision) {
    Inserted(log, r).Some? && Inserted(log, r) == DocumentAsOf(log, key, max) && start <= Inserted(log, r).value.timestamp < next
  }

  lemma SoundReadIsLive(view: Store, sp: Spaces, others: Store, log: Log, start: Time, next: Time, max: Revision, es: seq<Entry>)
    requires Represents(view, sp, others, log) && es == SI.Entries(view, sp.secondary, start, next) && Sound(es, max)
    ensures AllLive(log, Reported(es, max), start, next, max)
  {
    hide *;
    RepresentsFacts(view, sp, others, log);
    EntriesAreListed(view, sp, others, log, start, next);
    var rs := Reported(es, max);
    forall r | r in rs ensures LiveForSome(log, r, start, next, max) {
      var e := SoundMember(es, sp, log, start, next, max, r);
      SnapshotIff(es, sp, log, start, next, max, e);
      NewestIsRead(log, e, start, next, max);
    }
    MakeAllLive(log, rs, start, next, max);
  }

  lemma MakeAllLive(log: Log, rs: seq<Revision>, start: Time, next: Time, max: Revision)
    requires forall r | r in rs :: LiveForSome(log, r, start, next, max)
    ensures AllLive(log, rs, start, next, max)
  {
    hide LiveForSome;
  }

  lemma SoundMember(es: seq<Entry>, sp: Spaces, log: Log, start: Time, next: Time, max: Revision, r: Revision) returns (e: Event)
    requires Listed(es, sp, log, start, next) && Sound(es, max) && r in Reported(es, max)
    ensures e in log && e.rev == r && r in Snapshot(es, max)
  {
    PickMembers(es, Emitted(es, max), 0, r);
    hide Listed, Pick, Emits;
    var i :| 0 <= i < |es| && es[i].rev == r;
    e := EventOf(es, sp, log, start, next, i);
  }

  lemma NewestIsRead(log: Log, e: Event, start: Time, next: Time, max: Revision)
    requires Valid(log) && e in log && start <= e.doc.timestamp < next
    requires DocumentAsOf(log, e.key, max).Some? && Newest(UpTo(log, max), e.key) == Some(e)
    ensures LiveForSome(log, e.rev, start, next, max)
  {
    hide Valid, UpTo, Newest, Inserted;
    InsertedIs(log, e);
    assert LiveAt(log, e.rev, e.key, start, next, max);
  }

  function AsDocument(c: Cell): (d: Option<Document>)
    ensures c.Packed? ==> d == Some(c.document)
    ensures c.Raw? ==> d == None
  {
    if c.Packed? then Some(c.document) else None
  }

  /** What the two lookups of a read find. */
  lemma SingleRead(view: Store, sp: Spaces, others: Store, log: Log, key: Bytes, max: Revision)
    requires Represents(view, sp, others, log)
    ensures IsIndexPrefix(sp.primary) && AllWellFormed(view.Keys)
    ensures var r := LiveAtMost(view, sp.primary, Nothing, key, max);
            (r.Some? <==> DocumentAsOf(log, key, max).Some?) &&
            (r.Some? ==> r.value != 0 && DocumentKey(sp.documents, r.value) in view) &&
            (r.Some? ==> DocumentAsOf(log, key, max) == AsDocument(view[DocumentKey(sp.documents, r.value)]))
  {
    RepresentsWellFormed(view, sp, others, log);
    PrimaryNewest(view, sp, others, log, key, max);
    UpToKeeps(log, max);
    NewestIsLast(UpTo(log, max), key);
    RevisionsBounded(log);
    hide Image, UpTo, Newest, Valid, LiveAtMost, DocumentKey, WellFormed;
    if IsLive(UpTo(log, max), key) {
      DocumentCells(view, sp, others, log, Newest(UpTo(log, max), key).value.rev);
    }
  }

  /** The same, for a revision past the log. */
  lemma LiveRead(view: Store, sp: Spaces, others: Store, log: Log, key: Bytes, max: Revision)
    requires Represents(view, sp, others, log) && LastRevision(log) < max
    ensures IsIndexPrefix(sp.primary) && AllWellFormed(view.Keys)
    ensures var r := LiveAtMost(view, sp.primary, Nothing, key, max);
            (r.Some? <==> IsLive(log, key)) &&
            (r.Some? ==> r.value != 0 && DocumentKey(sp.documents, r.value) in view && Newest(log, key).Some?) &&
            (r.Some? ==> AsDocument(view[DocumentKey(sp.documents, r.value)]) == Some(Newest(log, key).value.doc)) &&
            (r.Some? ==> Follows(log, Event(max, key, true, Newest(log, key).value.doc)))
  {
    UpToAll(log, max);
    SingleRead(view, sp, others, log, key, max);
    hide Image, UpTo, Newest, Valid, LiveAtMost, DocumentKey, WellFormed, Foreign;
  }

  lemma TwoPuts(env: Env, n: nat)
    ensures PutsOk(env, n, n + 2) <==> env.putOk(n) && env.putOk(n + 1)
  {
  }

  lemma NewSpaces(documentSlug: Slug, primarySlug: Slug, secondarySlug: Slug)
    requires primarySlug != secondarySlug
    ensures ValidSpaces(Spaces(IndexPrefix(primarySlug), IndexPrefix(secondarySlug), DocumentPrefix(documentSlug)))
  {
    PrefixesInjective(primarySlug, secondarySlug);
  }

  /** A store without entries under three fresh slugs holds the empty log. */
  lemma FreshStore(contents: Store, documentSlug: Slug, primarySlug: Slug, secondarySlug: Slug)
    requires primarySlug != secondarySlug
    requires Foreign(Spaces(IndexPrefix(primarySlug), IndexPrefix(secondarySlug), DocumentPrefix(documentSlug)), contents)
    ensures Represents(contents, Spaces(IndexPrefix(primarySlug), IndexPrefix(secondarySlug), DocumentPrefix(documentSlug)), contents, [])
  {
    NewSpaces(documentSlug, primarySlug, secondarySlug);
    hide Foreign, ValidSpaces;
    assert contents + map[] == contents;
  }

  lemma EmptyLog()
    ensures LastRevision([]) == 0
  {
  }

  class Database {
    const db: TransactionDB
    const clock: Clock.HybridLogicalClock
    const storageEngine: SE.StorageEngine
    const primaryIndex: PI.PrimaryIndex
    const secondaryIndex: SI.SecondaryIndex

    ghost const others: Store
    ghost var log: Log

    ghost function Prefixes(): (sp: Spaces)
      ensures sp == Spaces(primaryIndex.prefix, secondaryIndex.prefix, storageEngine.prefix)
    {
      Spaces(primaryIndex.prefix, secondaryIndex.prefix, storageEngine.prefix)
    }

    /** The committed store is the image of the log. */
    ghost predicate Represented()
      reads this, db
    {
      Represents(db.committed, Prefixes(), others, log)
    }

    /** The next stamp will be newer than the log. */
    ghost predicate Ahead(physical: nat)
      reads this, clock
    {
      clock.lastTimeStamp < 0xFFFF_FFFF_FFFF_FFFF && physical < 0x1000_0000_0000 &&
      Clock.Tick(clock.lastTimeStamp, physical) > LastRevision(log)
    }

    /** Besides, the clock is past the log: so after every operation. */
    ghost predicate Consistent()
      reads this, db, clock
    {
      Represented() && LastRevision(log) <= clock.lastTimeStamp
    }

    lemma RepresentedMeans()
      requires Represented()
      ensures Represents(db.committed, Prefixes(), others, log)
    {
    }

    lemma StaysRepresented()
      requires Represents(db.committed, Prefixes(), others, log)
      ensures Represented()
    {
    }

    lemma AheadMeans(physical: nat)
      requires Ahead(physical)
      ensures clock.lastTimeStamp < 0xFFFF_FFFF_FFFF_FFFF && physical < 0x1000_0000_0000
      ensures Clock.Tick(clock.lastTimeStamp, physical) > LastRevision(log)
    {
    }

    lemma StaysConsistent()
      requires Represents(db.committed, Prefixes(), others, log) && LastRevision(log) <= clock.lastTimeStamp
      ensures Consistent()
    {
    }

    lemma ConsistentIsRepresented()
      requires Consistent()
      ensures Represented()
    {
    }

    lemma ConsistentIff()
      requires Represents(db.committed, Prefixes(), others, log)
      ensures Represented()
      ensures Consistent() <==> LastRevision(log) <= clock.lastTimeStamp
    {
    }

    /** So a database that has drawn a stamp may go on with any reading of the physical clock. */
    lemma ConsistentIsAhead(physical: nat)
      requires Consistent() && clock.lastTimeStamp < 0xFFFF_FFFF_FFFF_FFFF && physical < 0x1000_0000_0000
      ensures Ahead(physical)
    {
      Clock.TickValue(clock.lastTimeStamp, physical);
      hide Represents, Clock.Tick;
    }

    /** A database opened on a store that holds a log under its three slugs; the log is
        empty when the slugs are fresh. The clock starts over, so it may be behind. */
    constructor (contents: Store, documentSlug: Slug, primarySlug: Slug, secondarySlug: Slug, ghost others: Store, ghost log: Log)
      requires Represents(contents, Spaces(IndexPrefix(primarySlug), IndexPrefix(secondarySlug), DocumentPrefix(documentSlug)), others, log)
      ensures Represented() && fresh(db) && fresh(clock) && db.committed == contents && clock.lastTimeStamp == 0
      ensures this.log == log && this.others == others
      ensures Prefixes() == Spaces(IndexPrefix(primarySlug), IndexPrefix(secondarySlug), DocumentPrefix(documentSlug))
      ensures log == [] ==> Consistent()
    {
      db := new TransactionDB(contents);
      clock := new Clock.HybridLogicalClock();
      storageEngine := new SE.StorageEngine(documentSlug);
      primaryIndex := new PI.PrimaryIndex(primarySlug);
      secondaryIndex := new SI.SecondaryIndex(secondarySlug);
      this.others := others;
      this.log := log;
      new;
      hide *;
      StaysRepresented();
      if log == [] {
        EmptyLog();
        StaysConsistent();
      }
    }

    /** A stamp for readers; the clock is past the log from then on. */
    method Now(physical: nat) returns (stamp: Revision)
      requires Represented() && Ahead(physical)
      modifies clock
      ensures Consistent() && stamp == clock.lastTimeStamp == Clock.Tick(old(clock.lastTimeStamp), physical)
      ensures stamp > old(clock.lastTimeStamp) && stamp > LastRevision(log)
    {
      hide *;
      RepresentedMeans();
      AheadMeans(physical);
      Clock.NoWords(clock.lastTimeStamp);
      stamp := clock.GetTimeStamp([physical], []);
      StaysConsistent();
    }

    /** Three writes, or a refusal: primary entry, document, secondary entry. */
    method InsertInternal(tx: Transaction, revision: Revision, key: Bytes, value: Document, ghost l: Log) returns (ok: bool)
      requires Represents(tx.View(), Prefixes(), others, l) && revision > LastRevision(l)
      modifies tx
      ensures ok == (!IsLive(l, key) && PutsOk(tx.env, old(tx.puts), old(tx.puts) + 3))
      ensures ok ==> Represents(tx.View(), Prefixes(), others, l + [Event(revision, key, false, value)])
      ensures ok ==> tx.puts == old(tx.puts) + 3
    {
      hide *;
      ghost var e, sp, view := Event(revision, key, false, value), Prefixes(), tx.View();
      ThreePuts(tx.env, tx.puts);
      ghost var v1 := view[EntryKey(sp.primary, Nothing, key, revision) := Mark(false)];
      ghost var v2 := v1[DocumentKey(sp.documents, revision) := Packed(value)];
      ghost var v3 := v2[EntryKey(sp.secondary, At(value.timestamp), key, revision) := Mark(false)];
      InsertionSteps(view, sp, others, l, e, v1, v2, v3);
      ok := primaryIndex.Insert(tx, key, revision, false);
      if !ok {
        return false;
      }
      ok := storageEngine.Insert(tx, revision, value);
      if !ok {
        return false;
      }
      ok := secondaryIndex.Insert(tx, key, revision, value.timestamp, false);
      if !ok {
        return false;
      }
      return true;
    }

    /** Returns the revision, or 0 if the key is live or a write or the commit fails; the
        log grows by the insertion exactly when a revision is returned. */
    method Insert(key: Bytes, value: Document, physical: nat, env: Env) returns (revision: Revision)
      requires Represented() && Ahead(physical)
      modifies this, db, clock
      ensures Consistent() && clock.lastTimeStamp == Clock.Tick(old(clock.lastTimeStamp), physical) > old(clock.lastTimeStamp)
      ensures revision != 0 <==> !IsLive(old(log), key) && PutsOk(env, 0, 3) && env.commitOk
      ensures revision != 0 ==> revision == clock.lastTimeStamp && log == old(log) + [Event(revision, key, false, value)]
      ensures revision == 0 ==> log == old(log) && db.committed == old(db.committed)
      ensures Continues(old(log), old(clock.lastTimeStamp), log)
    {
      hide *;
      RepresentedMeans();
      AheadMeans(physical);
      Clock.NoWords(clock.lastTimeStamp);
      ghost var l, now := log, clock.lastTimeStamp;
      var stamp: Revision := clock.GetTimeStamp([physical], []);
      var tx := new Transaction(db, env);
      ghost var e := Event(stamp, key, false, value);
      ContinuesByOne(l, now, e);
      var ok := InsertInternal(tx, stamp, key, value, l);
      if !ok {
        tx.Rollback();
        StaysConsistent();
        return 0;
      }
      ok := tx.Commit();
      if !ok {
        tx.Rollback();
        StaysConsistent();
        return 0;
      }
      log := l + [e];
      StaysConsistent();
      return stamp;
    }

    /** All documents or none: applied iff no key is live, none is repeated in the batch,
        and every write and the commit succeed. */
    method InsertBatch(keys: seq<Bytes>, values: seq<Document>, physicals: seq<nat>, env: Env) returns (revisions: seq<Revision>)
      requires Represented() && |physicals| == |keys| && clock.lastTimeStamp + |keys| < 0x1_0000_0000_0000_0000
      requires keys != [] ==> Ahead(physicals[0])
      requires forall i | 0 <= i < |physicals| :: physicals[i] * 0x10_0000 + |keys| < 0x1_0000_0000_0000_0000
      modifies this, db, clock
      ensures Represented() && clock.lastTimeStamp >= old(clock.lastTimeStamp)
      ensures |keys| == |values| ==> ClockAfter(old(log), keys, physicals, env, old(clock.lastTimeStamp), clock.lastTimeStamp)
      ensures |keys| != |values| ==> clock.lastTimeStamp == old(clock.lastTimeStamp)
      ensures old(Consistent()) || (keys != [] && |keys| == |values|) ==> Consistent()
      ensures var applied := |keys| == |values| && AllFresh(old(log), keys) && PutsOk(env, 0, 3 * |keys|) && env.commitOk;
              (applied ==> revisions == Stamps(old(clock.lastTimeStamp), physicals)) &&
              (applied ==> log == old(log) + Insertions(keys, values, revisions)) &&
              (!applied ==> revisions == [] && log == old(log) && db.committed == old(db.committed))
      ensures Continues(old(log), old(clock.lastTimeStamp), log)
    {
      hide *;
      revisions := [];
      RepresentedMeans();
      ConsistentIff();
      ghost var l, now := log, clock.lastTimeStamp;
      ContinuesByOne(l, now, Event(0, [], false, Document([], 0, [], 0)));
      if keys != [] {
        AheadMeans(physicals[0]);
      }
      if |keys| != |values| {
        return [];
      }
      var ok := true;
      var tx := new Transaction(db, env);
      ghost var current := l;
      BatchStarts(l, now, keys, values, physicals);
      NoPuts(env);
      var i := 0;
      while i < |keys|
        invariant 0 <= i <= |keys| && tx.puts == 3 * i && PutsOk(env, 0, 3 * i)
        invariant log == l && db.committed == old(db.committed)
        invariant clock.lastTimeStamp + (|keys| - i) < 0x1_0000_0000_0000_0000
        invariant BatchState(l, now, keys, values, physicals, i, revisions, current, clock.lastTimeStamp)
        invariant Represents(tx.View(), Prefixes(), others, current)
        invariant i == 0 ==> current == l && clock.lastTimeStamp == now
        invariant i > 0 ==> LastRevision(current) <= clock.lastTimeStamp && LastRevision(l) <= clock.lastTimeStamp
        invariant now <= clock.lastTimeStamp
      {
        ghost var last := clock.lastTimeStamp;
        Clock.NoWords(last);
        var r: Revision := clock.GetTimeStamp([physicals[i]], []);
        ghost var live := IsLive(current, keys[i]);
        if live || !PutsOk(env, 3 * i, 3 * i + 3) {
          StoppedAt(l, now, keys, values, physicals, i, revisions, current, last, r, env);
        }
        if live {
          BatchFails(l, now, keys, values, physicals, i, revisions, current, last);
        } else {
          BatchGrows(l, now, keys, values, physicals, i, revisions, current, last, r);
        }
        PutsSplit(env, 0, 3 * i, 3 * i + 3);
        PutsSplit(env, 0, 3 * i + 3, 3 * |keys|);
        ContinuesByOne(current, last, Event(r, keys[i], false, values[i]));
        revisions := revisions + [r];
        ok := InsertInternal(tx, r, keys[i], values[i], current);
        if !ok {
          break;
        }
        current := current + [Event(r, keys[i], false, values[i])];
        i := i + 1;
      }
      if !ok {
        tx.Rollback();
        ConsistentIff();
        return [];
      }
      NeverStopped(l, now, keys, values, physicals, revisions, current, clock.lastTimeStamp, env);
      BatchEnds(l, now, keys, values, physicals, revisions, current, clock.lastTimeStamp);
      ok := tx.Commit();
      if !ok {
        tx.Rollback();
        ConsistentIff();
        return [];
      }
      log := current;
      ConsistentIff();
    }

    /** The two tombstones of a deletion, or a refusal: primary entry, secondary entry. */
    method RemoveInternal(tx: Transaction, revision: Revision, key: Bytes, value: Document, ghost l: Log) returns (ok: bool)
      requires Represents(tx.View(), Prefixes(), others, l) && IsLive(l, key)
      requires Follows(l, Event(revision, key, true, value))
      modifies tx
      ensures ok == PutsOk(tx.env, old(tx.puts), old(tx.puts) + 2)
      ensures ok ==> Represents(tx.View(), Prefixes(), others, l + [Event(revision, key, true, value)])
    {
      hide *;
      ghost var e, sp, view := Event(revision, key, true, value), Prefixes(), tx.View();
      TwoPuts(tx.env, tx.puts);
      ghost var v1 := view[EntryKey(sp.primary, Nothing, key, revision) := Mark(true)];
      ghost var v2 := v1[EntryKey(sp.secondary, At(value.timestamp), key, revision) := Mark(true)];
      DeletionSteps(view, sp, others, l, e, v1, v2);
      ok := primaryIndex.Insert(tx, key, revision, true);
      if !ok {
        return false;
      }
      ok := secondaryIndex.Insert(tx, key, revision, value.timestamp, true);
    }

    /** Returns whether a live document was found and both tombstones were written; the
        outcome of the commit does not show in the answer, only in the log. */
    method Remove(key: Bytes, physical: nat, env: Env) returns (ok: bool)
      requires Represented() && Ahead(physical)
      modifies this, db, clock
      ensures Consistent() && clock.lastTimeStamp == Clock.Tick(old(clock.lastTimeStamp), physical) > old(clock.lastTimeStamp)
      ensures ok <==> IsLive(old(log), key) && PutsOk(env, 0, 2)
      ensures ok && env.commitOk ==>
                log == old(log) + [Event(clock.lastTimeStamp, key, true, Newest(old(log), key).value.doc)]
      ensures !(ok && env.commitOk) ==> log == old(log) && db.committed == old(db.committed)
      ensures Continues(old(log), old(clock.lastTimeStamp), log)
    {
      hide *;
      RepresentedMeans();
      AheadMeans(physical);
      Clock.NoWords(clock.lastTimeStamp);
      ghost var l, now := log, clock.lastTimeStamp;
      var revision: Revision := clock.GetTimeStamp([physical], []);
      var tx := new Transaction(db, env);
      LiveRead(db.committed, Prefixes(), others, l, key, revision);
      ContinuesByOne(l, now, Event(revision, key, true, Document([], 0, [], 0)));
      var existingRevision := primaryIndex.Lookup(tx, key, revision);
      ok := false;
      if existingRevision != 0 {
        var value := storageEngine.Lookup(tx, existingRevision);
        ghost var e := Event(revision, key, true, value.value);
        ContinuesByOne(l, now, e);
        ok := RemoveInternal(tx, revision, key, value.value, l);
        if !ok {
          tx.Rollback();
        } else {
          var committed := tx.Commit();
          if !committed {
            tx.Rollback();
          } else {
            log := l + [e];
          }
        }
      }
      StaysConsistent();
    }

    /** The document as of a revision, by replaying the log. */
    method LookupSingle(key: Bytes, maxRevision: Revision, env: Env) returns (document: Option<Document>)
      requires Represented()
      ensures document == DocumentAsOf(log, key, maxRevision)
    {
      hide *;
      RepresentedMeans();
      var tx := new Transaction(db, env);
      SingleRead(db.committed, Prefixes(), others, log, key, maxRevision);
      var r := primaryIndex.Lookup(tx, key, maxRevision);
      if r == 0 {
        return None;
      }
      document := storageEngine.Lookup(tx, r);
    }

    /** The entries of a timestamp range in the committed store. */
    ghost function RangeEntries(start: Time, end: Time): (es: seq<Entry>)
      requires end < 0x7FFF_FFFF_FFFF_FFFF
      reads this, db
      ensures es == SI.Entries(db.committed, Prefixes().secondary, start, end + 1)
    {
      SI.Entries(db.committed, secondaryIndex.prefix, start, end + 1)
    }

    lemma RangeRead(start: Time, next: Time, max: Revision, es: seq<Entry>)
      requires Represented() && es == SI.Entries(db.committed, secondaryIndex.prefix, start, next)
      ensures SI.Indexable(db.committed, secondaryIndex.prefix)
      ensures Reported(es, max) == Snapshot(es, max) <==> EndedAreCovered(es, max) && CoveredHaveEnded(es, max)
      ensures KeysAboveRevisions(log) ==> Sound(es, max)
      ensures KeysAboveRevisions(log) && TimesMonotone(log) && NoLateDeletion(log, start, next, max)
          ==> Reported(es, max) == Snapshot(es, max)
      ensures Sound(es, max) ==> AllLive(log, Reported(es, max), start, next, max)
    {
      hide *;
      RepresentedMeans();
      RepresentsIndexable(db.committed, Prefixes(), others, log);
      RangeReadIsExactIff(db.committed, Prefixes(), others, log, start, next, max, es);
      if KeysAboveRevisions(log) {
        RangeReadIsSnapshot(db.committed, Prefixes(), others, log, start, next, max, es);
      }
      if Sound(es, max) {
        SoundReadIsLive(db.committed, Prefixes(), others, log, start, next, max, es);
      }
    }

    /** The documents at the reported revisions. They are those of the snapshot iff the
        insertions that have ended are exactly the covered ones. While keys keep clear of
        revisions each is what its key holds at `maxRevision`, with a timestamp in
        `[start, end]`, and under the conditions of exactness none is missing. */
    method LookupRange(start: Time, end: Time, maxRevision: Revision, env: Env) returns (documents: seq<Option<Document>>)
      requires Represented() && end < 0x7FFF_FFFF_FFFF_FFFF
      ensures documents == DocumentsOf(log, Reported(RangeEntries(start, end), maxRevision))
      ensures Reported(RangeEntries(start, end), maxRevision) == Snapshot(RangeEntries(start, end), maxRevision)
         <==> EndedAreCovered(RangeEntries(start, end), maxRevision) && CoveredHaveEnded(RangeEntries(start, end), maxRevision)
      ensures KeysAboveRevisions(log) ==> Sound(RangeEntries(start, end), maxRevision)
      ensures KeysAboveRevisions(log) ==> AllLive(log, Reported(RangeEntries(start, end), maxRevision), start, end + 1, maxRevision)
      ensures KeysAboveRevisions(log) && TimesMonotone(log) && NoLateDeletion(log, start, end + 1, maxRevision)
          ==> documents == DocumentsOf(log, Snapshot(RangeEntries(start, end), maxRevision))
    {
      hide *;
      documents := [];
      RepresentedMeans();
      var tx := new Transaction(db, env);
      RangeRead(start, end + 1, maxRevision, RangeEntries(start, end));
      var revisions := secondaryIndex.Lookup(tx, start, end, maxRevision);
      for i := 0 to |revisions|
        invariant documents == DocumentsOf(log, revisions[..i]) && tx.View() == db.committed
      {
        DocumentLookup(db.committed, Prefixes(), others, log, revisions[i]);
        DocumentsOfAppend(log, revisions[..i], revisions[i]);
        assert revisions[..i + 1] == revisions[..i] + [revisions[i]];
        var document := storageEngine.Lookup(tx, revisions[i]);
        documents := documents + [document];
      }
      assert revisions[..|revisions|] == revisions;
    }
  }
}
