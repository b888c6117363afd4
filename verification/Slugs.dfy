/** `RocksDBInstance`: compact identifiers for collections and indexes. */
module Slugs {
  import opened ByteStrings
  import opened Comparator
  import opened Keys
  import opened RocksDB

  // ---------- Names ----------

  function DocumentName(databaseId: Revision, collectionId: Revision): Bytes {
    [TypeSlug] + IntToString(databaseId) + IntToString(collectionId)
  }

  function IndexName(databaseId: Revision, collectionId: Revision, indexId: Revision): Bytes {
    [TypeSlug] + IntToString(databaseId) + IntToString(collectionId) + IntToString(indexId)
  }

  /** Names of collections and of indexes are injective and never collide. */
  lemma NamesInjective(d: Revision, c: Revision, i: Revision, d': Revision, c': Revision, i': Revision)
    ensures DocumentName(d, c) == DocumentName(d', c') <==> d == d' && c == c'
    ensures IndexName(d, c, i) == IndexName(d', c', i') <==> d == d' && c == c' && i == i'
    ensures DocumentName(d, c) != IndexName(d', c', i')
  {
    DocumentNames(d, c, d', c');
    IndexNames(d, c, i, d', c', i');
    NameLengths(d, c, d', c', i');
    hide *;
  }

  /** Names sort by database, then collection, then index, and the name of a collection is
      a prefix of those of its indexes. */
  lemma NamesInOrder(d: Revision, c: Revision, i: Revision, d': Revision, c': Revision, i': Revision)
    ensures Lex(DocumentName(d, c), DocumentName(d', c')) == if d != d' then Sign(d - d') else Sign(c - c')
    ensures Lex(IndexName(d, c, i), IndexName(d', c', i'))
         == if d != d' then Sign(d - d') else if c != c' then Sign(c - c') else Sign(i - i')
    ensures DocumentName(d, c) <= IndexName(d, c, i)
  {
    IntStrings(d, d');
    IntStrings(c, c');
    IntStrings(i, i');
    LexZero([], []);
    hide *;
    NameParts(d, c, i);
    NameParts(d', c', i');
    PartsInOrder([TypeSlug], IntToString(d), IntToString(c), [], IntToString(d'), IntToString(c'), []);
    PartsInOrder([TypeSlug], IntToString(d), IntToString(c), IntToString(i), IntToString(d'), IntToString(c'), IntToString(i'));
  }

  lemma NameParts(d: Revision, c: Revision, i: Revision)
    ensures DocumentName(d, c) == [TypeSlug] + IntToString(d) + IntToString(c) + []
    ensures IndexName(d, c, i) == [TypeSlug] + IntToString(d) + IntToString(c) + IntToString(i)
    ensures DocumentName(d, c) <= IndexName(d, c, i)
  {
    hide IntToString;
  }

  lemma PartsInOrder(p: seq<int>, a: seq<int>, b: seq<int>, e: seq<int>, a': seq<int>, b': seq<int>, e': seq<int>)
    requires |a| == |a'| && |b| == |b'|
    ensures Lex(p + a + b + e, p + a' + b' + e')
         == if a != a' then Lex(a, a') else if b != b' then Lex(b, b') else Lex(e, e')
  {
    hide Lex;
    Regroup(p, a, b, e);
    Regroup(p, a', b', e');
    LexCommonPrefix(p, a + (b + e), a' + (b' + e'));
    LexHeads(a, a', b + e, b' + e');
    LexHeads(b, b', e, e');
  }

  lemma Regroup(p: seq<int>, a: seq<int>, b: seq<int>, e: seq<int>)
    ensures p + a + b + e == p + (a + (b + e))
  {
  }

  lemma NameLengths(d: Revision, c: Revision, d': Revision, c': Revision, i': Revision)
    ensures |DocumentName(d, c)| == 17 && |IndexName(d', c', i')| == 25
  {
  }

  lemma DocumentNames(d: Revision, c: Revision, d': Revision, c': Revision)
    ensures DocumentName(d, c) == DocumentName(d', c') <==> d == d' && c == c'
  {
    IntStrings(d, d');
    IntStrings(c, c');
    hide IntToString;
    TwoParts(IntToString(d), IntToString(c), IntToString(d'), IntToString(c'));
  }

  lemma IndexNames(d: Revision, c: Revision, i: Revision, d': Revision, c': Revision, i': Revision)
    ensures IndexName(d, c, i) == IndexName(d', c', i') <==> d == d' && c == c' && i == i'
  {
    IntStrings(d, d');
    IntStrings(c, c');
    IntStrings(i, i');
    hide IntToString;
    ThreeParts8(IntToString(d), IntToString(c), IntToString(i), IntToString(d'), IntToString(c'), IntToString(i'));
  }

  lemma TwoParts(a: Bytes, b: Bytes, a': Bytes, b': Bytes)
    requires |a| == |b| == |a'| == |b'| == 8
    ensures [TypeSlug] + a + b == [TypeSlug] + a' + b' <==> a == a' && b == b'
  {
    var x, y := [TypeSlug] + a + b, [TypeSlug] + a' + b';
    assert x[1..9] == a && x[9..] == b && y[1..9] == a' && y[9..] == b';
  }

  lemma ThreeParts8(a: Bytes, b: Bytes, c: Bytes, a': Bytes, b': Bytes, c': Bytes)
    requires |a| == |b| == |c| == |a'| == |b'| == |c'| == 8
    ensures [TypeSlug] + a + b + c == [TypeSlug] + a' + b' + c' <==> a == a' && b == b' && c == c'
  {
    var x, y := [TypeSlug] + a + b + c, [TypeSlug] + a' + b' + c';
    assert x[1..9] == a && x[9..17] == b && x[17..] == c;
    assert y[1..9] == a' && y[9..17] == b' && y[17..] == c';
  }

  // ---------- Stored slugs ----------

  predicate IsName(k: Bytes) { k != [] && k[0] == TypeSlug }

  /** Slug entries hold four bytes. */
  ghost predicate SlugStore(s: Store) {
    AllWellFormed(s.Keys) && forall k | k in s && IsName(k) :: s[k].Raw? && |s[k].bytes| == 4
  }

  function SlugOf(c: Cell): (n: nat)
    requires c.Raw? && |c.bytes| == 4
    ensures n < 0x1_0000_0000
  {
    PowersOf256();
    StringToShort(c.bytes)
  }

  ghost predicate Bounded(s: Store, max: nat)
    requires SlugStore(s)
  {
    forall k | k in s && IsName(k) :: SlugOf(s[k]) <= max
  }

  /** No two names share a stored slug. */
  ghost predicate Distinct(s: Store)
    requires SlugStore(s)
  {
    forall j, k | j in s && k in s && IsName(j) && IsName(k) && j != k :: SlugOf(s[j]) != SlugOf(s[k])
  }

  lemma GrantKeeps(s: Store, max: nat, name: Bytes, slug: Slug, s': Store)
    requires SlugStore(s) && Bounded(s, max) && Distinct(s) && IsName(name) && name !in s && slug > max
    requires s' == s[name := Raw(ShortToString(slug))]
    ensures SlugStore(s') && Bounded(s', slug) && Distinct(s') && SlugOf(s'[name]) == slug
    ensures forall k | k in s && IsName(k) :: SlugOf(s[k]) < slug
  {
    ShortStrings(slug, slug);
    hide ShortToString, StringToShort;
  }

  // ---------- Looking a slug up again ----------

  /** The four stored bytes read as a little-endian word, without the swap. */
  function ReadUnswapped(c: Cell): (n: nat)
    requires c.Raw? && |c.bytes| == 4
    ensures n < 0x1_0000_0000
  {
    PowersOf256();
    FromLittleEndian(c.bytes)
  }

  /** A second lookup of a granted slug returns it iff its bytes read the same both ways. */
  lemma SecondLookupIff(slug: Slug)
    ensures ReadUnswapped(Raw(ShortToString(slug))) == slug
       <==> BigEndian(slug, 4)[0] == BigEndian(slug, 4)[3] && BigEndian(slug, 4)[1] == BigEndian(slug, 4)[2]
  {
    PowersOf256();
    StringsAreBigEndian(slug, 4);
    var b := BigEndian(slug, 4);
    FromLittleEndianRoundTrip(b);
    LittleEndianRoundTrip(slug, 4);
    BigEndianIsReverse(slug, 4);
    var l := LittleEndian(slug, 4);
    ReverseFour(l);
    assert FromLittleEndian(b) == slug <==> b == l;
  }

  /** What such a lookup returns is the granted slug with its bytes swapped, so different
      slugs still read differently, and swapping it gives the slug back. */
  lemma SecondLookupSwaps(slug: Slug, other: Slug)
    ensures var n := ReadUnswapped(Raw(ShortToString(slug)));
            n == Bswap(slug, 4) && Bswap(n, 4) == slug && LittleEndian(n, 4) == BigEndian(slug, 4)
    ensures ReadUnswapped(Raw(ShortToString(slug))) == ReadUnswapped(Raw(ShortToString(other))) <==> slug == other
  {
    ReadIsSwapped(slug);
    ReadIsSwapped(other);
    hide *;
  }

  lemma ReadIsSwapped(slug: Slug)
    ensures var n := ReadUnswapped(Raw(ShortToString(slug)));
            n == Bswap(slug, 4) && Bswap(n, 4) == slug && LittleEndian(n, 4) == BigEndian(slug, 4)
  {
    PowersOf256();
    StringsAreBigEndian(slug, 4);
    BswapTwice(slug, 4);
    hide LittleEndian, BigEndian, FromLittleEndian;
  }

  lemma ReverseFour(b: Bytes)
    requires |b| == 4
    ensures Reverse(b) == [b[3], b[2], b[1], b[0]]
    ensures b == [b[0], b[1], b[2], b[3]]
  {
    assert Reverse(b[3..]) == [b[3]];
    assert Reverse(b[2..]) == [b[3], b[2]];
    assert Reverse(b[1..]) == [b[3], b[2], b[1]];
  }

  // ---------- The instance ----------

  lemma NamesFirst(ks: seq<Bytes>, i: nat, j: nat)
    requires Sorted(ks) && i < j < |ks| && IsName(ks[j])
    ensures IsName(ks[i])
  {
    RankHead(ks[i]);
    RankHead(ks[j]);
    assert Less(ks[i], ks[j]);
  }

  lemma NameAfterPrefix(k: Bytes)
    requires IsName(k)
    ensures WellFormed([TypeSlug]) && WellFormed(k) && Order(k, [TypeSlug]) >= 0
  {
    LexOfPrefix([TypeSlug], k);
    OrderTotal([TypeSlug], k);
  }

  lemma SlugStoreFacts(s: Store)
    requires SlugStore(s)
    ensures AllWellFormed(s.Keys) && WellFormed([TypeSlug])
  {
  }

  predicate NameHead(k: Bytes)
    requires WellFormed(k)
    ensures NameHead(k) <==> IsName(k)
  {
    k[0] == TypeSlug
  }

  /** The scan has seen the names from `start` to `pos` and holds their maximum. */
  ghost predicate Collected(s: Store, ks: seq<Bytes>, start: int, pos: int, first: nat, max: nat)
    requires SlugStore(s)
  {
    ks == SortedKeys(s.Keys) && 0 <= start <= pos <= |ks| && first <= max &&
    (forall i | 0 <= i < |ks| && IsName(ks[i]) :: start <= i) &&
    (forall i | start <= i < pos :: ks[i] in s && IsName(ks[i]) && SlugOf(s[ks[i]]) <= max) &&
    (max == first || exists k :: k in s && IsName(k) && SlugOf(s[k]) == max)
  }

  lemma CollectStarts(s: Store, ks: seq<Bytes>, start: int, first: nat)
    requires SlugStore(s) && ks == SortedKeys(s.Keys) && 0 <= start <= |ks|
    requires forall i | 0 <= i < |ks| :: Order(ks[i], [TypeSlug]) >= 0 <==> i >= start
    ensures Collected(s, ks, start, start, first, first)
  {
    hide SortedKeys, Order, WellFormed, SlugOf;
    forall i | 0 <= i < |ks| && IsName(ks[i]) ensures start <= i {
      NameAfterPrefix(ks[i]);
    }
  }

  lemma CollectStep(s: Store, ks: seq<Bytes>, start: int, pos: int, first: nat, max: nat)
    requires SlugStore(s) && Collected(s, ks, start, pos, first, max) && 0 <= pos < |ks|
    requires WellFormed(ks[pos]) && NameHead(ks[pos])
    ensures ks[pos] in s && s[ks[pos]].Raw? && |s[ks[pos]].bytes| == 4
    ensures var c := SlugOf(s[ks[pos]]); Collected(s, ks, start, pos + 1, first, if c > max then c else max)
  {
    hide SortedKeys, WellFormed, SlugOf, Sorted;
    assert ks[pos] in ks;
  }

  lemma CollectEnds(s: Store, ks: seq<Bytes>, start: int, pos: int, first: nat, max: nat)
    requires SlugStore(s) && Collected(s, ks, start, pos, first, max)
    requires pos < |ks| ==> WellFormed(ks[pos]) && !NameHead(ks[pos])
    ensures Bounded(s, max) && first <= max
    ensures max == first || exists k :: k in s && IsName(k) && SlugOf(s[k]) == max
  {
    hide SortedKeys, WellFormed, SlugOf, Sorted;
    forall k | k in s && IsName(k) ensures SlugOf(s[k]) <= max {
      var i :| 0 <= i < |ks| && ks[i] == k;
      if pos < i { NamesFirst(ks, pos, i); }
    }
  }

  // ---------- Runs of grants and re-opens ----------

  /** The store, the counter, and the slugs handed out so far. */
  datatype State = State(store: Store, max: nat, granted: seq<nat>)

  /** A slug lookup; closing and opening the store again; other writes to the store. */
  datatype Step = Lookup(name: Bytes, env: Env) | Reopen | Work

  ghost predicate Next(s: State, a: Step, t: State) {
    match a
    case Lookup(name, env) =>
      IsName(name) && s.max < 0xFFFF_FFFF &&
      if name in s.store then t == s
      else if env.putOk(0) && env.commitOk then
        t == State(s.store[name := Raw(ShortToString(s.max + 1))], s.max + 1, s.granted + [s.max + 1])
      else t == s.(max := s.max + 1)
    case Reopen =>
      t.store == s.store && t.granted == s.granted && SlugStore(s.store) && Bounded(s.store, t.max) &&
      (t.max == 0 || exists k :: k in s.store && IsName(k) && SlugOf(s.store[k]) == t.max)
    case Work =>
      t.max == s.max && t.granted == s.granted && AllWellFormed(t.store.Keys) &&
      (forall k | IsName(k) :: k in t.store <==> k in s.store) && forall k | IsName(k) && k in t.store :: t.store[k] == s.store[k]
  }

  ghost predicate StoredAs(s: Store, slug: nat)
    requires SlugStore(s)
  {
    exists k :: k in s && IsName(k) && SlugOf(s[k]) == slug
  }

  /** Every slug handed out is stored, and they were handed out in increasing order. */
  ghost predicate Inv(s: State) {
    SlugStore(s.store) && Bounded(s.store, s.max) && Distinct(s.store) &&
    (forall i | 0 <= i < |s.granted| :: StoredAs(s.store, s.granted[i])) &&
    forall i, j | 0 <= i < j < |s.granted| :: s.granted[i] < s.granted[j]
  }

  lemma StaysStored(s: Store, t: Store, slug: nat, max: nat)
    requires SlugStore(s) && SlugStore(t) && Bounded(s, max) && StoredAs(s, slug)
    requires forall k | k in s && IsName(k) :: k in t && t[k] == s[k]
    ensures StoredAs(t, slug) && slug <= max
  {
    hide SlugOf, WellFormed;
    var k :| k in s && IsName(k) && SlugOf(s[k]) == slug;
    assert t[k] == s[k];
  }

  lemma Stored(t: Store, name: Bytes)
    requires SlugStore(t) && name in t && IsName(name)
    ensures StoredAs(t, SlugOf(t[name]))
  {
    hide SlugOf;
  }

  lemma GrantKeepsInv(s: State, name: Bytes, t: State)
    requires Inv(s) && IsName(name) && name !in s.store && s.max < 0xFFFF_FFFF
    requires t == State(s.store[name := Raw(ShortToString(s.max + 1))], s.max + 1, s.granted + [s.max + 1])
    ensures Inv(t)
  {
    hide SlugOf, ShortToString, SlugStore, Bounded, Distinct, StoredAs, IsName;
    GrantKeeps(s.store, s.max, name, s.max + 1, t.store);
    Stored(t.store, name);
    forall i | 0 <= i < |s.granted| ensures StoredAs(t.store, s.granted[i]) && s.granted[i] <= s.max {
      StaysStored(s.store, t.store, s.granted[i], s.max);
    }
  }

  lemma WorkKeepsInv(s: State, t: State)
    requires Inv(s) && Next(s, Work, t)
    ensures Inv(t)
  {
    hide SlugOf, WellFormed, IsName, StoredAs;
    assert SlugStore(t.store);
    forall i | 0 <= i < |s.granted| ensures StoredAs(t.store, s.granted[i]) {
      StaysStored(s.store, t.store, s.granted[i], s.max);
    }
  }

  lemma StepKeepsInv(s: State, a: Step, t: State)
    requires Inv(s) && Next(s, a, t)
    ensures Inv(t)
  {
    match a
    case Lookup(name, env) =>
      hide SlugOf, ShortToString, SlugStore, Bounded, Distinct, StoredAs, IsName;
      if name !in s.store {
        if env.putOk(0) && env.commitOk { GrantKeepsInv(s, name, t); } else { MoreRoom(s.store, s.max); }
      }
    case Reopen =>
      hide SlugOf, WellFormed, IsName, StoredAs;
    case Work => WorkKeepsInv(s, t);
  }

  lemma MoreRoom(s: Store, max: nat)
    requires SlugStore(s) && Bounded(s, max)
    ensures Bounded(s, max + 1)
  {
  }

  ghost predicate IsRun(states: seq<State>, steps: seq<Step>) {
    |states| == |steps| + 1 && forall i | 0 <= i < |steps| :: Next(states[i], steps[i], states[i + 1])
  }

  lemma {:induction false} RunKeepsInv(states: seq<State>, steps: seq<Step>, n: nat)
    requires IsRun(states, steps) && Inv(states[0]) && n < |states|
    ensures Inv(states[n])
    decreases n
  {
    hide Inv, Next;
    if n > 0 {
      RunKeepsInv(states, steps, n - 1);
      StepKeepsInv(states[n - 1], steps[n - 1], states[n]);
    }
  }

  /** Main result: however grants, failed grants, repeated lookups, other writes and
      re-opens follow each other, all slugs granted along the way differ. */
  lemma GrantedSlugsDiffer(states: seq<State>, steps: seq<Step>)
    requires IsRun(states, steps)
    requires var s := states[0]; s.granted == [] && SlugStore(s.store) && Bounded(s.store, s.max) && Distinct(s.store)
    ensures var granted := states[|steps|].granted; forall i, j | 0 <= i < j < |granted| :: granted[i] < granted[j]
  {
    RunKeepsInv(states, steps, |steps|);
  }

  class RocksDBInstance {
    const db: TransactionDB
    var maxSlug: nat

    ghost predicate Coherent()
      reads this, db
    {
      SlugStore(db.committed) && Bounded(db.committed, maxSlug) && Distinct(db.committed) && maxSlug < 0x1_0000_0000
    }

    /** Opening a store: the counter starts at zero and is raised over the stored slugs. */
    constructor (db: TransactionDB)
      requires SlugStore(db.committed) && Distinct(db.committed)
      ensures this.db == db && Coherent()
      ensures maxSlug == 0 || exists k :: k in db.committed && IsName(k) && SlugOf(db.committed[k]) == maxSlug
    {
      this.db := db;
      maxSlug := 0;
      new;
      GetMaxSlug();
    }

    /** Exactly the maximum of the counter and all stored slugs. */
    method GetMaxSlug()
      requires SlugStore(db.committed) && maxSlug < 0x1_0000_0000
      modifies this
      ensures Bounded(db.committed, maxSlug) && old(maxSlug) <= maxSlug < 0x1_0000_0000
      ensures maxSlug == old(maxSlug) || exists k :: k in db.committed && IsName(k) && SlugOf(db.committed[k]) == maxSlug
    {
      hide *;
      var tx := new Transaction(db, Env(_ => true, true));
      SlugStoreFacts(db.committed);
      var it := tx.GetIterator();
      it.Seek([TypeSlug]);
      ghost var s, start, first := db.committed, it.pos, maxSlug;
      CollectStarts(s, it.keys, start, first);
      while it.Valid() && NameHead(it.Key())
        invariant it.Coherent() && it.view == db.committed == s
        invariant Collected(s, it.keys, start, it.pos, first, maxSlug)
        invariant maxSlug < 0x1_0000_0000
        decreases |it.keys| - it.pos
      {
        CollectStep(s, it.keys, start, it.pos, first, maxSlug);
        var current := SlugOf(it.Value());
        if current > maxSlug {
          maxSlug := current;
        }
        it.Next();
      }
      CollectEnds(s, it.keys, start, it.pos, first, maxSlug);
    }

    /** A stored slug is returned as it reads in memory; otherwise the next number is
        granted, and is different from every slug stored before. */
    method GetSlug(name: Bytes, env: Env) returns (slug: Slug)
      requires Coherent() && IsName(name) && maxSlug < 0xFFFF_FFFF
      modifies this, db
      ensures Coherent()
      ensures name in old(db.committed) ==>
                slug == ReadUnswapped(old(db.committed[name])) && db.committed == old(db.committed) && maxSlug == old(maxSlug)
      ensures name !in old(db.committed) ==> maxSlug == old(maxSlug) + 1
      ensures name !in old(db.committed) && env.putOk(0) && env.commitOk ==>
                slug == maxSlug && db.committed == old(db.committed)[name := Raw(ShortToString(slug))]
      ensures name !in old(db.committed) && env.putOk(0) && env.commitOk ==>
                forall k | k in old(db.committed) && IsName(k) :: SlugOf(old(db.committed)[k]) < slug
      ensures name !in old(db.committed) && !(env.putOk(0) && env.commitOk) ==> slug == 0 && db.committed == old(db.committed)
      ensures Next(State(old(db.committed), old(maxSlug), []), Lookup(name, env),
                   State(db.committed, maxSlug, if name !in old(db.committed) && slug != 0 then [slug] else []))
    {
      var tx := new Transaction(db, env);
      var slugSlice := tx.Get(name);
      if slugSlice.Some? {
        return ReadUnswapped(slugSlice.value);
      }
      ghost var before := db.committed;
      maxSlug := maxSlug + 1;
      GrantKeeps(before, maxSlug - 1, name, maxSlug, before[name := Raw(ShortToString(maxSlug))]);
      var ok := tx.Put(name, Raw(ShortToString(maxSlug)));
      if !ok {
        tx.Rollback();
        return 0;
      }
      ok := tx.Commit();
      if !ok {
        tx.Rollback();
        return 0;
      }
      return maxSlug;
    }
  }
}
