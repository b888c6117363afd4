/** The storage library as the code uses it: a map from byte keys to values, a cursor
    over its keys in comparator order, and transactions that read their own writes. */
module RocksDB {
  import opened ByteStrings
  import opened Comparator
  import opened Wrappers
  import opened Keys

  /** A stored document: the fields `generateDocument` writes. */
  datatype Document = Document(key: Bytes, value: nat, name: Bytes, timestamp: Time)

  datatype Cell = Raw(bytes: Bytes) | Packed(document: Document)

  type Store = map<Bytes, Cell>

  ghost predicate AllWellFormed(s: set<Bytes>) { forall k | k in s :: WellFormed(k) }

  // ---------- Keys in order ----------

  predicate IsMax(s: set<Bytes>, m: Bytes) {
    m in s && forall k | k in s :: k == m || Less(k, m)
  }

  lemma MaxExists(s: set<Bytes>)
    requires s != {} && AllWellFormed(s)
    ensures exists m :: IsMax(s, m)
    decreases |s|
  {
    hide Order, WellFormed;
    var x :| x in s;
    var t := s - {x};
    if t == {} {
      assert s == {x};
      assert IsMax(s, x);
    } else {
      MaxExists(t);
      var m :| IsMax(t, m);
      OrderTotal(m, x);
      if Less(m, x) {
        forall k | k in s ensures k == x || Less(k, x) {
          if k != x && k != m { assert k in t; OrderTransitive(k, m, x); }
        }
        assert IsMax(s, x);
      } else {
        assert IsMax(s, m);
      }
    }
  }

  lemma MaxUnique(s: set<Bytes>)
    requires AllWellFormed(s)
    ensures forall m, m' | IsMax(s, m) && IsMax(s, m') :: m == m'
  {
    hide Order, WellFormed;
    forall m, m' | IsMax(s, m) && IsMax(s, m') ensures m == m' {
      OrderTotal(m, m');
    }
  }

  ghost predicate Sorted(ks: seq<Bytes>) {
    (forall i | 0 <= i < |ks| :: WellFormed(ks[i])) &&
    forall i, j | 0 <= i < j < |ks| :: Less(ks[i], ks[j])
  }

  /** The keys in the order a cursor visits them. */
  function SortedKeys(s: set<Bytes>): (ks: seq<Bytes>)
    requires AllWellFormed(s)
    ensures Sorted(ks)
    ensures forall k :: k in ks <==> k in s
    decreases |s|
  {
    hide Order, WellFormed;
    if s == {} then []
    else
      MaxExists(s);
      MaxUnique(s);
      var m :| IsMax(s, m);
      var ks := SortedKeys(s - {m});
      assert forall i | 0 <= i < |ks| :: ks[i] in ks;
      ks + [m]
  }

  // ---------- Cursor ----------

  /** Exactly the keys up to index `pos` are at or before the target. */
  ghost predicate AtOrBelow(ks: seq<Bytes>, pos: int, target: Bytes) {
    forall i | 0 <= i < |ks| :: Order(ks[i], target) <= 0 <==> i <= pos
  }

  class Iterator {
    const view: Store
    const keys: seq<Bytes>
    var pos: int

    ghost predicate Coherent()
      reads this
      ensures Coherent() ==> AllWellFormed(view.Keys) && keys == SortedKeys(view.Keys) && -1 <= pos <= |keys|
    {
      AllWellFormed(view.Keys) && keys == SortedKeys(view.Keys) && -1 <= pos <= |keys|
    }

    constructor (view: Store)
      requires AllWellFormed(view.Keys)
      ensures Coherent() && this.view == view
    {
      this.view := view;
      keys := SortedKeys(view.Keys);
      pos := -1;
    }

    predicate Valid()
      reads this
      ensures Valid() <==> 0 <= pos < |keys|
    {
      0 <= pos < |keys|
    }

    function Key(): (k: Bytes)
      requires Coherent() && Valid()
      reads this
      ensures k in view && WellFormed(k) && k == keys[pos]
    {
      keys[pos]
    }

    function Value(): (c: Cell)
      requires Coherent() && Valid()
      reads this
      ensures c == view[keys[pos]]
    {
      view[Key()]
    }

    /** To the last key at or before the target. */
    method SeekForPrev(target: Bytes)
      requires Coherent() && WellFormed(target)
      modifies this
      ensures Coherent() && pos < |keys|
      ensures AtOrBelow(keys, pos, target)
    {
      hide Order, WellFormed, Compare;
      pos := |keys| - 1;
      while pos >= 0 && Compare(keys[pos], target) > 0
        invariant -1 <= pos < |keys|
        invariant forall i | pos < i < |keys| :: Order(keys[i], target) > 0
        decreases pos
      {
        CompareIsOrder(keys[pos], target);
        pos := pos - 1;
      }
      forall i | 0 <= i <= pos ensures Order(keys[i], target) <= 0 {
        CompareIsOrder(keys[pos], target);
        if i < pos { OrderTransitive(keys[i], keys[pos], target); }
      }
    }

    /** To the first key at or after the target. */
    method Seek(target: Bytes)
      requires Coherent() && WellFormed(target)
      modifies this
      ensures Coherent() && 0 <= pos
      ensures forall i | 0 <= i < |keys| :: Order(keys[i], target) >= 0 <==> i >= pos
    {
      hide Order, WellFormed, Compare;
      pos := 0;
      while pos < |keys| && Compare(keys[pos], target) < 0
        invariant 0 <= pos <= |keys|
        invariant forall i | 0 <= i < pos :: Order(keys[i], target) < 0
      {
        CompareIsOrder(keys[pos], target);
        pos := pos + 1;
      }
      forall i | pos <= i < |keys| ensures Order(keys[i], target) >= 0 {
        CompareIsOrder(keys[pos], target);
        if pos < i {
          OrderTotal(keys[pos], target);
          OrderTotal(keys[i], target);
          OrderTransitive(target, keys[pos], keys[i]);
        }
      }
    }

    method Prev()
      requires Coherent() && Valid()
      modifies this
      ensures Coherent() && pos == old(pos) - 1
    {
      pos := pos - 1;
    }

    method Next()
      requires Coherent() && Valid()
      modifies this
      ensures Coherent() && pos == old(pos) + 1
    {
      pos := pos + 1;
    }
  }

  // ---------- Transactions ----------

  /** What the environment decides about one transaction: whether its n-th write and
      its commit succeed. */
  datatype Env = Env(putOk: nat -> bool, commitOk: bool)

  class TransactionDB {
    var committed: Store

    constructor (contents: Store)
      ensures committed == contents
    {
      committed := contents;
    }
  }

  class Transaction {
    const db: TransactionDB
    const env: Env
    var writes: Store
    var puts: nat

    constructor (db: TransactionDB, env: Env)
      ensures this.db == db && this.env == env && puts == 0 && View() == db.committed
    {
      this.db, this.env := db, env;
      writes, puts := map[], 0;
    }

    /** The transaction reads its own writes over the committed state. */
    function View(): Store
      reads this, db
    {
      db.committed + writes
    }

    method Put(k: Bytes, c: Cell) returns (ok: bool)
      modifies this
      ensures ok == env.putOk(old(puts)) && puts == old(puts) + 1
      ensures View() == if ok then old(View())[k := c] else old(View())
    {
      ok := env.putOk(puts);
      puts := puts + 1;
      if ok {
        writes := writes[k := c];
      }
    }

    method Get(k: Bytes) returns (found: Option<Cell>)
      ensures found == if k in View() then Some(View()[k]) else None
    {
      found := if k in View() then Some(View()[k]) else None;
    }

    method GetIterator() returns (it: Iterator)
      requires AllWellFormed(View().Keys)
      ensures fresh(it) && it.Coherent() && it.view == View()
    {
      it := new Iterator(View());
    }

    method Rollback()
      modifies this
      ensures View() == db.committed
    {
      writes := map[];
    }

    method Commit() returns (ok: bool)
      modifies db
      ensures ok == env.commitOk
      ensures db.committed == if ok then old(View()) else old(db.committed)
    {
      ok := env.commitOk;
      if ok {
        db.committed := db.committed + writes;
      }
    }
  }
}
