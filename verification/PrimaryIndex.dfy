/** `PrimaryIndex`: user key and revision to a live or tombstone mark. */
module PrimaryIndex {
  import opened ByteStrings
  import opened Keys
  import opened RocksDB
  import opened AsOf

  class PrimaryIndex {
    const prefix: Bytes

    constructor (slug: Slug)
      ensures prefix == IndexPrefix(slug)
    {
      prefix := IndexPrefix(slug);
    }

    predicate SameKey(k: Bytes, key: Bytes)
      requires IsIndexPrefix(prefix)
    {
      var prefixLength := |prefix| + 1;
      |k| == prefixLength + |key| + 8 && Memcmp(k[prefixLength..], key, |key|) == 0
    }

    lemma SameKeyIff(k: Bytes, key: Bytes)
      requires IsIndexPrefix(prefix) && KeyPrefix(prefix, Nothing, key) <= k
      ensures SameKey(k, key) <==> |k| == |KeyPrefix(prefix, Nothing, key)| + 8
    {
      var prefixLength := |prefix| + 1;
      assert |KeyPrefix(prefix, Nothing, key)| == prefixLength + |key|;
      if |k| == prefixLength + |key| + 8 {
        assert k[prefixLength..][..|key|] == key by {
          assert KeyPrefix(prefix, Nothing, key) == k[..prefixLength + |key|];
          assert KeyPrefix(prefix, Nothing, key)[prefixLength..] == key;
        }
        assert key[..|key|] == key;
        MemcmpIsLex(k[prefixLength..], key, |key|);
        LexZero(key, key);
      }
    }

    method Insert(tx: Transaction, key: Bytes, revision: Revision, tombstone: bool) returns (ok: bool)
      requires IsIndexPrefix(prefix) && AllWellFormed(tx.View().Keys)
      modifies tx
      ensures ok == (Accepts(old(tx.View()), prefix, Nothing, key, tombstone) && tx.env.putOk(old(tx.puts)))
      ensures tx.View() == if ok then old(tx.View())[EntryKey(prefix, Nothing, key, revision) := Mark(tombstone)]
                           else old(tx.View())
      ensures Accepts(old(tx.View()), prefix, Nothing, key, tombstone) ==> tx.puts == old(tx.puts) + 1
    {
      hide *;
      var keyPrefix := KeyPrefix(prefix, Nothing, key);
      var sentinel := EntryKey(prefix, Nothing, key, MaxRevision);
      EntryKeyShape(prefix, Nothing, key, MaxRevision);
      var it := tx.GetIterator();
      it.SeekForPrev(sentinel);
      ghost var top := it.pos;
      ScanStarts(it.view.Keys, it.keys, it.pos, prefix, Nothing, key, MaxRevision);
      while it.Valid() && keyPrefix <= it.Key()
        invariant it.Coherent() && it.pos < |it.keys|
        invariant Scanning(it.view.Keys, it.keys, top, it.pos, prefix, Nothing, key, MaxRevision)
        invariant unchanged(tx)
        decreases it.pos
      {
        SameKeyIff(it.Key(), key);
        if SameKey(it.Key(), key) {
          ScanHits(it.view, it.keys, top, it.pos, prefix, Nothing, key, MaxRevision);
          if tombstone == (it.Value() != Tombstone) {
            break;  // no matching entry
          } else {
            return false;
          }
        }
        ScanPasses(it.view.Keys, it.keys, top, it.pos, prefix, Nothing, key, MaxRevision);
        ghost var below := it.pos - 1;
        it.Prev();
        assert it.pos == below;
      }
      if !(it.Valid() && keyPrefix <= it.Key()) {
        ScanMisses(it.view, it.keys, top, it.pos, prefix, Nothing, key, MaxRevision);
      }
      ok := tx.Put(EntryKey(prefix, Nothing, key, revision), Mark(tombstone));
    }

    method Lookup(tx: Transaction, key: Bytes, maxRevision: Revision) returns (r: Revision)
      requires IsIndexPrefix(prefix) && AllWellFormed(tx.View().Keys)
      ensures var live := LiveAtMost(tx.View(), prefix, Nothing, key, maxRevision);
              r == if live.Some? then live.value else 0
    {
      hide *;
      var keyPrefix := KeyPrefix(prefix, Nothing, key);
      var sentinel := EntryKey(prefix, Nothing, key, maxRevision);
      EntryKeyShape(prefix, Nothing, key, maxRevision);
      var it := tx.GetIterator();
      it.SeekForPrev(sentinel);
      ghost var top := it.pos;
      ScanStarts(it.view.Keys, it.keys, it.pos, prefix, Nothing, key, maxRevision);
      while it.Valid() && keyPrefix <= it.Key()
        invariant it.Coherent() && it.pos < |it.keys|
        invariant Scanning(it.view.Keys, it.keys, top, it.pos, prefix, Nothing, key, maxRevision)
        decreases it.pos
      {
        SameKeyIff(it.Key(), key);
        if SameKey(it.Key(), key) {
          ScanHits(it.view, it.keys, top, it.pos, prefix, Nothing, key, maxRevision);
          return if it.Value() == Tombstone then 0 else Unwrap(it.Key());
        }
        ScanPasses(it.view.Keys, it.keys, top, it.pos, prefix, Nothing, key, maxRevision);
        ghost var below := it.pos - 1;
        it.Prev();
        assert it.pos == below;
      }
      ScanMisses(it.view, it.keys, top, it.pos, prefix, Nothing, key, maxRevision);
      return 0;
    }
  }
}
