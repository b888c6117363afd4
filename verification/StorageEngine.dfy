/** `StorageEngine`: documents by revision. */
module StorageEngine {
  import opened ByteStrings
  import opened Wrappers
  import opened Keys
  import opened RocksDB

  class StorageEngine {
    const prefix: Bytes

    constructor (slug: Slug)
      ensures prefix == DocumentPrefix(slug)
    {
      prefix := DocumentPrefix(slug);
    }

    method Insert(tx: Transaction, revision: Revision, value: Document) returns (ok: bool)
      modifies tx
      ensures ok == tx.env.putOk(old(tx.puts)) && tx.puts == old(tx.puts) + 1
      ensures tx.View() == if ok then old(tx.View())[DocumentKey(prefix, revision) := Packed(value)] else old(tx.View())
    {
      ok := tx.Put(DocumentKey(prefix, revision), Packed(value));
    }

    method Lookup(tx: Transaction, revision: Revision) returns (document: Option<Document>)
      ensures var k := DocumentKey(prefix, revision);
              document == if k in tx.View() && tx.View()[k].Packed? then Some(tx.View()[k].document) else None
    {
      var data := tx.Get(DocumentKey(prefix, revision));
      document := if data.Some? && data.value.Packed? then Some(data.value.document) else None;
    }
  }
}
