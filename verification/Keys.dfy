/** The key builders of both indexes and of the document space. Both indexes lay a key
    out as prefix, indexed value, user key, revision; they differ in the indexed value. */
module Keys {
  import opened ByteStrings
  import opened IndexValues
  import opened Comparator

  type Time = t: int | -0x8000_0000_0000_0000 <= t < 0x8000_0000_0000_0000
  type Slug = s: int | 0 <= s < 0x1_0000_0000
  type Revision = r: int | 0 <= r < 0x1_0000_0000_0000_0000

  /** The indexed value of an entry: nothing (primary) or a timestamp (secondary). */
  datatype Indexed = Nothing | At(time: Time)

  function Encoded(v: Indexed): Bytes {
    match v
    case Nothing => EncodedNone
    case At(t) => EncodeTimestamp(t)
  }

  function CodeOf(v: Indexed): int {
    match v
    case Nothing => CodeOfNone
    case At(t) => t
  }

  function IndexPrefix(slug: Slug): (p: Bytes)
    ensures IsIndexPrefix(p)
  {
    [TypeIndex] + ShortToString(slug)
  }

  function DocumentPrefix(slug: Slug): (p: Bytes)
    ensures IsDocumentPrefix(p)
  {
    [TypeDocument] + ShortToString(slug)
  }

  predicate IsIndexPrefix(p: Bytes) { |p| == SluggedLength && p[0] == TypeIndex }
  predicate IsDocumentPrefix(p: Bytes) { |p| == SluggedLength && p[0] == TypeDocument }

  /** `buildValuePrefix`, `buildKeyPrefix` (with a user key) and `buildKey` (with user key and revision). */
  function ValuePrefix(p: Bytes, v: Indexed): Bytes { p + Encoded(v) }
  function KeyPrefix(p: Bytes, v: Indexed, key: Bytes): Bytes { ValuePrefix(p, v) + key }
  function EntryKey(p: Bytes, v: Indexed, key: Bytes, r: Revision): Bytes { KeyPrefix(p, v, key) + IntToString(r) }

  /** `StorageEngine::buildKey`. */
  function DocumentKey(p: Bytes, r: Revision): Bytes { p + IntToString(r) }

  /** The last eight bytes of a key, as a revision. */
  function Unwrap(k: Bytes): (r: Revision)
    requires |k| >= 8
  {
    StringToInt(k[|k| - 8..])
  }

  // ---------- Shape ----------

  lemma ValueShapeOf(v: Indexed, rest: Bytes)
    ensures var b := Encoded(v) + rest;
            StartsWithValue(b) && ByteSize(b) == |Encoded(v)| && b[ByteSize(b)..] == rest && Code(b) == CodeOf(v)
    ensures v.At? <==> (Encoded(v) + rest)[0] != 0x00
    ensures v.At? ==> DecodeTimestamp(Encoded(v) + rest) == v.time
  {
    if v.At? {
      TimestampRoundTrip(v.time, rest);
    }
  }

  /** Whatever follows prefix and value, the key is well formed and its rank is known. */
  lemma IndexKeyShape(p: Bytes, v: Indexed, rest: Bytes)
    requires IsIndexPrefix(p)
    ensures var k := ValuePrefix(p, v) + rest;
            |k| > SluggedLength && k[0] == TypeIndex && k[..SluggedLength] == p && k[SluggedLength..] == Encoded(v) + rest
    ensures WellFormed(ValuePrefix(p, v) + rest)
    ensures Rank(ValuePrefix(p, v) + rest) == p + [CodeOf(v)] + rest
  {
    var k := ValuePrefix(p, v) + rest;
    var b := Encoded(v) + rest;
    ValueShapeOf(v, rest);
    hide StartsWithValue, ByteSize, Code, Encoded, CodeOf;
    assert k[SluggedLength..] == b;
    assert k[..SluggedLength] == p;
    assert k[0] == p[0];
  }

  /** A key of this index is determined by its rank's third part onward. */
  function IndexedOf(k: Bytes): Indexed
    requires WellFormed(k) && k[0] == TypeIndex
  {
    ValueShape(k[SluggedLength..]);
    if k[SluggedLength] == 0x00 then Nothing else At(DecodeTimestamp(k[SluggedLength..]))
  }

  function RestOf(k: Bytes): Bytes
    requires WellFormed(k) && k[0] == TypeIndex
  {
    ValueShape(k[SluggedLength..]);
    k[SluggedLength + ByteSize(k[SluggedLength..])..]
  }

  lemma IndexKeyParts(k: Bytes)
    requires WellFormed(k) && k[0] == TypeIndex
    ensures k == ValuePrefix(k[..SluggedLength], IndexedOf(k)) + RestOf(k)
  {
    EncodedIndexedOf(k);
    Reassemble(k, SluggedLength, ByteSize(k[SluggedLength..]));
  }

  lemma EncodedIndexedOf(k: Bytes)
    requires WellFormed(k) && k[0] == TypeIndex
    ensures var n := ByteSize(k[SluggedLength..]);
            SluggedLength + n <= |k| && Encoded(IndexedOf(k)) == k[SluggedLength..][..n] && RestOf(k) == k[SluggedLength + n..]
  {
    ValueShape(k[SluggedLength..]);
    assert k[SluggedLength..][0] == k[SluggedLength];
  }

  lemma Reassemble(k: Bytes, m: nat, n: nat)
    requires m + n <= |k|
    ensures k == k[..m] + k[m..][..n] + k[m + n..]
  {
  }

  lemma PartsOf(p: Bytes, v: Indexed, rest: Bytes)
    requires IsIndexPrefix(p)
    ensures var k := ValuePrefix(p, v) + rest;
            WellFormed(k) && k[0] == TypeIndex && IndexedOf(k) == v && RestOf(k) == rest
  {
    var k := ValuePrefix(p, v) + rest;
    IndexKeyShape(p, v, rest);
    var b := k[SluggedLength..];
    if v.At? {
      TimestampRoundTrip(v.time, rest);
    }
    assert k[SluggedLength] == b[0];
    assert RestOf(k) == b[ByteSize(b)..];
  }

  /** The rank of an index key spells out its parts. */
  lemma RankParts(k: Bytes)
    requires WellFormed(k) && k[0] == TypeIndex
    ensures |k| > SluggedLength && IsIndexPrefix(k[..SluggedLength])
    ensures Rank(k) == k[..SluggedLength] + [CodeOf(IndexedOf(k))] + RestOf(k)
    ensures k == ValuePrefix(k[..SluggedLength], IndexedOf(k)) + RestOf(k)
  {
    IndexKeyParts(k);
    IndexKeyShape(k[..SluggedLength], IndexedOf(k), RestOf(k));
  }

  lemma CodeInjective(v: Indexed, w: Indexed)
    ensures CodeOf(v) == CodeOf(w) <==> v == w
  {
  }

  lemma ThreeParts(p: seq<int>, c: int, x: seq<int>, q: seq<int>, d: int, y: seq<int>)
    requires |p| == |q|
    ensures p + [c] + x <= q + [d] + y <==> p == q && c == d && x <= y
  {
    var a, b := p + [c] + x, q + [d] + y;
    if a <= b {
      assert p == a[..|p|] == b[..|p|] == q;
      assert c == a[|p|] == b[|p|] == d;
      assert x == a[|p| + 1..] && y == b[|p| + 1..];
    }
  }

  /** Byte prefixes of index keys are prefixes of their ranks. */
  lemma PrefixIffRankPrefix(p: Bytes, v: Indexed, x: Bytes, k: Bytes)
    requires IsIndexPrefix(p) && WellFormed(k)
    ensures KeyPrefix(p, v, x) <= k <==> p + [CodeOf(v)] + x <= Rank(k)
  {
    if k[0] == TypeIndex {
      RankParts(k);
      PartsDecidePrefix(p, v, x, k);
      CodeInjective(v, IndexedOf(k));
      ThreeParts(p, CodeOf(v), x, k[..SluggedLength], CodeOf(IndexedOf(k)), RestOf(k));
    } else {
      RankHead(k);
      assert KeyPrefix(p, v, x)[0] == TypeIndex;
      assert (p + [CodeOf(v)] + x)[0] == TypeIndex;
    }
  }

  lemma PartsDecidePrefix(p: Bytes, v: Indexed, x: Bytes, k: Bytes)
    requires IsIndexPrefix(p) && WellFormed(k) && k[0] == TypeIndex
    ensures KeyPrefix(p, v, x) <= k <==> p == k[..SluggedLength] && v == IndexedOf(k) && x <= RestOf(k)
  {
    IndexKeyParts(k);
    KeyPrefixIs(p, v, x);
    var vp := ValuePrefix(p, v);
    hide *;
    if vp + x <= k {
      Cut(vp, x, k);
      PartsOf(p, v, x + k[|vp| + |x|..]);
      IndexKeyShape(p, v, x + k[|vp| + |x|..]);
      assert x <= x + k[|vp| + |x|..];
    } else if p == k[..SluggedLength] && v == IndexedOf(k) && x <= RestOf(k) {
      Glue(vp, x, RestOf(k));
      assert false;
    }
  }

  lemma KeyPrefixIs(p: Bytes, v: Indexed, key: Bytes)
    ensures KeyPrefix(p, v, key) == ValuePrefix(p, v) + key
  {
  }

  lemma Cut(a: Bytes, x: Bytes, k: Bytes)
    requires a + x <= k
    ensures |k| >= |a| + |x| && k == a + (x + k[|a| + |x|..])
  {
  }

  lemma Glue(a: Bytes, x: Bytes, y: Bytes)
    requires x <= y
    ensures a + x <= a + y
  {
    assert a + y == a + x + y[|x|..];
  }

  lemma EntryKeyShape(p: Bytes, v: Indexed, key: Bytes, r: Revision)
    requires IsIndexPrefix(p)
    ensures WellFormed(EntryKey(p, v, key, r)) && EntryKey(p, v, key, r)[0] == TypeIndex
    ensures Rank(EntryKey(p, v, key, r)) == p + [CodeOf(v)] + key + IntToString(r)
    ensures EntryKey(p, v, key, r)[..SluggedLength] == p
    ensures IndexedOf(EntryKey(p, v, key, r)) == v && RestOf(EntryKey(p, v, key, r)) == key + IntToString(r)
  {
    hide WellFormed, Encoded, IndexedOf, RestOf, Rank, IntToString;
    var rest := key + IntToString(r);
    assert EntryKey(p, v, key, r) == ValuePrefix(p, v) + rest;
    IndexKeyShape(p, v, rest);
    PartsOf(p, v, rest);
    assert p + [CodeOf(v)] + rest == p + [CodeOf(v)] + key + IntToString(r);
  }

  lemma EntryKeyTail(p: Bytes, v: Indexed, key: Bytes, r: Revision)
    ensures |EntryKey(p, v, key, r)| == |KeyPrefix(p, v, key)| + 8
    ensures Unwrap(EntryKey(p, v, key, r)) == r
    ensures KeyPrefix(p, v, key) <= EntryKey(p, v, key, r)
  {
    var k := EntryKey(p, v, key, r);
    assert k[|k| - 8..] == IntToString(r);
    IntStrings(r, r);
  }

  /** Entries of one value and user key are ordered by revision. */
  lemma EntryOrder(p: Bytes, v: Indexed, key: Bytes, r: Revision, s: Revision)
    requires IsIndexPrefix(p)
    ensures Lex(Rank(EntryKey(p, v, key, r)), Rank(EntryKey(p, v, key, s))) == Sign(r - s)
  {
    EntryKeyShape(p, v, key, r);
    EntryKeyShape(p, v, key, s);
    LexCommonPrefix(p + [CodeOf(v)] + key, IntToString(r), IntToString(s));
    IntStrings(r, s);
  }

  /** A key that starts with a key prefix and is eight bytes longer is an entry. */
  lemma EntryFromPrefix(p: Bytes, v: Indexed, key: Bytes, k: Bytes)
    requires KeyPrefix(p, v, key) <= k && |k| == |KeyPrefix(p, v, key)| + 8
    ensures k == EntryKey(p, v, key, Unwrap(k))
  {
    StringIntRoundTrip(k[|k| - 8..]);
  }

  // ---------- Injectivity ----------

  lemma EntryKeyInjective(p: Bytes, q: Bytes, v: Indexed, w: Indexed, key: Bytes, key': Bytes, r: Revision, s: Revision)
    requires IsIndexPrefix(p) && IsIndexPrefix(q)
    ensures EntryKey(p, v, key, r) == EntryKey(q, w, key', s) <==> p == q && v == w && key == key' && r == s
  {
    EntryKeyShape(p, v, key, r);
    EntryKeyShape(q, w, key', s);
    if EntryKey(p, v, key, r) == EntryKey(q, w, key', s) {
      EntryKeyTail(p, v, key, r);
      EntryKeyTail(q, w, key', s);
      var a, b := key + IntToString(r), key' + IntToString(s);
      assert a == b;
      assert key == a[..|a| - 8] && key' == b[..|b| - 8];
    }
  }

  lemma DocumentKeyShape(p: Bytes, r: Revision)
    requires IsDocumentPrefix(p)
    ensures var k := DocumentKey(p, r);
            WellFormed(k) && k[..SluggedLength] == p && |k| >= 8 && Unwrap(k) == r
  {
    var k := DocumentKey(p, r);
    assert k[|k| - 8..] == IntToString(r);
    IntStrings(r, r);
  }

  lemma DocumentKeyInjective(p: Bytes, q: Bytes, r: Revision, s: Revision)
    requires IsDocumentPrefix(p) && IsDocumentPrefix(q)
    ensures DocumentKey(p, r) == DocumentKey(q, s) <==> p == q && r == s
  {
    DocumentKeyShape(p, r);
    DocumentKeyShape(q, s);
  }

  /** The key spaces of two slugs are disjoint, and so are index and document spaces. */
  lemma PrefixesInjective(s: Slug, t: Slug)
    ensures IndexPrefix(s) == IndexPrefix(t) <==> s == t
    ensures DocumentPrefix(s) == DocumentPrefix(t) <==> s == t
    ensures IndexPrefix(s) != DocumentPrefix(t)
  {
    ShortStrings(s, t);
    assert IndexPrefix(s)[1..] == ShortToString(s) && IndexPrefix(t)[1..] == ShortToString(t);
    assert DocumentPrefix(s)[1..] == ShortToString(s) && DocumentPrefix(t)[1..] == ShortToString(t);
  }
}
