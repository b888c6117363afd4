/** `ArangoComparator`: the order of all keys of the store. */
module Comparator {
  import opened ByteStrings
  import opened VPack
  import opened IndexValues

  const TypeSlug: Byte := 83       // 'S'
  const TypeDocument: Byte := 100  // 'd'
  const TypeIndex: Byte := 105     // 'i'
  const SluggedLength: nat := 5

  // ---------- Keys ----------

  /** The keys the program builds: `d<slug><revision>`, `i<slug><value>...`, `S...`. */
  predicate WellFormed(k: Bytes) {
    k != [] &&
    (k[0] == TypeSlug
     || (k[0] == TypeDocument && |k| == SluggedLength + 8)
     || (k[0] == TypeIndex && |k| > SluggedLength && StartsWithValue(k[SluggedLength..])))
  }

  /** A type byte and a slug and nothing else: never stored, but handed to the
      comparator when key prefixes are compared. */
  predicate BarePrefix(k: Bytes) {
    |k| == SluggedLength && (k[0] == TypeDocument || k[0] == TypeIndex)
  }

  // ---------- The comparison ----------

  /** `char` is signed. */
  function SignedChar(b: Byte): int { if b < 0x80 then b else b - 0x100 }

  /** What the comparison may be asked without reading past either key. */
  predicate Readable(l: Bytes, r: Bytes) {
    (l == [] || BarePrefix(l) || WellFormed(l)) && (r == [] || WellFormed(r))
  }

  function ComparePrefixes(l: Bytes, r: Bytes): int
    requires Readable(l, r)
  {
    if l == [] || r == [] then
      if l == [] && r != [] then -1 else if l != [] && r == [] then 1 else 0
    else
      var result := SignedChar(l[0]) - SignedChar(r[0]);
      if result != 0 then result
      else if l[0] == TypeDocument || l[0] == TypeIndex then Memcmp(l, r, SluggedLength)
      else 0
  }

  function CompareDocumentEntries(l: Bytes, r: Bytes): int
    requires Readable(l, r) && l != [] && r != [] && l[0] == r[0] == TypeDocument
  {
    if |l| == SluggedLength then 0
    else Memcmp(l[SluggedLength..], r[SluggedLength..], 8)
  }

  function CompareSlugEntries(l: Bytes, r: Bytes): int {
    var result := Memcmp(l, r, if |l| <= |r| then |l| else |r|);
    if result != 0 then result else |l| - |r|
  }

  function CompareIndexEntries(l: Bytes, r: Bytes): int
    requires Readable(l, r) && l != [] && r != [] && l[0] == r[0] == TypeIndex
  {
    if |l| == SluggedLength then 0
    else
      var lSlice, rSlice := DecodeValue(l[SluggedLength..]), DecodeValue(r[SluggedLength..]);
      var result := CompareValues(lSlice, rSlice);
      if result != 0 then result
      else
        // the left value's size serves both sides
        var offset := SluggedLength + ByteSize(l[SluggedLength..]);
        SameValueSameSize(l[SluggedLength..], r[SluggedLength..]);
        CompareFrom(l, r, offset)
  }

  /** The bytes from an offset on, then the sizes. */
  function CompareFrom(l: Bytes, r: Bytes, offset: nat): int
    requires offset <= |l| && offset <= |r|
  {
    var minLength := (if |l| <= |r| then |l| else |r|) - offset;
    var result := Memcmp(l[offset..], r[offset..], minLength);
    if result != 0 || |l| == |r| then result
    else if |l| < |r| then -1 else 1
  }

  lemma CompareFromIsLex(l: Bytes, r: Bytes, offset: nat)
    requires offset <= |l| && offset <= |r|
    ensures Sign(CompareFrom(l, r, offset)) == Lex(l[offset..], r[offset..])
  {
    MemcmpThenSize(l[offset..], r[offset..]);
  }

  function Compare(l: Bytes, r: Bytes): int
    requires Readable(l, r)
  {
    var result := ComparePrefixes(l, r);
    if result != 0 || l == [] then result
    else if l[0] == TypeDocument then CompareDocumentEntries(l, r)
    else if l[0] == TypeIndex then CompareIndexEntries(l, r)
    else CompareSlugEntries(l, r)
  }

  // ---------- The order behind it ----------

  const CodeOfNone: int := -0x1_0000_0000_0000_0000

  function Code(b: Bytes): int {
    if b == [] || b[0] == 0x00 then CodeOfNone else DecodeTimestamp(b)
  }

  /** A key as a list of numbers whose lexicographic order is the key order: the
      encoded index value is replaced by the number it stands for. */
  function Rank(k: Bytes): seq<int> {
    if |k| > SluggedLength && k[0] == TypeIndex then
      var v := k[SluggedLength..];
      k[..SluggedLength] + [Code(v)] + (if ByteSize(v) <= |v| then v[ByteSize(v)..] else [])
    else k
  }

  lemma ValueShape(b: Bytes)
    requires StartsWithValue(b)
    ensures 1 <= ByteSize(b) <= |b|
    ensures b[..ByteSize(b)] == (if b[0] == 0x00 then EncodedNone else EncodeTimestamp(DecodeTimestamp(b)))
    ensures b[0] != 0x00 ==> IsInt64(DecodeTimestamp(b))
  {
    if b[0] != 0x00 {
      TimestampPrefix(DecodeTimestamp(b), b);
    }
  }

  lemma ValuesCompareAsCodes(a: Bytes, b: Bytes)
    requires StartsWithValue(a) && StartsWithValue(b)
    ensures CompareValues(DecodeValue(a), DecodeValue(b)) == Sign(Code(a) - Code(b))
  {
    ValueShape(a);
    ValueShape(b);
    if a[0] != 0x00 && b[0] != 0x00 {
      TimestampsCompareAsNumbers(DecodeTimestamp(a), DecodeTimestamp(b));
    } else if a[0] != 0x00 {
      TimestampsCompareAsNumbers(DecodeTimestamp(a), 0);
    } else if b[0] != 0x00 {
      TimestampsCompareAsNumbers(0, DecodeTimestamp(b));
    }
  }

  /** Index values that compare equal have one encoding, so reading the right side
      with the left side's size is harmless. */
  lemma SameValueSameSize(a: Bytes, b: Bytes)
    requires StartsWithValue(a) && StartsWithValue(b)
    requires CompareValues(DecodeValue(a), DecodeValue(b)) == 0
    ensures ByteSize(a) == ByteSize(b) <= |a| && ByteSize(b) <= |b|
    ensures a[..ByteSize(a)] == b[..ByteSize(b)]
  {
    ValueShape(a);
    ValueShape(b);
    ValuesCompareAsCodes(a, b);
  }

  lemma RankOfIndexKey(k: Bytes)
    requires WellFormed(k) && k[0] == TypeIndex
    ensures var v := k[SluggedLength..];
            ByteSize(v) <= |v| && Rank(k) == k[..SluggedLength] + ([Code(v)] + v[ByteSize(v)..])
  {
    ValueShape(k[SluggedLength..]);
  }

  lemma CompareIndexIsLex(l: Bytes, r: Bytes)
    requires WellFormed(l) && WellFormed(r) && l[0] == r[0] == TypeIndex
    requires l[..SluggedLength] == r[..SluggedLength]
    ensures Sign(CompareIndexEntries(l, r)) == Lex(Rank(l), Rank(r))
  {
    var a, b := l[SluggedLength..], r[SluggedLength..];
    RankOfIndexKey(l);
    RankOfIndexKey(r);
    CompareIndexByParts(l, r);
    assert |l| > SluggedLength && StartsWithValue(a) && StartsWithValue(b);
    hide *;
    LexCommonPrefix(l[..SluggedLength], [Code(a)] + a[ByteSize(a)..], [Code(b)] + b[ByteSize(b)..]);
    LexHeads([Code(a)], [Code(b)], a[ByteSize(a)..], b[ByteSize(b)..]);
    LexOfSingles(Code(a), Code(b));
  }

  /** The value decides; below equal values, the bytes behind it. */
  lemma CompareIndexByParts(l: Bytes, r: Bytes)
    requires WellFormed(l) && WellFormed(r) && l[0] == r[0] == TypeIndex
    ensures var a, b := l[SluggedLength..], r[SluggedLength..];
            ByteSize(a) <= |a| && ByteSize(b) <= |b| &&
            Sign(CompareIndexEntries(l, r)) == if Code(a) == Code(b) then Lex(a[ByteSize(a)..], b[ByteSize(b)..])
                                               else Sign(Code(a) - Code(b))
  {
    var a, b := l[SluggedLength..], r[SluggedLength..];
    assert |l| > SluggedLength && StartsWithValue(a) && StartsWithValue(b);
    ValueShape(a);
    ValueShape(b);
    hide WellFormed, StartsWithValue, DecodeValue, CompareValues, ByteSize, Code, Lex, CompareFrom;
    ValuesCompareAsCodes(a, b);
    if Code(a) == Code(b) {
      SameValueSameSize(a, b);
      var offset := SluggedLength + ByteSize(a);
      assert l[offset..] == a[ByteSize(a)..] && r[offset..] == b[ByteSize(b)..];
      CompareFromIsLex(l, r, offset);
    }
  }

  lemma LexOfSingles(x: int, y: int)
    ensures Lex([x], [y]) == Sign(x - y)
  {
  }

  lemma SplitPrefix(k: Bytes)
    requires WellFormed(k) && k[0] != TypeSlug
    ensures |k| > SluggedLength && |Rank(k)| > SluggedLength
    ensures Rank(k)[..SluggedLength] == k[..SluggedLength]
    ensures Rank(k) == k[..SluggedLength] + Rank(k)[SluggedLength..]
  {
  }

  lemma CompareDocumentIsLex(l: Bytes, r: Bytes)
    requires WellFormed(l) && WellFormed(r) && l[0] == r[0] == TypeDocument
    requires l[..SluggedLength] == r[..SluggedLength]
    ensures Sign(CompareDocumentEntries(l, r)) == Lex(Rank(l), Rank(r))
  {
    var a, b := l[SluggedLength..], r[SluggedLength..];
    assert l == l[..SluggedLength] + a && r == r[..SluggedLength] + b;
    LexCommonPrefix(l[..SluggedLength], a, b);
    MemcmpIsLex(a, b, 8);
    assert a[..8] == a && b[..8] == b;
  }

  lemma SluggedPrefixesDecide(l: Bytes, r: Bytes)
    requires WellFormed(l) && WellFormed(r) && l[0] == r[0] != TypeSlug
    ensures var p := Memcmp(l, r, SluggedLength);
            (p == 0 <==> l[..SluggedLength] == r[..SluggedLength]) &&
            (p != 0 ==> Sign(p) == Lex(Rank(l), Rank(r)))
  {
    MemcmpIsLex(l, r, SluggedLength);
    LexZero(l[..SluggedLength], r[..SluggedLength]);
    SplitPrefix(l);
    SplitPrefix(r);
    LexHeads(l[..SluggedLength], r[..SluggedLength], Rank(l)[SluggedLength..], Rank(r)[SluggedLength..]);
  }

  lemma RankHead(k: Bytes)
    requires WellFormed(k)
    ensures Rank(k) != [] && Rank(k)[0] == k[0]
  {
  }

  /** The comparison of well-formed keys is the lexicographic order of their ranks. */
  lemma CompareIsLex(l: Bytes, r: Bytes)
    requires WellFormed(l) && WellFormed(r)
    ensures Sign(Compare(l, r)) == Lex(Rank(l), Rank(r))
  {
    RankHead(l);
    RankHead(r);
    if l[0] == r[0] {
      if l[0] == TypeSlug {
        MemcmpThenSize(l, r);
      } else {
        SluggedPrefixesDecide(l, r);
        if l[..SluggedLength] == r[..SluggedLength] {
          if l[0] == TypeDocument { CompareDocumentIsLex(l, r); } else { CompareIndexIsLex(l, r); }
        }
      }
    }
  }

  lemma RankInjective(l: Bytes, r: Bytes)
    requires WellFormed(l) && WellFormed(r) && Rank(l) == Rank(r)
    ensures l == r
  {
    RankHead(l);
    RankHead(r);
    if l[0] == TypeIndex {
      IndexRankInjective(l, r);
    }
  }

  lemma IndexRankInjective(l: Bytes, r: Bytes)
    requires WellFormed(l) && WellFormed(r) && l[0] == r[0] == TypeIndex && Rank(l) == Rank(r)
    ensures l == r
  {
    var a, b := l[SluggedLength..], r[SluggedLength..];
    RankOfIndexKey(l);
    RankOfIndexKey(r);
    assert StartsWithValue(a) && StartsWithValue(b) && |l| > SluggedLength && |r| > SluggedLength;
    hide *;
    PartsEqual(l[..SluggedLength], Code(a), a[ByteSize(a)..], r[..SluggedLength], Code(b), b[ByteSize(b)..]);
    ValuesCompareAsCodes(a, b);
    SignZero(Code(a) - Code(b));
    SameValueSameSize(a, b);
    SameHalves(a, b, ByteSize(a));
    SameHalves(l, r, SluggedLength);
  }

  lemma PartsEqual(p: seq<int>, c: int, x: seq<int>, q: seq<int>, d: int, y: seq<int>)
    requires |p| == |q| && p + ([c] + x) == q + ([d] + y)
    ensures p == q && c == d && x == y
  {
    var k := p + ([c] + x);
    assert p == k[..|p|] == q && c == k[|p|] == d;
    assert x == k[|p| + 1..] == y;
  }

  lemma SameHalves(a: Bytes, b: Bytes, n: nat)
    requires n <= |a| && n <= |b| && a[..n] == b[..n] && a[n..] == b[n..]
    ensures a == b
  {
    assert a == a[..n] + a[n..] && b == b[..n] + b[n..];
  }

  lemma SignZero(x: int)
    ensures Sign(x) == 0 <==> x == 0
  {
  }

  // ---------- Main results ----------

  lemma CompareFlips(l: Bytes, r: Bytes)
    requires WellFormed(l) && WellFormed(r)
    ensures Sign(Compare(l, r)) == -Sign(Compare(r, l))
  {
    CompareIsLex(l, r);
    CompareIsLex(r, l);
    LexFlip(Rank(l), Rank(r));
  }

  lemma CompareTransitive(a: Bytes, b: Bytes, c: Bytes)
    requires WellFormed(a) && WellFormed(b) && WellFormed(c)
    requires Compare(a, b) <= 0 && Compare(b, c) <= 0
    ensures Compare(a, c) <= 0
    ensures Compare(a, b) < 0 || Compare(b, c) < 0 ==> Compare(a, c) < 0
  {
    CompareIsLex(a, b);
    CompareIsLex(b, c);
    CompareIsLex(a, c);
    LexTransitive(Rank(a), Rank(b), Rank(c));
  }

  /** Equal means byte-equal, or a bare prefix on the left of a key that starts with it. */
  lemma CompareZeroIff(l: Bytes, r: Bytes)
    requires l != [] && r != [] && Readable(l, r)
    ensures Compare(l, r) == 0 <==> l == r || (BarePrefix(l) && l <= r)
  {
    if BarePrefix(l) {
      if r[0] == l[0] {
        MemcmpIsLex(l, r, SluggedLength);
        assert l[..SluggedLength] == l;
        LexZero(l, r[..SluggedLength]);
      }
    } else {
      CompareIsLex(l, r);
      LexZero(Rank(l), Rank(r));
      if Compare(l, r) == 0 {
        RankInjective(l, r);
      }
    }
  }

  // ---------- The order as later modules use it ----------

  /** The sign of the comparison. */
  function Order(l: Bytes, r: Bytes): int { Lex(Rank(l), Rank(r)) }

  predicate Less(l: Bytes, r: Bytes) { Order(l, r) < 0 }

  lemma OrderTotal(a: Bytes, b: Bytes)
    requires WellFormed(a) && WellFormed(b)
    ensures Order(a, b) == -Order(b, a)
    ensures Order(a, b) == 0 <==> a == b
  {
    LexFlip(Rank(a), Rank(b));
    LexZero(Rank(a), Rank(b));
    if Rank(a) == Rank(b) { RankInjective(a, b); }
  }

  lemma OrderTransitive(a: Bytes, b: Bytes, c: Bytes)
    requires Order(a, b) <= 0 && Order(b, c) <= 0
    ensures Order(a, c) <= 0
    ensures Order(a, b) < 0 || Order(b, c) < 0 ==> Order(a, c) < 0
  {
    LexTransitive(Rank(a), Rank(b), Rank(c));
  }

  lemma CompareIsOrder(l: Bytes, r: Bytes)
    requires WellFormed(l) && WellFormed(r)
    ensures Sign(Compare(l, r)) == Order(l, r)
  {
    CompareIsLex(l, r);
  }
}
