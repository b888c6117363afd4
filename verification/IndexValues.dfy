/** The two values that stand at the head of an index key, as bytes: None in the
    primary index, an array holding one timestamp in the secondary index. */
module IndexValues {
  import opened ByteStrings
  import opened VPack
  import opened VPackOrder

  /** `Builder::add(Value(int64))`: the short form where it exists. */
  function Integer(n: int): Value {
    if -6 <= n <= 9 then SmallInt(n) else Int(n)
  }

  /** `generateSecondarySlice`. */
  function Timestamp(n: int): Value { Array([Integer(n)]) }

  function EncodeInteger(n: int): (r: Bytes)
    requires IsInt64(n)
    ensures 1 <= |r| <= 9
  {
    if 0 <= n <= 9 then [0x30 + n]
    else if -6 <= n < 0 then [0x40 + n]
    else
      var width := IntLength(n);
      IntLengthFits(n);
      [0x1f + width] + LittleEndian(if n >= 0 then n else n + Pow256(width), width)
  }

  /** An array of one item has no index table: head, total length, item. */
  function EncodeTimestamp(n: int): (r: Bytes)
    requires IsInt64(n)
    ensures 3 <= |r| <= 11 && r[0] == 0x02 && r[1] == |r|
  {
    var item := EncodeInteger(n);
    [0x02, 2 + |item|] + item
  }

  const EncodedNone: Bytes := [0x00]

  lemma IntLengthFits(n: int)
    requires IsInt64(n)
    ensures -(Pow256(IntLength(n)) / 2) <= n < Pow256(IntLength(n)) / 2
  {
    assert Pow256(1) == 0x100;
    assert Pow256(2) == 0x1_0000;
    assert Pow256(3) == 0x100_0000;
    assert Pow256(4) == 0x1_0000_0000;
    assert Pow256(5) == 0x100_0000_0000;
    assert Pow256(6) == 0x1_0000_0000_0000;
    assert Pow256(7) == 0x100_0000_0000_0000;
    assert Pow256(8) == 0x1_0000_0000_0000_0000;
  }

  /** The encoding starts with the byte by which its type is looked up, and takes no byte
      more than the number needs in two's complement. */
  lemma EncodingIsShortest(n: int)
    requires IsInt64(n)
    ensures EncodeInteger(n)[0] == Head(Integer(n))
    ensures |EncodeInteger(n)| == if Integer(n).SmallInt? then 1 else 1 + IntLength(n)
    ensures forall w: nat | w >= 1 && -(Pow256(w) / 2) <= n < Pow256(w) / 2 :: IntLength(n) <= w
  {
    forall w: nat | w >= 1 && w < IntLength(n) ensures !(-(Pow256(w) / 2) <= n < Pow256(w) / 2) {
      NoShorter(n, w);
    }
    IntLengthFits(n);
  }

  lemma NoShorter(n: int, w: nat)
    requires IsInt64(n) && 1 <= w < IntLength(n)
    ensures !(-(Pow256(w) / 2) <= n < Pow256(w) / 2)
  {
    assert Pow256(1) == 0x100;
    assert Pow256(2) == 0x1_0000;
    assert Pow256(3) == 0x100_0000;
    assert Pow256(4) == 0x1_0000_0000;
    assert Pow256(5) == 0x100_0000_0000;
    assert Pow256(6) == 0x1_0000_0000_0000;
    assert Pow256(7) == 0x100_0000_0000_0000;
  }

  /** Reading an integer back; total, so that it may also be asked of other bytes. */
  function DecodeInteger(b: Bytes): int {
    if b == [] then 0
    else if 0x30 <= b[0] <= 0x39 then b[0] - 0x30
    else if 0x3a <= b[0] <= 0x3f then b[0] - 0x40
    else if 0x20 <= b[0] <= 0x27 && |b| > b[0] - 0x1f then
      var width := b[0] - 0x1f;
      var u := FromLittleEndian(b[1..1 + width]);
      if u < Pow256(width) / 2 then u else u - Pow256(width)
    else 0
  }

  lemma {:induction false} IntegerRoundTrip(n: int, rest: Bytes)
    requires IsInt64(n)
    ensures DecodeInteger(EncodeInteger(n) + rest) == n
  {
    if n < -6 || n > 9 {
      var width := IntLength(n);
      IntLengthFits(n);
      var u := if n >= 0 then n else n + Pow256(width);
      var b := EncodeInteger(n) + rest;
      assert b[1..1 + width] == LittleEndian(u, width);
      LittleEndianRoundTrip(u, width);
    }
  }

  /** `Slice::byteSize`, as far as the code asks for it. */
  function ByteSize(b: Bytes): nat {
    if |b| > 1 && b[0] == 0x02 then b[1] else 1
  }

  function DecodeTimestamp(b: Bytes): int {
    if |b| > 2 then DecodeInteger(b[2..]) else 0
  }

  /** The bytes start with an encoded index value. */
  predicate StartsWithValue(b: Bytes) {
    b != [] &&
    (b[0] == 0x00 ||
     (IsInt64(DecodeTimestamp(b)) && EncodeTimestamp(DecodeTimestamp(b)) <= b))
  }

  function DecodeValue(b: Bytes): Value {
    if b == [] || b[0] == 0x00 then None else Timestamp(DecodeTimestamp(b))
  }

  lemma {:induction false} TimestampRoundTrip(n: int, rest: Bytes)
    requires IsInt64(n)
    ensures StartsWithValue(EncodeTimestamp(n) + rest)
    ensures DecodeTimestamp(EncodeTimestamp(n) + rest) == n
    ensures DecodeValue(EncodeTimestamp(n) + rest) == Timestamp(n)
    ensures ByteSize(EncodeTimestamp(n) + rest) == |EncodeTimestamp(n)|
  {
    var b := EncodeTimestamp(n) + rest;
    assert b[2..] == EncodeInteger(n) + rest;
    IntegerRoundTrip(n, rest);
  }

  /** Self-delimiting: bytes that start with an encoded timestamp carry that timestamp. */
  lemma {:induction false} TimestampPrefix(n: int, b: Bytes)
    requires IsInt64(n) && EncodeTimestamp(n) <= b
    ensures StartsWithValue(b) && DecodeTimestamp(b) == n
    ensures ByteSize(b) == |EncodeTimestamp(n)| && b == EncodeTimestamp(n) + b[ByteSize(b)..]
  {
    var rest := b[|EncodeTimestamp(n)|..];
    assert b == EncodeTimestamp(n) + rest;
    TimestampRoundTrip(n, rest);
  }

  /** Timestamp slices compare as the numbers they hold, and above None. */
  lemma TimestampsCompareAsNumbers(m: int, n: int)
    requires IsInt64(m) && IsInt64(n)
    ensures CompareValues(Timestamp(m), Timestamp(n)) == Sign(m - n)
    ensures CompareValues(None, Timestamp(n)) == -1 && CompareValues(Timestamp(n), None) == 1
  {
    SignedIntegersAreExact();
    NumbersExactIff(Integer(m), Integer(n));
    NumbersAsValues(Integer(m), Integer(n));
    assert Integer(m) in SignedIntegers && Integer(n) in SignedIntegers;
    assert CompareItems([], []) == 0;
    assert CompareValues(Integer(m), Integer(n)) == Sign(m - n);
    assert Rest([Integer(m)]) == [] && Rest([Integer(n)]) == [];
  }
}
