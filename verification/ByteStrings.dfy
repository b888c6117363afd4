/** Byte strings as the store sees them: lexicographic comparison and the
    fixed-width integer encodings of `utility.cpp`. */
module ByteStrings {

  type Byte = b: int | 0 <= b < 256
  type Bytes = seq<Byte>

  function Sign(x: int): int {
    if x < 0 then -1 else if x == 0 then 0 else 1
  }

  // ---------- Lexicographic order ----------

  /** The sign of the lexicographic comparison; a proper prefix is smaller. */
  function Lex(a: seq<int>, b: seq<int>): int {
    if a == [] && b == [] then 0
    else if a == [] then -1
    else if b == [] then 1
    else if a[0] != b[0] then (if a[0] < b[0] then -1 else 1)
    else Lex(a[1..], b[1..])
  }

  /** The C library's memcmp on the first `n` bytes of two buffers. */
  function Memcmp(a: Bytes, b: Bytes, n: nat): int
    requires n <= |a| && n <= |b|
    decreases n
  {
    if n == 0 then 0
    else if a[0] != b[0] then a[0] - b[0]
    else Memcmp(a[1..], b[1..], n - 1)
  }

  lemma {:induction false} MemcmpIsLex(a: Bytes, b: Bytes, n: nat)
    requires n <= |a| && n <= |b|
    ensures Sign(Memcmp(a, b, n)) == Lex(a[..n], b[..n])
    decreases n
  {
    if n > 0 && a[0] == b[0] {
      MemcmpIsLex(a[1..], b[1..], n - 1);
      assert a[..n][1..] == a[1..][..n - 1];
      assert b[..n][1..] == b[1..][..n - 1];
    }
  }

  /** memcmp over the shorter length, then shorter-first, is the lexicographic order. */
  lemma {:induction false} MemcmpThenSize(a: Bytes, b: Bytes)
    ensures var n := if |a| <= |b| then |a| else |b|;
            Lex(a, b) == (if Memcmp(a, b, n) != 0 then Sign(Memcmp(a, b, n)) else Sign(|a| - |b|))
    decreases |a|
  {
    if a != [] && b != [] && a[0] == b[0] {
      MemcmpThenSize(a[1..], b[1..]);
    }
  }

  lemma {:induction false} LexZero(a: seq<int>, b: seq<int>)
    ensures Lex(a, b) == 0 <==> a == b
    decreases |a|
  {
    if a != [] && b != [] && a[0] == b[0] {
      LexZero(a[1..], b[1..]);
      assert a == [a[0]] + a[1..] && b == [b[0]] + b[1..];
    }
  }

  lemma {:induction false} LexFlip(a: seq<int>, b: seq<int>)
    ensures Lex(a, b) == -Lex(b, a)
    decreases |a|
  {
    if a != [] && b != [] && a[0] == b[0] {
      LexFlip(a[1..], b[1..]);
    }
  }

  lemma {:induction false} LexTransitive(a: seq<int>, b: seq<int>, c: seq<int>)
    requires Lex(a, b) <= 0 && Lex(b, c) <= 0
    ensures Lex(a, c) <= 0
    ensures Lex(a, b) < 0 || Lex(b, c) < 0 ==> Lex(a, c) < 0
    decreases |a|
  {
    if a != [] && b != [] && c != [] && a[0] == b[0] == c[0] {
      LexTransitive(a[1..], b[1..], c[1..]);
    }
  }

  lemma {:induction false} LexCommonPrefix(p: seq<int>, a: seq<int>, b: seq<int>)
    ensures Lex(p + a, p + b) == Lex(a, b)
    decreases |p|
  {
    if p == [] {
      assert p + a == a && p + b == b;
    } else {
      LexCommonPrefix(p[1..], a, b);
      assert (p + a)[1..] == p[1..] + a && (p + b)[1..] == p[1..] + b;
    }
  }

  /** Equal-length heads decide unless they are equal. */
  lemma {:induction false} LexHeads(p: seq<int>, q: seq<int>, a: seq<int>, b: seq<int>)
    requires |p| == |q|
    ensures Lex(p + a, q + b) == if p == q then Lex(a, b) else Lex(p, q)
    decreases |p|
  {
    if p == [] {
      assert p + a == a && q + b == b;
    } else {
      assert (p + a)[1..] == p[1..] + a && (q + b)[1..] == q[1..] + b;
      LexHeads(p[1..], q[1..], a, b);
      assert p == [p[0]] + p[1..] && q == [q[0]] + q[1..];
    }
  }

  /** Whatever lies between two strings with a common prefix has that prefix. */
  lemma {:induction false} LexBetween(p: seq<int>, a: seq<int>, b: seq<int>, c: seq<int>)
    requires p <= a && p <= c
    requires Lex(a, b) <= 0 && Lex(b, c) <= 0
    ensures p <= b
    decreases |p|
  {
    if p != [] {
      assert a[0] == c[0] == p[0];
      LexBetween(p[1..], a[1..], b[1..], c[1..]);
      assert p == [p[0]] + p[1..] && b == [b[0]] + b[1..];
    }
  }

  lemma {:induction false} LexOfPrefix(p: seq<int>, a: seq<int>)
    requires p <= a
    ensures Lex(p, a) <= 0
    decreases |p|
  {
    if p != [] {
      LexOfPrefix(p[1..], a[1..]);
    }
  }

  // ---------- Fixed-width integers ----------

  function Pow256(width: nat): (r: nat)
    ensures r > 0
  {
    if width == 0 then 1 else 256 * Pow256(width - 1)
  }

  function BigEndian(n: nat, width: nat): (r: Bytes)
    ensures |r| == width
    decreases width
  {
    if width == 0 then [] else BigEndian(n / 256, width - 1) + [n % 256]
  }

  function FromBigEndian(b: Bytes): (r: nat)
    ensures r < Pow256(|b|)
    decreases |b|
  {
    if b == [] then 0 else 256 * FromBigEndian(b[..|b| - 1]) + b[|b| - 1]
  }

  function LittleEndian(n: nat, width: nat): (r: Bytes)
    ensures |r| == width
    decreases width
  {
    if width == 0 then [] else [n % 256] + LittleEndian(n / 256, width - 1)
  }

  function FromLittleEndian(b: Bytes): (r: nat)
    ensures r < Pow256(|b|)
    decreases |b|
  {
    if b == [] then 0 else b[0] + 256 * FromLittleEndian(b[1..])
  }

  lemma {:induction false} BigEndianRoundTrip(n: nat, width: nat)
    requires n < Pow256(width)
    ensures FromBigEndian(BigEndian(n, width)) == n
    decreases width
  {
    if width > 0 {
      BigEndianRoundTrip(n / 256, width - 1);
      var b := BigEndian(n, width);
      assert b[..|b| - 1] == BigEndian(n / 256, width - 1);
    }
  }

  lemma {:induction false} FromBigEndianRoundTrip(b: Bytes)
    ensures BigEndian(FromBigEndian(b), |b|) == b
    decreases |b|
  {
    if b != [] {
      FromBigEndianRoundTrip(b[..|b| - 1]);
      assert b == b[..|b| - 1] + [b[|b| - 1]];
    }
  }

  lemma {:induction false} LittleEndianRoundTrip(n: nat, width: nat)
    requires n < Pow256(width)
    ensures FromLittleEndian(LittleEndian(n, width)) == n
    decreases width
  {
    if width > 0 {
      LittleEndianRoundTrip(n / 256, width - 1);
      assert LittleEndian(n, width)[1..] == LittleEndian(n / 256, width - 1);
    }
  }

  lemma {:induction false} FromLittleEndianRoundTrip(b: Bytes)
    ensures LittleEndian(FromLittleEndian(b), |b|) == b
    decreases |b|
  {
    if b != [] {
      FromLittleEndianRoundTrip(b[1..]);
      var n := FromLittleEndian(b);
      assert n % 256 == b[0] && n / 256 == FromLittleEndian(b[1..]);
      assert b == [b[0]] + b[1..];
    }
  }

  /** Numeric order is unsigned lexicographic order of the big-endian bytes. */
  lemma {:induction false} BigEndianOrder(m: nat, n: nat, width: nat)
    requires m < Pow256(width) && n < Pow256(width)
    ensures Lex(BigEndian(m, width), BigEndian(n, width)) == Sign(m - n)
    decreases width
  {
    if width > 0 {
      BigEndianOrder(m / 256, n / 256, width - 1);
      LexHeads(BigEndian(m / 256, width - 1), BigEndian(n / 256, width - 1), [m % 256], [n % 256]);
      LexZero(BigEndian(m / 256, width - 1), BigEndian(n / 256, width - 1));
    }
  }

  // ---------- utility.cpp ----------

  const Max64: nat := 0x1_0000_0000_0000_0000
  const Max32: nat := 0x1_0000_0000

  lemma PowersOf256()
    ensures Pow256(4) == Max32 && Pow256(8) == Max64
  {
    assert Pow256(2) == 0x1_0000;
    assert Pow256(4) == 0x1_0000_0000;
    assert Pow256(6) == 0x1_0000_0000_0000;
  }

  predicate IsUint64(n: int) { 0 <= n < Max64 }
  predicate IsUint32(n: int) { 0 <= n < Max32 }

  /** `__builtin_bswap32/64`: the integer whose little-endian image is the big-endian image of `n`. */
  function Bswap(n: nat, width: nat): (r: nat)
    ensures r < Pow256(width)
  {
    FromLittleEndian(BigEndian(n, width))
  }

  lemma {:induction false} BswapTwice(n: nat, width: nat)
    requires n < Pow256(width)
    ensures Bswap(Bswap(n, width), width) == n
  {
    var b := BigEndian(n, width);
    FromLittleEndianRoundTrip(b);
    BigEndianIsReverse(FromLittleEndian(b), width);
    BigEndianRoundTrip(n, width);
    BigEndianOfReverse(b);
  }

  function Reverse(b: Bytes): (r: Bytes)
    ensures |r| == |b|
  {
    if b == [] then [] else Reverse(b[1..]) + [b[0]]
  }

  lemma {:induction false} BigEndianIsReverse(n: nat, width: nat)
    ensures BigEndian(n, width) == Reverse(LittleEndian(n, width))
    decreases width
  {
    if width > 0 {
      BigEndianIsReverse(n / 256, width - 1);
      assert LittleEndian(n, width)[1..] == LittleEndian(n / 256, width - 1);
    }
  }

  lemma {:induction false} BigEndianOfReverse(b: Bytes)
    ensures FromLittleEndian(Reverse(b)) == FromBigEndian(b)
    decreases |b|
  {
    if b != [] {
      var h := b[..|b| - 1];
      BigEndianOfReverse(h);
      ReverseLast(h, b[|b| - 1]);
      assert b == h + [b[|b| - 1]];
    }
  }

  lemma {:induction false} ReverseLast(h: Bytes, x: Byte)
    ensures Reverse(h + [x]) == [x] + Reverse(h)
    decreases |h|
  {
    if h == [] {
      assert h + [x] == [x];
    } else {
      ReverseLast(h[1..], x);
      assert (h + [x])[1..] == h[1..] + [x];
    }
  }

  /** The bytes of the swapped integer as a little-endian machine stores them. */
  function IntToString(n: nat): (r: Bytes)
    requires n < 0x1_0000_0000_0000_0000
    ensures |r| == 8
  {
    LittleEndian(Bswap(n, 8), 8)
  }

  function StringToInt(c: Bytes): (r: nat)
    requires |c| == 8
    ensures IsUint64(r)
  {
    PowersOf256();
    Bswap(FromLittleEndian(c), 8)
  }

  function ShortToString(n: nat): (r: Bytes)
    requires n < 0x1_0000_0000
    ensures |r| == 4
  {
    LittleEndian(Bswap(n, 4), 4)
  }

  function StringToShort(c: Bytes): (r: nat)
    requires |c| == 4
    ensures IsUint32(r)
  {
    PowersOf256();
    Bswap(FromLittleEndian(c), 4)
  }

  /** Both string forms are the big-endian bytes, whatever the swap does inside. */
  lemma {:induction false} StringsAreBigEndian(n: nat, width: nat)
    requires n < Pow256(width)
    ensures LittleEndian(Bswap(n, width), width) == BigEndian(n, width)
    ensures Bswap(FromLittleEndian(BigEndian(n, width)), width) == n
  {
    FromLittleEndianRoundTrip(BigEndian(n, width));
    BswapTwice(n, width);
  }

  /** Revisions: the round trip and the order embedding. */
  lemma {:induction false} IntStrings(m: nat, n: nat)
    requires IsUint64(m) && IsUint64(n)
    ensures StringToInt(IntToString(m)) == m
    ensures Lex(IntToString(m), IntToString(n)) == Sign(m - n)
    ensures IntToString(m) == IntToString(n) <==> m == n
  {
    PowersOf256();
    StringsAreBigEndian(m, 8);
    StringsAreBigEndian(n, 8);
    BigEndianOrder(m, n, 8);
  }

  lemma {:induction false} StringIntRoundTrip(c: Bytes)
    requires |c| == 8
    ensures IntToString(StringToInt(c)) == c
  {
    PowersOf256();
    BswapTwice(FromLittleEndian(c), 8);
    FromLittleEndianRoundTrip(c);
  }

  lemma {:induction false} ShortStrings(m: nat, n: nat)
    requires IsUint32(m) && IsUint32(n)
    ensures StringToShort(ShortToString(m)) == m
    ensures ShortToString(m) == ShortToString(n) <==> m == n
  {
    PowersOf256();
    StringsAreBigEndian(m, 4);
    StringsAreBigEndian(n, 4);
  }
}
