/** `encodeTimeStamp` and its two decoders: base 64, most significant digit first, no
    leading zero digit. */
module StampCodec {
  import opened ByteStrings
  import opened Arithmetic

  /** `encodeTable`, "-_A..Za..z0..9", by runs. */
  function Digit(d: int): (c: Byte)
    requires 0 <= d < 64
  {
    if d == 0 then 45
    else if d == 1 then 95
    else if d < 28 then 65 + (d - 2)
    else if d < 54 then 97 + (d - 28)
    else 48 + (d - 54)
  }

  /** `decodeTable`, by runs; -1 marks the other characters. */
  function Value(c: Byte): (v: int)
    ensures -1 <= v < 64
  {
    if c == 45 then 0
    else if c == 95 then 1
    else if 65 <= c <= 90 then c - 65 + 2
    else if 97 <= c <= 122 then c - 97 + 28
    else if 48 <= c <= 57 then c - 48 + 54
    else -1
  }

  /** The tables are inverse to each other. */
  lemma TablesInverse(d: int, c: Byte)
    ensures 0 <= d < 64 ==> Value(Digit(d)) == d
    ensures Value(c) >= 0 ==> Digit(Value(c)) == c
  {
  }

  // ---------- Encoding ----------

  function Encoded(t: nat): Bytes {
    if t == 0 then [] else Encoded(t / 64) + [Digit(t % 64)]
  }

  function Pow64(k: nat): (r: nat)
    ensures r > 0
  {
    if k == 0 then 1 else 64 * Pow64(k - 1)
  }

  /** The runs of the table by their ends: "_-", "AZ", "az" and "09". */
  lemma KnownEncodings()
    ensures Encoded(64) == [95, 45] && Encoded(2 * 64 + 27) == [65, 90]
    ensures Encoded(28 * 64 + 53) == [97, 122] && Encoded(54 * 64 + 63) == [48, 57]
  {
    assert Encoded(0) == [];
    assert Encoded(1) == [95] && Encoded(2) == [65] && Encoded(28) == [97] && Encoded(54) == [48];
  }

  lemma {:induction false} EncodedLength(t: nat, k: nat)
    requires t < Pow64(k)
    ensures |Encoded(t)| <= k
    decreases k
  {
    if t > 0 { EncodedLength(t / 64, k - 1); }
  }

  lemma ElevenDigits()
    ensures Max64 == 16 * Pow64(10) && Max64 < Pow64(11)
  {
    assert Pow64(3) == 0x4_0000;
    assert Pow64(6) == 0x10_0000_0000;
    assert Pow64(9) == 0x40_0000_0000_0000;
  }

  /** The digits written backwards into an eleven-byte buffer never run past its front. */
  method EncodeTimeStamp(t: nat) returns (r: Bytes)
    requires IsUint64(t)
    ensures r == Encoded(t) && |r| <= 11
  {
    ElevenDigits();
    EncodedLength(t, 11);
    var buffer := new Byte[11](_ => 0);
    var pos, rest := 11, t;
    while rest > 0
      invariant 0 <= pos <= 11
      invariant Encoded(t) == Encoded(rest) + buffer[pos..]
      decreases rest
    {
      ghost var tail := buffer[pos..];
      assert Encoded(rest) == Encoded(rest / 64) + [Digit(rest % 64)];
      pos := pos - 1;
      buffer[pos] := Digit(rest % 64);
      assert buffer[pos..] == [Digit(rest % 64)] + tail;
      rest := rest / 64;
    }
    r := buffer[pos..];
  }

  // ---------- Decoding ----------

  /** `(r << 6) | v` on 64-bit words, where the cast turns -1 into 255. */
  function ShiftIn(r: nat, v: int): nat
    requires -1 <= v < 64
  {
    var shifted := r * 64 % Max64;
    if v >= 0 then shifted + v else shifted - shifted % 256 + 255
  }

  /** A shift by six bits out of the top of a 64-bit word, with the digit below; an unknown
      character instead sets the low eight bits and leaves the others as shifted. */
  lemma ShiftInIs(r: nat, v: int)
    requires -1 <= v < 64
    ensures v >= 0 ==> ShiftIn(r, v) == r % 0x400_0000_0000_0000 * 64 + v
    ensures v < 0 ==> ShiftIn(r, v) / 256 == r % 0x400_0000_0000_0000 * 64 / 256 && ShiftIn(r, v) % 256 == 255
    ensures ShiftIn(r, v) < Max64
  {
    var q, low := r / 0x400_0000_0000_0000, r % 0x400_0000_0000_0000;
    assert r * 64 == q * Max64 + low * 64;
    WrapsTo(q, low * 64);
  }

  lemma WrapsTo(q: nat, x: nat)
    requires x < Max64
    ensures (q * Max64 + x) % Max64 == x
  {
    if q > 0 {
      WrapsTo(q - 1, x);
      assert q * Max64 + x == (q - 1) * Max64 + x + Max64;
    }
  }

  function Decoded(s: Bytes): nat {
    if s == [] then 0 else ShiftIn(Decoded(s[..|s| - 1]), Value(s[|s| - 1]))
  }

  method DecodeTimeStamp(s: Bytes) returns (r: nat)
    ensures r == Decoded(s)
  {
    r := 0;
    for i := 0 to |s|
      invariant r == Decoded(s[..i])
    {
      r := ShiftIn(r, Value(s[i]));
      assert s[..i + 1][..i] == s[..i];
    }
    assert s[..|s|] == s;
  }

  predicate Clean(s: Bytes) { forall i | 0 <= i < |s| :: Value(s[i]) >= 0 }

  /** At most eleven characters, all of the table; anything else decodes to 0. */
  method DecodeTimeStampWithCheck(s: Bytes) returns (r: nat)
    ensures r == if |s| <= 11 && Clean(s) then Decoded(s) else 0
  {
    if |s| > 11 {
      return 0;
    }
    r := 0;
    for i := 0 to |s|
      invariant r == Decoded(s[..i]) && Clean(s[..i])
    {
      var c := Value(s[i]);
      if c < 0 {
        return 0;
      }
      r := ShiftIn(r, c);
      assert s[..i + 1][..i] == s[..i];
    }
    assert s[..|s|] == s;
  }

  // ---------- Round trips ----------

  lemma {:induction false} DecodeEncode(t: nat)
    requires IsUint64(t)
    ensures Decoded(Encoded(t)) == t && Clean(Encoded(t)) && |Encoded(t)| <= 11
    decreases t
  {
    ElevenDigits();
    EncodedLength(t, 11);
    if t > 0 {
      DecodeEncode(t / 64);
      TablesInverse(t % 64, 0);
      var s := Encoded(t);
      assert s[..|s| - 1] == Encoded(t / 64);
      hide Digit, Value;
      assert t / 64 * 64 % Max64 == t / 64 * 64;
    }
  }

  /** The number a clean string spells, without wrap-around. */
  function Spelled(s: Bytes): nat
    requires Clean(s)
  {
    if s == [] then 0 else Spelled(s[..|s| - 1]) * 64 + Value(s[|s| - 1])
  }

  lemma {:induction false} SpelledBounds(s: Bytes)
    requires Clean(s) && s != []
    ensures Value(s[0]) * Pow64(|s| - 1) <= Spelled(s) < (Value(s[0]) + 1) * Pow64(|s| - 1)
    decreases |s|
  {
    if |s| > 1 {
      SpelledBounds(s[..|s| - 1]);
      Scale(Value(s[0]), Pow64(|s| - 2), Spelled(s[..|s| - 1]), Value(s[|s| - 1]));
    } else {
      assert s[..0] == [];
    }
  }

  lemma Scale(v: nat, p: nat, x: nat, d: nat)
    requires v * p <= x < (v + 1) * p && d < 64
    ensures v * (64 * p) <= x * 64 + d < (v + 1) * (64 * p)
  {
    assert v * (64 * p) == 64 * (v * p);
    assert (v + 1) * (64 * p) == 64 * ((v + 1) * p);
  }

  lemma {:induction false} DecodedIsSpelled(s: Bytes)
    requires Clean(s) && Spelled(s) < Max64
    ensures Decoded(s) == Spelled(s)
    decreases |s|
  {
    if s != [] { DecodedIsSpelled(s[..|s| - 1]); }
  }

  lemma {:induction false} EncodeSpelled(s: Bytes)
    requires Clean(s) && (s != [] ==> Value(s[0]) != 0)
    ensures Encoded(Spelled(s)) == s
    decreases |s|
  {
    if s != [] {
      var front, c := s[..|s| - 1], s[|s| - 1];
      TablesInverse(0, c);
      SpelledBounds(s);
      MulMonotone(1, Value(s[0]), Pow64(|s| - 1));
      EncodeSpelled(front);
      EncodedOfSum(Spelled(front), Value(c), Spelled(s));
      assert s == front + [c];
    }
  }

  lemma EncodedOfSum(x: nat, d: nat, t: nat)
    requires d < 64 && t == x * 64 + d && t > 0
    ensures Encoded(t) == Encoded(x) + [Digit(d)]
  {
    assert t / 64 == x && t % 64 == d;
  }

  /** Strings that are the encoding of a 64-bit number, by their characters alone. */
  predicate Canonical(s: Bytes) {
    |s| <= 11 && Clean(s) && (s != [] ==> Value(s[0]) > 0) && (|s| == 11 ==> Value(s[0]) < 16)
  }

  lemma CanonicalFits(s: Bytes)
    requires Canonical(s)
    ensures Spelled(s) < Max64
  {
    ElevenDigits();
    if s != [] {
      SpelledBounds(s);
      hide Spelled, Clean, Value;
      if |s| == 11 {
        MulMonotone(Value(s[0]) + 1, 16, Pow64(10));
      } else {
        Pow64Monotone(|s|, 10);
        MulMonotone(Value(s[0]) + 1, 64, Pow64(|s| - 1));
      }
    }
  }

  lemma {:induction false} Pow64Monotone(j: nat, k: nat)
    requires j <= k
    ensures Pow64(j) <= Pow64(k)
    decreases k
  {
    if j < k { Pow64Monotone(j, k - 1); }
  }

  /** Checked decoding followed by encoding gives a string back iff it is canonical. */
  lemma EncodeDecodeIff(s: Bytes, r: nat)
    requires r == if |s| <= 11 && Clean(s) then Decoded(s) else 0
    ensures IsUint64(r) && Encoded(r) == s <==> Canonical(s)
  {
    if Canonical(s) {
      CanonicalRoundTrip(s);
    }
    if IsUint64(r) && Encoded(r) == s {
      EncodedIsCanonical(r);
    }
  }

  lemma CanonicalRoundTrip(s: Bytes)
    requires Canonical(s)
    ensures IsUint64(Decoded(s)) && Encoded(Decoded(s)) == s
  {
    CanonicalFits(s);
    DecodedIsSpelled(s);
    EncodeSpelled(s);
  }

  lemma EncodedIsCanonical(t: nat)
    requires IsUint64(t)
    ensures Canonical(Encoded(t))
  {
    DecodeEncode(t);
    SpelledOfEncoded(t);
    var s := Encoded(t);
    if t > 0 {
      FirstDigit(t);
      SpelledBounds(s);
      ElevenDigits();
      hide Spelled, Clean, Value, Encoded, Pow64;
      if |s| == 11 && Value(s[0]) >= 16 { MulMonotone(16, Value(s[0]), Pow64(10)); }
    }
  }

  lemma {:induction false} FirstDigit(t: nat)
    requires t > 0
    ensures Encoded(t) != [] && Value(Encoded(t)[0]) > 0
    decreases t
  {
    TablesInverse(t % 64, 0);
    if t >= 64 {
      FirstDigit(t / 64);
      assert Encoded(t)[0] == Encoded(t / 64)[0];
    } else {
      assert Encoded(t / 64) == [];
    }
  }

  lemma {:induction false} SpelledOfEncoded(t: nat)
    ensures Clean(Encoded(t)) && Spelled(Encoded(t)) == t
    decreases t
  {
    if t > 0 {
      SpelledOfEncoded(t / 64);
      TablesInverse(t % 64, 0);
      var s := Encoded(t);
      assert s[..|s| - 1] == Encoded(t / 64);
    }
  }
}
