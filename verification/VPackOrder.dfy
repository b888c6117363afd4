/** When `compareSlices` is a total preorder on nested arrays, and when its equality is
    equality up to trailing nulls: in both cases exactly in terms of the numbers used. */
module VPackOrder {
  import opened ByteStrings
  import opened VPack
  import opened Arithmetic

  // ---------- Where the conversion to double is harmless ----------

  const ExactBound: int := 0x20_0000_0000_0000

  lemma RoundBounds(n: nat, unit: nat, lo: nat, hi: nat)
    requires unit > 0 && lo * unit <= n < hi * unit
    ensures lo * unit <= RoundToMultiple(n, unit) <= hi * unit
  {
    var q := n / unit;
    assert q * unit <= n < (q + 1) * unit;
    if q < lo { MulMonotone(q + 1, lo, unit); }
    if q >= hi { MulMonotone(hi, q, unit); }
    MulMonotone(lo, q, unit);
    MulMonotone(q + 1, hi, unit);
    MulMonotone(q, q + 1, unit);
  }

  lemma {:induction false} Pow2Monotone(j: nat, k: nat)
    requires j <= k
    ensures Pow2(j) <= Pow2(k)
    decreases k
  {
    if j < k { Pow2Monotone(j, k - 1); }
  }

  lemma {:induction false} DroppedBitsMonotone(m: nat, n: nat)
    requires m <= n
    ensures DroppedBits(m) <= DroppedBits(n)
    decreases n
  {
    if m >= ExactBound { DroppedBitsMonotone(m / 2, n / 2); }
  }

  lemma RoundMonotone(m: nat, n: nat, unit: nat)
    requires m <= n && unit > 0
    ensures RoundToMultiple(m, unit) <= RoundToMultiple(n, unit)
  {
    QuotientMonotone(m, n, unit);
    var p, q := m / unit, n / unit;
    if p == q {
      MulMonotone(q, q + 1, unit);
      assert m == p * unit + m % unit && n == q * unit + n % unit;
    } else {
      MulMonotone(p, p + 1, unit);
      MulMonotone(p + 1, q, unit);
      MulMonotone(q, q + 1, unit);
    }
  }

  lemma QuotientMonotone(m: nat, n: nat, unit: nat)
    requires m <= n && unit > 0
    ensures m / unit <= n / unit
  {
    var p, q := m / unit, n / unit;
    assert p * unit <= m && n < q * unit + unit;
    if p > q {
      MulMonotone(q + 1, p, unit);
    }
  }

  lemma ToDoubleMonotoneNat(m: nat, n: nat)
    requires m <= n
    ensures ToDouble(m) <= ToDouble(n)
  {
    DroppedBitsMonotone(m, n);
    var j, k := DroppedBits(m), DroppedBits(n);
    if j == k {
      RoundMonotone(m, n, Pow2(j));
    } else {
      Pow2Monotone(j + 1, k);
      var half := 0x10_0000_0000_0000;
      RoundBounds(m, Pow2(j), 0, ExactBound);
      RoundBounds(n, Pow2(k), half, ExactBound);
      MulMonotone(2 * Pow2(j), Pow2(k), half);
    }
  }

  /** Rounding to a double never reverses an order. */
  lemma ToDoubleMonotone(m: int, n: int)
    requires m <= n
    ensures ToDouble(m) <= ToDouble(n)
  {
    if 0 <= m {
      ToDoubleMonotoneNat(m, n);
    } else if n < 0 {
      ToDoubleMonotoneNat(-n, -m);
    } else {
      ToDoubleMonotoneNat(0, -m);
      ToDoubleMonotoneNat(0, n);
    }
  }

  lemma ToDoubleExact(n: int)
    requires -ExactBound <= n <= ExactBound
    ensures ToDouble(n) == n
  {
    if -ExactBound < n < ExactBound {
    } else {
      assert DroppedBits(ExactBound) == 1;
      assert Pow2(1) == 2;
    }
  }

  // ---------- The conversion is to the nearest double ----------

  predicate IsDouble(d: int, m: int, k: nat) { -ExactBound <= m <= ExactBound && d == m * Pow2(k) }

  /** An integer that a double holds: 53 bits and a power of two. */
  ghost predicate Representable(d: int) { exists m, k: nat :: IsDouble(d, m, k) }

  function Distance(a: int, b: int): nat { if a >= b then a - b else b - a }

  lemma NearestMultiple(n: nat, unit: nat, x: int)
    requires unit > 0
    ensures Distance(RoundToMultiple(n, unit), n) <= Distance(x * unit, n)
  {
    var q, rem := n / unit, n % unit;
    assert n == q * unit + rem && (q + 1) * unit == q * unit + unit;
    if x <= q { MulMonotone(x, q, unit); } else { MulMonotone(q + 1, x, unit); }
  }

  lemma {:induction false} Pow2Sum(j: nat, k: nat)
    ensures Pow2(j + k) == Pow2(j) * Pow2(k)
    decreases j
  {
    if j > 0 { Pow2Sum(j - 1, k); }
  }

  /** A double with at least 53 bits above the unit is a multiple of it. */
  lemma LargeIsMultiple(d: int, m: int, j: nat, k: nat) returns (x: int)
    requires IsDouble(d, m, j) && k > 0 && d >= 0x10_0000_0000_0000 * Pow2(k)
    ensures d == x * Pow2(k)
  {
    if j >= k {
      Pow2Sum(j - k, k);
      x := m * Pow2(j - k);
      assert m * (Pow2(j - k) * Pow2(k)) == x * Pow2(k);
    } else {
      x := 0x10_0000_0000_0000;
      Pow2Sum(k - j, j);
      MantissaIsFull(m, Pow2(j), k - j);
    }
  }

  /** Then the exponent is at most one short, and the mantissa is a power of two. */
  lemma MantissaIsFull(m: int, p: nat, short: nat)
    requires m <= ExactBound && p > 0 && short > 0 && m * p >= 0x10_0000_0000_0000 * (Pow2(short) * p)
    ensures m * p == 0x10_0000_0000_0000 * (Pow2(short) * p)
  {
    MulMonotone(m, ExactBound, p);
    if short >= 2 {
      Pow2Monotone(2, short);
      assert Pow2(2) == 4;
      MulMonotone(4, Pow2(short), p);
      assert false;
    } else {
      assert Pow2(1) == 2;
      assert m * p >= ExactBound * p;
    }
  }

  lemma NearestNat(n: nat, d: int, m: int, j: nat)
    requires IsDouble(d, m, j)
    ensures Distance(ToDouble(n), n) <= Distance(d, n)
  {
    var k := DroppedBits(n);
    var unit := Pow2(k);
    if k == 0 {
      NearestMultiple(n, unit, d);
    } else if d < 0x10_0000_0000_0000 * unit {
      NearestMultiple(n, unit, 0x10_0000_0000_0000);
    } else {
      var x := LargeIsMultiple(d, m, j, k);
      NearestMultiple(n, unit, x);
    }
  }

  lemma DoubleIsRepresentable(n: nat)
    ensures Representable(ToDouble(n))
  {
    var k := DroppedBits(n);
    var unit := Pow2(k);
    var q := n / unit;
    assert n == q * unit + n % unit;
    if q >= ExactBound { MulMonotone(ExactBound, q, unit); }
    assert IsDouble(ToDouble(n), q, k) || IsDouble(ToDouble(n), q + 1, k);
  }

  /** The converted number is a double, no double is nearer to the integer, and where the
      integer lies midway the even multiple of the last unit is taken. */
  lemma ToDoubleNearest(n: int, d: int)
    requires Representable(d)
    ensures Representable(ToDouble(n)) && Distance(ToDouble(n), n) <= Distance(d, n)
    ensures var unit := Pow2(DroppedBits(Distance(n, 0)));
            2 * Distance(ToDouble(n), n) <= unit && (2 * Distance(ToDouble(n), n) == unit ==> EvenMultiple(ToDouble(n), unit))
  {
    var m, k: nat :| IsDouble(d, m, k);
    TieIsEven(Distance(n, 0), Pow2(DroppedBits(Distance(n, 0))));
    if n >= 0 {
      NearestNat(n, d, m, k);
      DoubleIsRepresentable(n);
    } else {
      assert IsDouble(-d, -m, k);
      NearestNat(-n, -d, -m, k);
      DoubleIsRepresentable(-n);
      NegatedDouble(ToDouble(-n));
      NegatedEven(ToDouble(-n), Pow2(DroppedBits(-n)));
    }
  }

  ghost predicate EvenMultiple(x: int, unit: nat) { exists h: int :: x == Twice(h) * unit }

  function Twice(h: int): int { 2 * h }

  lemma NegatedEven(x: int, unit: nat)
    ensures EvenMultiple(x, unit) ==> EvenMultiple(-x, unit)
  {
    if EvenMultiple(x, unit) {
      var h :| x == Twice(h) * unit;
      assert -x == Twice(-h) * unit;
    }
  }

  lemma NegatedDouble(x: int)
    requires Representable(x)
    ensures Representable(-x)
  {
    var m, k: nat :| IsDouble(x, m, k);
    assert IsDouble(-x, -m, k);
  }

  lemma TieIsEven(n: nat, unit: nat)
    requires unit > 0
    ensures var x := RoundToMultiple(n, unit);
            2 * Distance(x, n) <= unit && (2 * Distance(x, n) == unit ==> EvenMultiple(x, unit))
  {
    var q, rem := n / unit, n % unit;
    assert n == q * unit + rem && (q + 1) * unit == q * unit + unit;
    if q % 2 == 0 {
      assert q * unit == Twice(q / 2) * unit;
    } else {
      assert (q + 1) * unit == Twice((q + 1) / 2) * unit;
    }
  }

  // ---------- Numbers alone ----------

  /** The comparison of two numbers is exact iff they have one type, are equal,
      or stay apart when both are rounded to a double. */
  lemma NumbersExactIff(l: Value, r: Value)
    requires IsNumber(l) && IsNumber(r)
    ensures CompareNumbers(l, r) == Sign(l.n - r.n)
       <==> SameType(l, r) || l.n == r.n || ToDouble(l.n) != ToDouble(r.n)
  {
    NumbersInOrder(l, r);
    NumbersInOrder(r, l);
  }

  /** Whatever the types, comparing below leaves the doubles in order, and for one type
      the numbers. */
  lemma NumbersInOrder(l: Value, r: Value)
    requires IsNumber(l) && IsNumber(r)
    ensures CompareNumbers(l, r) <= 0 ==> ToDouble(l.n) <= ToDouble(r.n)
    ensures CompareNumbers(l, r) < 0 ==> ToDouble(l.n) < ToDouble(r.n) || (SameType(l, r) && l.n < r.n)
    ensures l.n <= r.n ==> ToDouble(l.n) <= ToDouble(r.n)
  {
    if l.n <= r.n { ToDoubleMonotone(l.n, r.n); }
  }

  /** Exactly when two comparisons chain: the only obstacle is a number of another type
      between two of one type that stand the other way round; strictly, a tie of doubles
      between the outer two when their types differ. */
  lemma NumbersChainIff(a: Value, b: Value, c: Value)
    requires IsNumber(a) && IsNumber(b) && IsNumber(c)
    requires CompareNumbers(a, b) <= 0 && CompareNumbers(b, c) <= 0
    ensures CompareNumbers(a, c) <= 0 <==> !(SameType(a, c) && !SameType(a, b) && a.n > c.n)
    ensures CompareNumbers(a, b) < 0 || CompareNumbers(b, c) < 0 ==>
              (CompareNumbers(a, c) < 0 <==> SameType(a, c) || ToDouble(a.n) != ToDouble(c.n))
  {
    NumbersInOrder(a, b);
    NumbersInOrder(b, c);
    NumbersInOrder(c, a);
    hide ToDouble;
  }

  /** 2^53 and 2^53 + 1 are distinct signed integers that both equal the unsigned
      2^53: over all numbers the comparison is not transitive. */
  lemma MixedNumbersAreNotTransitive()
    ensures var a, b, c := Int(ExactBound), UInt(ExactBound), Int(ExactBound + 1);
            CompareValues(a, b) == 0 && CompareValues(b, c) == 0 && CompareValues(a, c) == -1
  {
    ToDoubleExact(ExactBound);
    assert DroppedBits(ExactBound + 1) == 1;
    assert Pow2(1) == 2;
    assert ToDouble(ExactBound + 1) == ExactBound;
  }

  // ---------- Values over a set of numbers ----------

  /** All numbers in the value, at any depth, are from the set. */
  ghost predicate Over(v: Value, numbers: iset<Value>) {
    match v
    case Array(items) => forall i | 0 <= i < |items| :: Over(items[i], numbers)
    case _ => IsNumber(v) ==> v in numbers
  }

  ghost predicate AllOver(vs: seq<Value>, numbers: iset<Value>) {
    forall i | 0 <= i < |vs| :: Over(vs[i], numbers)
  }

  /** Two different numbers of one type and one of another type share a double. */
  predicate MixedTie(a: Value, b: Value, c: Value) {
    IsNumber(a) && IsNumber(b) && IsNumber(c) && SameType(a, c) && !SameType(a, b) &&
    a.n != c.n && ToDouble(a.n) == ToDouble(b.n) == ToDouble(c.n)
  }

  ghost predicate NoMixedTie(numbers: iset<Value>) {
    forall a, b, c | a in numbers && b in numbers && c in numbers :: !MixedTie(a, b, c)
  }

  /** Every two numbers of the set stay apart as doubles unless they are equal or of one type. */
  ghost predicate PairwiseExact(numbers: iset<Value>) {
    forall x, y | x in numbers && y in numbers && IsNumber(x) && IsNumber(y) && !SameType(x, y) && x.n != y.n ::
      ToDouble(x.n) != ToDouble(y.n)
  }

  lemma ExactHasNoTie(numbers: iset<Value>)
    requires PairwiseExact(numbers)
    ensures NoMixedTie(numbers)
  {
    hide ToDouble;
  }

  lemma NumbersChain(a: Value, b: Value, c: Value, numbers: iset<Value>)
    requires IsNumber(a) && IsNumber(b) && IsNumber(c) && NoMixedTie(numbers)
    requires a in numbers && b in numbers && c in numbers
    requires CompareNumbers(a, b) <= 0 && CompareNumbers(b, c) <= 0
    ensures CompareNumbers(a, c) <= 0
    ensures CompareNumbers(a, b) < 0 || CompareNumbers(b, c) < 0 ==> CompareNumbers(a, c) < 0
  {
    NumbersChainIff(a, b, c);
    NumbersInOrder(a, b);
    NumbersInOrder(b, c);
    NumbersInOrder(c, a);
    hide ToDouble;
    assert !MixedTie(a, b, c) && !MixedTie(a, c, b) && !MixedTie(b, a, c);
  }

  // ---------- Preorder laws ----------

  /** Without any restriction the comparison is antisymmetric in sign. */
  lemma {:induction false} Flip(l: Value, r: Value)
    ensures CompareValues(l, r) == -CompareValues(r, l)
    ensures -1 <= CompareValues(l, r) <= 1
    decreases Size(l) + Size(r), 0
  {
    WeightOf(l);
    WeightOf(r);
    hide TypeWeight, ToDouble;
    if Weight(l) == Weight(r) && l.Array? {
      FlipItems(l.items, r.items);
    }
  }

  lemma {:induction false} FlipItems(l: seq<Value>, r: seq<Value>)
    ensures CompareItems(l, r) == -CompareItems(r, l)
    ensures -1 <= CompareItems(l, r) <= 1
    decreases SizeAll(l) + SizeAll(r), 1
  {
    if l != [] || r != [] {
      Flip(First(l), First(r));
      FlipItems(Rest(l), Rest(r));
    }
  }

  lemma {:induction false} Transitive(a: Value, b: Value, c: Value, numbers: iset<Value>)
    requires Over(a, numbers) && Over(b, numbers) && Over(c, numbers) && NoMixedTie(numbers)
    requires CompareValues(a, b) <= 0 && CompareValues(b, c) <= 0
    ensures CompareValues(a, c) <= 0
    ensures CompareValues(a, b) < 0 || CompareValues(b, c) < 0 ==> CompareValues(a, c) < 0
    decreases Size(a) + Size(b) + Size(c), 0
  {
    WeightOf(a);
    WeightOf(b);
    WeightOf(c);
    hide TypeWeight, CompareNumbers, NoMixedTie;
    if Weight(a) == Weight(b) == Weight(c) {
      if IsNumber(a) {
        NumbersChain(a, b, c, numbers);
      } else if a.Array? {
        TransitiveItems(a.items, b.items, c.items, numbers);
      }
    }
  }

  lemma {:induction false} TransitiveItems(a: seq<Value>, b: seq<Value>, c: seq<Value>, numbers: iset<Value>)
    requires AllOver(a, numbers) && AllOver(b, numbers) && AllOver(c, numbers) && NoMixedTie(numbers)
    requires CompareItems(a, b) <= 0 && CompareItems(b, c) <= 0
    ensures CompareItems(a, c) <= 0
    ensures CompareItems(a, b) < 0 || CompareItems(b, c) < 0 ==> CompareItems(a, c) < 0
    decreases SizeAll(a) + SizeAll(b) + SizeAll(c), 1
  {
    hide NoMixedTie;
    if a != [] || b != [] || c != [] {
      Transitive(First(a), First(b), First(c), numbers);
      Flip(First(a), First(b));
      Flip(First(b), First(c));
      Flip(First(a), First(c));
      if CompareValues(First(a), First(b)) == 0 && CompareValues(First(b), First(c)) == 0 {
        Transitive(First(c), First(b), First(a), numbers);
        TransitiveItems(Rest(a), Rest(b), Rest(c), numbers);
      }
    }
  }

  ghost predicate Chains(a: Value, b: Value, c: Value) {
    CompareValues(a, b) <= 0 && CompareValues(b, c) <= 0 ==>
      CompareValues(a, c) <= 0 && (CompareValues(a, b) < 0 || CompareValues(b, c) < 0 ==> CompareValues(a, c) < 0)
  }

  /** Main result: the comparison is a total preorder on all values over a set of
      numbers iff the set has no tie across types. */
  lemma PreorderIff(numbers: iset<Value>)
    ensures NoMixedTie(numbers)
       <==> forall a, b, c | Over(a, numbers) && Over(b, numbers) && Over(c, numbers) :: Chains(a, b, c)
  {
    hide CompareNumbers, CompareValues, Over, MixedTie;
    if NoMixedTie(numbers) {
      forall a, b, c | Over(a, numbers) && Over(b, numbers) && Over(c, numbers) ensures Chains(a, b, c) {
        if CompareValues(a, b) <= 0 && CompareValues(b, c) <= 0 {
          Transitive(a, b, c, numbers);
        }
      }
    } else {
      var a, b, c :| a in numbers && b in numbers && c in numbers && MixedTie(a, b, c);
      TieBreaksChain(a, b, c, numbers);
      TieBreaksChain(c, b, a, numbers);
    }
  }

  lemma TieBreaksChain(a: Value, b: Value, c: Value, numbers: iset<Value>)
    requires a in numbers && b in numbers && c in numbers && MixedTie(a, b, c)
    ensures Over(a, numbers) && Over(b, numbers) && Over(c, numbers) && MixedTie(c, b, a)
    ensures a.n > c.n ==> !Chains(a, b, c)
    ensures a.n != c.n
  {
    NumbersAsValues(a, b);
    NumbersAsValues(b, c);
    NumbersAsValues(a, c);
    hide ToDouble, CompareValues;
  }

  lemma NumbersAsValues(l: Value, r: Value)
    requires IsNumber(l) && IsNumber(r)
    ensures CompareValues(l, r) == CompareNumbers(l, r)
  {
    WeightOf(l);
    WeightOf(r);
    hide TypeWeight, ToDouble;
  }

  // ---------- Equality ----------

  /** One form for all values that should count as equal: nulls merged, integers
      merged, trailing nulls of every array dropped. */
  function Norm(v: Value): Value {
    match v
    case None => Null
    case SmallInt(n) => Int(n)
    case UInt(n) => Int(n)
    case Array(items) => Array(NormItems(items))
    case _ => v
  }

  function NormItems(vs: seq<Value>): seq<Value> {
    if vs == [] then []
    else
      var t, h := NormItems(vs[1..]), Norm(vs[0]);
      if t == [] && h == Null then [] else [h] + t
  }

  lemma NumbersEqualIff(l: Value, r: Value)
    requires IsNumber(l) && IsNumber(r)
    ensures (CompareNumbers(l, r) == 0 <==> l.n == r.n)
       <==> SameType(l, r) || l.n == r.n || ToDouble(l.n) != ToDouble(r.n)
  {
    hide ToDouble;
  }

  lemma {:induction false} EqualIffSameNorm(l: Value, r: Value, numbers: iset<Value>)
    requires Over(l, numbers) && Over(r, numbers) && PairwiseExact(numbers)
    ensures CompareValues(l, r) == 0 <==> Norm(l) == Norm(r)
    decreases Size(l) + Size(r), 0
  {
    WeightOf(l);
    WeightOf(r);
    hide TypeWeight, CompareNumbers, ToDouble;
    if Weight(l) == Weight(r) {
      if IsNumber(l) {
        NumbersEqualIff(l, r);
      } else if l.Array? {
        EqualItemsIffSameNorm(l.items, r.items, numbers);
      }
    }
  }

  lemma {:induction false} EqualItemsIffSameNorm(l: seq<Value>, r: seq<Value>, numbers: iset<Value>)
    requires AllOver(l, numbers) && AllOver(r, numbers) && PairwiseExact(numbers)
    ensures CompareItems(l, r) == 0 <==> NormItems(l) == NormItems(r)
    decreases SizeAll(l) + SizeAll(r), 1
  {
    hide PairwiseExact;
    if l != [] || r != [] {
      EqualIffSameNorm(First(l), First(r), numbers);
      EqualItemsIffSameNorm(Rest(l), Rest(r), numbers);
      NormUnfold(l);
      NormUnfold(r);
      ConsEqual(Norm(First(l)), NormItems(Rest(l)), Norm(First(r)), NormItems(Rest(r)));
    }
  }

  lemma ConsEqual(h: Value, t: seq<Value>, h': Value, t': seq<Value>)
    ensures [h] + t == [h'] + t' <==> h == h' && t == t'
  {
    assert ([h] + t)[1..] == t && ([h'] + t')[1..] == t';
    assert ([h] + t)[0] == h && ([h'] + t')[0] == h';
  }

  lemma NormUnfold(vs: seq<Value>)
    ensures var t, h := NormItems(Rest(vs)), Norm(First(vs));
            NormItems(vs) == if t == [] && h == Null then [] else [h] + t
  {
  }

  ghost predicate EqualByNorm(l: Value, r: Value) { CompareValues(l, r) == 0 <==> Norm(l) == Norm(r) }

  /** Main result: over a set of numbers comparing equal means having one normal form
      iff the set is pairwise exact. */
  lemma EqualityIff(numbers: iset<Value>)
    ensures PairwiseExact(numbers)
       <==> forall l, r | Over(l, numbers) && Over(r, numbers) :: EqualByNorm(l, r)
  {
    hide CompareValues, CompareNumbers, ToDouble, Norm;
    if PairwiseExact(numbers) {
      forall l, r | Over(l, numbers) && Over(r, numbers) ensures EqualByNorm(l, r) {
        EqualIffSameNorm(l, r, numbers);
      }
    } else {
      var x, y :| x in numbers && y in numbers && IsNumber(x) && IsNumber(y) && !SameType(x, y) && x.n != y.n
               && ToDouble(x.n) == ToDouble(y.n);
      NumbersAsValues(x, y);
      NumbersEqualIff(x, y);
      NormOfNumber(x);
      NormOfNumber(y);
      assert Over(x, numbers) && Over(y, numbers) && !EqualByNorm(x, y);
    }
  }

  lemma NormOfNumber(x: Value)
    requires IsNumber(x)
    ensures Norm(x) == Int(x.n)
  {
  }

  // ---------- The builder's integers ----------

  /** As the builder writes 64-bit integers: the short form exactly for -6..9. */
  predicate BuilderNumber(v: Value) {
    match v
    case SmallInt(n) => -6 <= n <= 9
    case Int(n) => IsInt64(n) && !(-6 <= n <= 9)
    case UInt(n) => 10 <= n && IsUint64(n)
    case _ => false
  }

  lemma ShortFormIsExact(l: Value, r: Value)
    requires BuilderNumber(l) && BuilderNumber(r) && l.SmallInt? && l.n != r.n
    ensures ToDouble(l.n) != ToDouble(r.n)
  {
    var a, b := l.n, r.n;
    ToDoubleExact(a);
    if a < b {
      ToDoubleMonotone(a + 1, b);
      ToDoubleExact(a + 1);
    } else {
      ToDoubleMonotone(b, a - 1);
      ToDoubleExact(a - 1);
    }
  }

  /** Only a signed and an unsigned integer can tie: a set of builder integers is exact
      iff no two such members that differ share a double; in particular if it is all
      signed or all unsigned. */
  lemma BuilderExactIff(numbers: iset<Value>)
    requires forall v | v in numbers :: BuilderNumber(v)
    ensures PairwiseExact(numbers)
       <==> forall x, y | x in numbers && y in numbers && x.Int? && y.UInt? && x.n != y.n :: ToDouble(x.n) != ToDouble(y.n)
  {
    forall x, y | x in numbers && y in numbers && IsNumber(x) && IsNumber(y) && x.SmallInt? && x.n != y.n
      ensures ToDouble(x.n) != ToDouble(y.n)
    {
      ShortFormIsExact(x, y);
    }
    hide ToDouble;
  }

  ghost const SignedIntegers: iset<Value> := iset v: Value | BuilderNumber(v) && !v.UInt?

  lemma SignedIntegersAreExact()
    ensures PairwiseExact(SignedIntegers) && NoMixedTie(SignedIntegers)
  {
    BuilderExactIff(SignedIntegers);
    ExactHasNoTie(SignedIntegers);
  }

  /** Below 2^53 signs may be mixed freely. */
  lemma SmallIntegersAreExact(numbers: iset<Value>)
    requires forall v | v in numbers :: BuilderNumber(v) && (v.UInt? ==> v.n < ExactBound)
    ensures PairwiseExact(numbers)
  {
    forall x, y | x in numbers && y in numbers && x.Int? && y.UInt? && x.n != y.n ensures ToDouble(x.n) != ToDouble(y.n) {
      var a, b := y.n, x.n;
      ToDoubleExact(a);
      if a < b {
        ToDoubleMonotone(a + 1, b);
        ToDoubleExact(a + 1);
      } else {
        ToDoubleMonotone(b, a - 1);
        ToDoubleExact(a - 1);
      }
    }
    BuilderExactIff(numbers);
  }
}
