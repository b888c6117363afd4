/** VelocyPack values as `compareSlices` tells them apart, and that comparison. */
module VPack {
  import opened ByteStrings

  /** The value types that occur below an index key, plus the marker types the
      comparison names explicitly. `SmallInt`, `Int` and `UInt` are the three
      integer encodings. */
  datatype Value =
    | Illegal | MinKey | MaxKey | None | Null
    | Bool(b: bool)
    | SmallInt(n: int) | Int(n: int) | UInt(n: int)
    | Array(items: seq<Value>)

  predicate IsInt64(n: int) { -0x8000_0000_0000_0000 <= n < 0x8000_0000_0000_0000 }

  /** Bytes of the shortest two's-complement image. */
  function IntLength(n: int): (r: nat)
    ensures 1 <= r <= 8
  {
    if -0x80 <= n < 0x80 then 1
    else if -0x8000 <= n < 0x8000 then 2
    else if -0x80_0000 <= n < 0x80_0000 then 3
    else if -0x8000_0000 <= n < 0x8000_0000 then 4
    else if -0x80_0000_0000 <= n < 0x80_0000_0000 then 5
    else if -0x8000_0000_0000 <= n < 0x8000_0000_0000 then 6
    else if -0x80_0000_0000_0000 <= n < 0x80_0000_0000_0000 then 7
    else 8
  }

  /** The encoding family of a value by its first byte: every member of a family has one weight. */
  function Head(v: Value): Byte {
    match v
    case Illegal => 0x17
    case MinKey => 0x1e
    case MaxKey => 0x1f
    case None => 0x00
    case Null => 0x18
    case Bool(b) => if b then 0x1a else 0x19
    case SmallInt(n) => if n >= 0 then 0x30 + n % 10 else 0x3a + n % 6
    case Int(n) => 0x1f + IntLength(n)
    case UInt(n) => 0x27 + IntLength(n)
    case Array(items) => if items == [] then 0x01 else 0x02
  }

  /** The table `TypeWeights`, by ranges of equal weight. */
  function TypeWeights(head: Byte): int {
    if head == 0x00 then 0
    else if head <= 0x09 || head == 0x13 then 4
    else if head <= 0x14 then 5
    else if head == 0x17 then -1
    else if head <= 0x18 then 0
    else if head <= 0x1a then 1
    else if head <= 0x1c then 2
    else if head == 0x1d then -50
    else if head == 0x1e then -99
    else if head == 0x1f then 99
    else if head <= 0x3f then 2
    else if head <= 0xc7 then 3
    else if head <= 0xd7 then 2
    else if head <= 0xef then 0
    else 3
  }

  function TypeWeight(v: Value): int { TypeWeights(Head(v)) }

  /** The weights without the detour over the first byte. */
  function Weight(v: Value): int {
    match v
    case MinKey => -99
    case Illegal => -1
    case None => 0
    case Null => 0
    case Bool(_) => 1
    case SmallInt(_) => 2
    case Int(_) => 2
    case UInt(_) => 2
    case Array(_) => 4
    case MaxKey => 99
  }

  lemma WeightOf(v: Value)
    ensures TypeWeight(v) == Weight(v)
  {
  }

  // ---------- Numbers ----------

  function Pow2(k: nat): (r: nat)
    ensures r > 0
  {
    if k == 0 then 1 else 2 * Pow2(k - 1)
  }

  /** How many low bits a double drops from `n`. */
  function DroppedBits(n: nat): (k: nat)
    ensures n < Pow2(k) * 0x20_0000_0000_0000
    ensures k > 0 ==> n >= Pow2(k) * 0x10_0000_0000_0000
    decreases n
  {
    if n < 0x20_0000_0000_0000 then 0 else 1 + DroppedBits(n / 2)
  }

  /** Nearest multiple of `unit`, ties to the even multiple. */
  function RoundToMultiple(n: nat, unit: nat): int
    requires unit > 0
  {
    var q, rem := n / unit, n % unit;
    if 2 * rem > unit || (2 * rem == unit && q % 2 == 1) then (q + 1) * unit else q * unit
  }

  /** Conversion of a 64-bit integer to a double, round to nearest, ties to even. */
  function ToDouble(n: int): int {
    if n >= 0 then RoundToMultiple(n, Pow2(DroppedBits(n)))
    else -RoundToMultiple(-n, Pow2(DroppedBits(-n)))
  }

  predicate IsNumber(v: Value) { v.SmallInt? || v.Int? || v.UInt? }

  predicate SameType(l: Value, r: Value) {
    (l.SmallInt? && r.SmallInt?) || (l.Int? && r.Int?) || (l.UInt? && r.UInt?)
  }

  function CompareNumbers(l: Value, r: Value): int
    requires IsNumber(l) && IsNumber(r)
  {
    if SameType(l, r) then
      (if l.n == r.n then 0 else if l.n < r.n then -1 else 1)
    else
      var left, right := ToDouble(l.n), ToDouble(r.n);
      if left == right then 0 else if left < right then -1 else 1
  }

  // ---------- compareSlices ----------

  function Size(v: Value): nat {
    match v
    case None => 0
    case Array(items) => 1 + SizeAll(items)
    case _ => 1
  }

  function SizeAll(vs: seq<Value>): nat {
    if vs == [] then 0 else 1 + Size(vs[0]) + SizeAll(vs[1..])
  }

  function First(vs: seq<Value>): Value { if vs == [] then None else vs[0] }
  function Rest(vs: seq<Value>): seq<Value> { if vs == [] then [] else vs[1..] }

  function CompareValues(l: Value, r: Value): int
    decreases Size(l) + Size(r), 0
  {
    if TypeWeight(l) < TypeWeight(r) then -1
    else if TypeWeight(l) > TypeWeight(r) then 1
    else match l
      case Bool(_) =>
        if l.b == r.b then 0 else if !l.b then -1 else 1
      case SmallInt(_) => CompareNumbers(l, r)
      case Int(_) => CompareNumbers(l, r)
      case UInt(_) => CompareNumbers(l, r)
      case Array(_) => CompareItems(l.items, r.items)
      case _ => 0
  }

  /** Item by item, the shorter array padded with None. */
  function CompareItems(l: seq<Value>, r: seq<Value>): int
    decreases SizeAll(l) + SizeAll(r), 1
  {
    if l == [] && r == [] then 0
    else
      var c := CompareValues(First(l), First(r));
      if c != 0 then c else CompareItems(Rest(l), Rest(r))
  }

  function From(vs: seq<Value>, i: nat): seq<Value> {
    if i <= |vs| then vs[i..] else []
  }

  lemma FromStep(vs: seq<Value>, i: nat)
    ensures First(From(vs, i)) == if i < |vs| then vs[i] else None
    ensures Rest(From(vs, i)) == From(vs, i + 1)
  {
  }

  lemma FromEnds(l: seq<Value>, r: seq<Value>, n: nat)
    requires n >= |l| && n >= |r|
    ensures From(l, 0) == l && From(r, 0) == r && CompareItems(From(l, n), From(r, n)) == 0
  {
  }

  lemma ItemsStep(l: seq<Value>, r: seq<Value>, i: nat)
    requires i < |l| || i < |r|
    ensures var c := CompareValues(if i < |l| then l[i] else None, if i < |r| then r[i] else None);
            CompareItems(From(l, i), From(r, i)) == if c != 0 then c else CompareItems(From(l, i + 1), From(r, i + 1))
  {
    FromStep(l, i);
    FromStep(r, i);
    assert From(l, i) != [] || From(r, i) != [];
  }

  lemma {:induction false} ItemSize(vs: seq<Value>, i: nat)
    requires i < |vs|
    ensures Size(vs[i]) < SizeAll(vs)
    decreases |vs|
  {
    if i > 0 {
      ItemSize(vs[1..], i - 1);
    }
  }

  /** The comparison as the source steps it, two array cursors side by side. */
  method CompareSlices(l: Value, r: Value) returns (result: int)
    ensures result == CompareValues(l, r)
    decreases Size(l) + Size(r)
  {
    WeightOf(l);
    WeightOf(r);
    hide TypeWeight, CompareNumbers, From, First, Rest;
    var lWeight, rWeight := TypeWeight(l), TypeWeight(r);
    if lWeight < rWeight {
      return -1;
    }
    if lWeight > rWeight {
      return 1;
    }
    match l {
      case Bool(left) =>
        if left == r.b {
          return 0;
        }
        return if !left then -1 else 1;
      case SmallInt(_) => return CompareNumbers(l, r);
      case Int(_) => return CompareNumbers(l, r);
      case UInt(_) => return CompareNumbers(l, r);
      case Array(_) =>
        var n := if |l.items| >= |r.items| then |l.items| else |r.items|;
        var i := 0;
        FromEnds(l.items, r.items, n);
        while i < n
          invariant 0 <= i <= n
          invariant CompareItems(From(l.items, i), From(r.items, i)) == CompareItems(l.items, r.items)
        {
          var lhsValue, rhsValue := None, None;
          ItemsStep(l.items, r.items, i);
          if i < |l.items| {
            ItemSize(l.items, i);
            lhsValue := l.items[i];
          }
          if i < |r.items| {
            ItemSize(r.items, i);
            rhsValue := r.items[i];
          }
          result := CompareSlices(lhsValue, rhsValue);
          if result != 0 {
            return;
          }
          i := i + 1;
        }
        return 0;
      case _ => return 0;
    }
  }
}
