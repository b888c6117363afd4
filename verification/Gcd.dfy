/** The binary gcd of the workload generators, and the generator that feeds it. */
module Gcd {

  function Times(a: int, b: int): int { a * b }

  ghost predicate Divides(d: int, n: int) { exists k :: n == Times(d, k) }

  ghost predicate Combines(g: int, u: int, v: int) { exists a, b :: g == Times(a, u) + Times(b, v) }

  /** `g` is a common divisor and an integer combination of `u` and `v`. */
  ghost predicate IsGcd(g: nat, u: nat, v: nat) {
    Divides(g, u) && Divides(g, v) && Combines(g, u, v)
  }

  lemma MakeDivides(d: int, k: int)
    ensures Divides(d, d * k)
  {
    assert d * k == Times(d, k);
  }

  lemma MakeCombines(a: int, u: int, b: int, v: int)
    ensures Combines(a * u + b * v, u, v)
  {
    assert a * u + b * v == Times(a, u) + Times(b, v);
  }

  /** That makes it the greatest: the common divisors are exactly its divisors, zeros included. */
  lemma GcdIsGreatest(g: nat, u: nat, v: nat, d: nat)
    requires IsGcd(g, u, v)
    ensures Divides(d, u) && Divides(d, v) <==> Divides(d, g)
  {
    if Divides(d, u) && Divides(d, v) {
      var a, b :| g == Times(a, u) + Times(b, v);
      DividesMultiple(d, u, a);
      DividesMultiple(d, v, b);
      DividesSum(d, a * u, b * v);
    }
    if Divides(d, g) {
      var i :| u == Times(g, i);
      var j :| v == Times(g, j);
      DividesMultiple(d, g, i);
      DividesMultiple(d, g, j);
    }
  }

  lemma DividesMultiple(d: int, n: int, a: int)
    requires Divides(d, n)
    ensures Divides(d, a * n) && Divides(d, n * a)
  {
    var k :| n == Times(d, k);
    MakeDivides(d, a * k);
    assert a * n == d * (a * k);
  }

  lemma DividesSum(d: int, m: int, n: int)
    requires Divides(d, m) && Divides(d, n)
    ensures Divides(d, m + n)
  {
    var k :| m == Times(d, k);
    var l :| n == Times(d, l);
    MakeDivides(d, k + l);
    assert m + n == d * (k + l);
  }

  lemma DivisorBound(d: nat, n: nat)
    requires Divides(d, n) && n > 0
    ensures 0 < d <= n
  {
    var k :| n == Times(d, k);
    SignOfProduct(d, k);
  }

  lemma SignOfProduct(d: nat, k: int)
    ensures if k <= 0 then d * k <= 0 else d * k >= d
  {
  }

  // ---------- One step of the algorithm, backwards ----------

  lemma GcdOfZero(u: nat)
    ensures IsGcd(u, u, 0) && IsGcd(u, 0, u)
  {
    MakeDivides(u, 1);
    MakeDivides(u, 0);
    MakeCombines(1, u, 0, 0);
    MakeCombines(0, 0, 1, u);
  }

  lemma GcdUnique(g: nat, h: nat, u: nat, v: nat)
    requires IsGcd(g, u, v) && IsGcd(h, u, v)
    ensures g == h
  {
    GcdIsGreatest(g, u, v, h);
    GcdIsGreatest(h, u, v, g);
    if g > 0 { DivisorBound(h, g); }
    if h > 0 { DivisorBound(g, h); }
  }

  lemma GcdSwap(g: nat, u: nat, v: nat)
    requires IsGcd(g, u, v)
    ensures IsGcd(g, v, u)
  {
    var a, b :| g == Times(a, u) + Times(b, v);
    MakeCombines(b, v, a, u);
  }

  lemma GcdDouble(g: nat, u: nat, v: nat)
    requires IsGcd(g, u, v)
    ensures IsGcd(2 * g, 2 * u, 2 * v)
  {
    var i :| u == Times(g, i);
    var j :| v == Times(g, j);
    var a, b :| g == Times(a, u) + Times(b, v);
    MakeDivides(2 * g, i);
    MakeDivides(2 * g, j);
    assert 2 * u == 2 * g * i && 2 * v == 2 * g * j;
    MakeCombines(a, 2 * u, b, 2 * v);
    assert 2 * g == a * (2 * u) + b * (2 * v);
  }

  /** Dropping a factor two from one side leaves the gcd with an odd other side. */
  lemma GcdDropTwo(g: nat, u: nat, half: nat)
    requires IsGcd(g, u, half) && u % 2 == 1
    ensures IsGcd(g, u, 2 * half)
  {
    var j :| half == Times(g, j);
    MakeDivides(g, 2 * j);
    assert 2 * half == g * (2 * j);
    var a, b :| g == Times(a, u) + Times(b, half);
    if b % 2 == 0 {
      var c := b / 2;
      assert b * half == c * (2 * half);
      MakeCombines(a, u, c, 2 * half);
    } else {
      var c := (b + u) / 2;
      assert b + u == 2 * c;
      assert (a - half) * u + c * (2 * half) == a * u - half * u + (b + u) * half == g by {
        assert c * (2 * half) == (2 * c) * half;
        assert (a - half) * u == a * u - half * u;
        assert (b + u) * half == b * half + u * half;
      }
      MakeCombines(a - half, u, c, 2 * half);
    }
  }

  lemma GcdSubtract(g: nat, u: nat, v: nat)
    requires u <= v && IsGcd(g, u, v - u)
    ensures IsGcd(g, u, v)
  {
    var i :| u == Times(g, i);
    var j :| v - u == Times(g, j);
    MakeDivides(g, i + j);
    assert v == g * (i + j);
    var a, b :| g == Times(a, u) + Times(b, v - u);
    MakeCombines(a - b, u, b, v);
    assert (a - b) * u + b * v == a * u + b * (v - u);
  }

  // ---------- The loops ----------

  function Shifted(g: nat, shift: nat): nat {
    if shift == 0 then g else 2 * Shifted(g, shift - 1)
  }

  lemma {:induction false} ShiftedAgain(g: nat, shift: nat)
    ensures Shifted(2 * g, shift) == 2 * Shifted(g, shift)
    decreases shift
  {
    if shift > 0 { ShiftedAgain(g, shift - 1); }
  }

  /** The answer for the arguments at hand, shifted, is the answer for the inputs. */
  ghost predicate Answers(u: nat, v: nat, shift: nat, U: nat, V: nat) {
    forall g: nat | IsGcd(g, u, v) :: IsGcd(Shifted(g, shift), U, V)
  }

  lemma HalveBoth(u: nat, v: nat, shift: nat, U: nat, V: nat)
    requires Answers(2 * u, 2 * v, shift, U, V)
    ensures Answers(u, v, shift + 1, U, V)
  {
    forall g: nat | IsGcd(g, u, v) ensures IsGcd(Shifted(g, shift + 1), U, V) {
      GcdDouble(g, u, v);
      ShiftedAgain(g, shift);
    }
  }

  lemma HalveSecond(u: nat, half: nat, shift: nat, U: nat, V: nat)
    requires Answers(u, 2 * half, shift, U, V) && u % 2 == 1
    ensures Answers(u, half, shift, U, V)
  {
    forall g: nat | IsGcd(g, u, half) ensures IsGcd(Shifted(g, shift), U, V) {
      GcdDropTwo(g, u, half);
    }
  }

  lemma HalveFirst(half: nat, v: nat, shift: nat, U: nat, V: nat)
    requires Answers(2 * half, v, shift, U, V) && v % 2 == 1
    ensures Answers(half, v, shift, U, V)
  {
    forall g: nat | IsGcd(g, half, v) ensures IsGcd(Shifted(g, shift), U, V) {
      GcdSwap(g, half, v);
      GcdDropTwo(g, v, half);
      GcdSwap(g, v, 2 * half);
    }
  }

  lemma Swapped(u: nat, v: nat, shift: nat, U: nat, V: nat)
    requires Answers(u, v, shift, U, V)
    ensures Answers(v, u, shift, U, V)
  {
    forall g: nat | IsGcd(g, v, u) ensures IsGcd(Shifted(g, shift), U, V) {
      GcdSwap(g, v, u);
    }
  }

  lemma Subtracted(u: nat, v: nat, shift: nat, U: nat, V: nat)
    requires u <= v && Answers(u, v, shift, U, V)
    ensures Answers(u, v - u, shift, U, V)
  {
    forall g: nat | IsGcd(g, u, v - u) ensures IsGcd(Shifted(g, shift), U, V) {
      GcdSubtract(g, u, v);
    }
  }

  /** For all 64-bit arguments, zeros included. Halving and subtracting never leave the
      range, and the final left shift loses no bit: the exact product is a divisor. */
  method BinaryGcd(U: nat, V: nat) returns (g: nat)
    requires U < 0x1_0000_0000_0000_0000 && V < 0x1_0000_0000_0000_0000
    ensures IsGcd(g, U, V) && g < 0x1_0000_0000_0000_0000
  {
    hide *;
    GcdOfZero(U);
    GcdOfZero(V);
    if U == 0 {
      return V;
    }
    if V == 0 {
      return U;
    }
    var u, v, shift := U, V, 0;
    StartAnswers(U, V);
    while u % 2 == 0 && v % 2 == 0
      invariant 0 < u <= U && 0 < v <= V && Answers(u, v, shift, U, V)
      decreases u
    {
      HalveBoth(u / 2, v / 2, shift, U, V);
      u, v, shift := u / 2, v / 2, shift + 1;
    }
    while u % 2 == 0
      invariant 0 < u <= U && Answers(u, v, shift, U, V) && (u % 2 == 1 || v % 2 == 1)
      decreases u
    {
      HalveFirst(u / 2, v, shift, U, V);
      u := u / 2;
    }
    while true
      invariant 0 < u && 0 < v && u % 2 == 1 && Answers(u, v, shift, U, V)
      decreases u + v
    {
      ghost var top := v;
      while v % 2 == 0
        invariant 0 < v <= top && Answers(u, v, shift, U, V)
        decreases v
      {
        HalveSecond(u, v / 2, shift, U, V);
        v := v / 2;
      }
      if u > v {
        Swapped(u, v, shift, U, V);
        u, v := v, u;
      }
      Subtracted(u, v, shift, U, V);
      v := v - u;
      if v == 0 {
        break;
      }
    }
    GcdOfZero(u);
    g := Shifted(u, shift);
    FinalAnswer(u, shift, U, V);
  }

  lemma StartAnswers(U: nat, V: nat)
    ensures Answers(U, V, 0, U, V)
  {
  }

  lemma FinalAnswer(u: nat, shift: nat, U: nat, V: nat)
    requires Answers(u, 0, shift, U, V) && U > 0
    ensures IsGcd(Shifted(u, shift), U, V) && Shifted(u, shift) <= U
  {
    GcdOfZero(u);
    DivisorBound(Shifted(u, shift), U);
  }
}
