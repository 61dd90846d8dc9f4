/**
 The numbers of a JSON document: doubles, their truncation to int64 and the conversion back
 (desktop/src/core/json/json.cpp).  A double is modelled by the real number it stands for.
 */
module Doubles {

  const TWO_53 := 0x20_0000_0000_0000
  const TWO_63 := 0x8000_0000_0000_0000

  function Pow2(n: nat): (p: nat)
    ensures p > 0
  {
    if n == 0 then 1 else 2 * Pow2(n - 1)
  }

  function Abs(i: int): nat {
    if i < 0 then -i else i
  }

  /** A real some finite double stands for: a 53-bit integer times or over a power of two. */
  ghost predicate IsDouble(x: real) {
    exists m: int, e: nat :: IsScaled(x, m, e)
  }

  ghost predicate IsScaled(x: real, m: int, e: nat) {
    Abs(m) < TWO_53 && (x == (m * Pow2(e)) as real || x * Pow2(e) as real == m as real)
  }

  /** An integer that is exactly a double. */
  ghost predicate IsExact(i: int) {
    exists m: nat, e: nat :: IsMultiple(Abs(i), m, e)
  }

  ghost predicate IsMultiple(n: nat, m: nat, e: nat) {
    m < TWO_53 && n == m * Pow2(e)
  }

  // ----- Truncation: static_cast<int64_t> -----

  function Truncate(x: real): int {
    if x >= 0.0 then x.Floor else -(-x).Floor
  }

  /** as_int: values outside the int64 range give the fallback 0. */
  function AsInt(x: real): int {
    if x < -(TWO_63 as real) || x > TWO_63 as real then 0 else Truncate(x)
  }

  /** is_integer. */
  predicate IsInteger(x: real) {
    -(TWO_63 as real) <= x <= TWO_63 as real && x == Truncate(x) as real
  }

  /** Cutting off a double's fraction leaves an integer that is again exactly a double. */
  lemma TruncateIsExact(x: real)
    requires IsDouble(x)
    ensures IsExact(Truncate(x))
  {
    var m: int, e: nat :| IsScaled(x, m, e);
    hide *;
    if IsWhole(x, m, e) { WholeIsExact(x, m, e); } else { FractionIsExact(x, m, e); }
  }

  ghost predicate IsWhole(x: real, m: int, e: nat) {
    x == (m * Pow2(e)) as real
  }

  lemma WholeIsExact(x: real, m: int, e: nat)
    requires IsScaled(x, m, e) && IsWhole(x, m, e)
    ensures IsExact(Truncate(x))
  {
    hide Pow2, Truncate, Abs, IsExact;
    TruncateOfInt(m * Pow2(e));
    AbsOfProduct(m, Pow2(e));
    ExactBy(m * Pow2(e), Abs(m), e);
  }

  lemma FractionIsExact(x: real, m: int, e: nat)
    requires IsScaled(x, m, e) && !IsWhole(x, m, e)
    ensures IsExact(Truncate(x))
  {
    hide Pow2, Truncate, IsExact;
    Shrinks(x, m, Pow2(e) as real);
    TruncateWithin(x, Abs(m));
    ExactBy(Truncate(x), Abs(Truncate(x)), 0);
  }

  lemma ExactBy(i: int, m: nat, e: nat)
    requires m < TWO_53 && (Abs(i) == m * Pow2(e) || (e == 0 && Abs(i) == m))
    ensures IsExact(i)
  {
    assert Pow2(0) == 1;
    assert IsMultiple(Abs(i), m, e);
  }

  lemma TruncateOfInt(i: int)
    ensures Truncate(i as real) == i
  {
    if i < 0 { assert -(i as real) == (-i) as real; }
  }

  lemma TruncateWithin(x: real, bound: nat)
    requires -(bound as real) <= x <= bound as real
    ensures Abs(Truncate(x)) <= bound
  {
  }

  lemma AbsOfProduct(m: int, p: nat)
    ensures Abs(m * p) == Abs(m) * p
  {
    if m < 0 {
      assert -(m * p) == (-m) * p;
      assert (-m) * p >= 0;
    }
  }

  lemma Shrinks(x: real, m: int, p: real)
    requires p >= 1.0 && x * p == m as real
    ensures -(Abs(m) as real) <= x <= Abs(m) as real
  {
    if x >= 0.0 { Grows(x, p); } else { Grows(-x, p); assert (-x) * p == -(x * p); }
  }

  lemma Grows(x: real, p: real)
    requires x >= 0.0 && p >= 1.0
    ensures x * p >= x
  {
    assert x * (p - 1.0) >= 0.0;
    assert x * p == x * (p - 1.0) + x;
  }

  lemma AsIntIsExact(x: real)
    requires IsDouble(x)
    ensures IsExact(AsInt(x)) && -TWO_63 <= AsInt(x) <= TWO_63
  {
    TruncateIsExact(x);
    ExactBy(0, 0, 0);
  }

  // ----- The conversion back: static_cast<double> -----

  /** How many low bits a 53-bit mantissa cannot hold. */
  function Shift(n: nat): nat {
    if n < TWO_53 then 0 else 1 + Shift(n / 2)
  }

  /** The nearest double, ties to an even mantissa. */
  function RoundNat(n: nat): nat {
    if n < TWO_53 then n
    else
      var unit := Pow2(Shift(n));
      var q, r := n / unit, n % unit;
      if 2 * r < unit || (2 * r == unit && q % 2 == 0) then q * unit else (q + 1) * unit
  }

  function ToDouble(i: int): real {
    if i < 0 then -(RoundNat(-i) as real) else RoundNat(i) as real
  }

  /** An exact integer has no low bits to lose. */
  lemma {:induction false} ExactUnits(n: nat, m: nat, e: nat) returns (q: nat)
    requires m < TWO_53 && n == m * Pow2(e)
    ensures n == q * Pow2(Shift(n))
    decreases e
  {
    if n < TWO_53 {
      q := n;
    } else {
      var half := m * Pow2(e - 1);
      assert n == 2 * half by { assert m * (2 * Pow2(e - 1)) == 2 * (m * Pow2(e - 1)); }
      q := ExactUnits(half, m, e - 1);
      assert n == q * (2 * Pow2(Shift(half))) by { assert 2 * (q * Pow2(Shift(half))) == q * (2 * Pow2(Shift(half))); }
    }
  }

  lemma DivideProduct(q: nat, p: nat)
    requires p > 0
    ensures q * p / p == q && q * p % p == 0
  {
    var x := q * p;
    var d, r := x / p, x % p;
    assert x == p * d + r && 0 <= r < p;
    SameQuotient(p, q, d, r);
  }

  lemma SameQuotient(p: nat, q: nat, d: int, r: nat)
    requires r < p && q * p == p * d + r
    ensures d == q && r == 0
  {
    assert p * (q - d) == r;
    ProductBounds(p, q - d);
  }

  lemma ProductBounds(p: nat, k: int)
    ensures k >= 1 ==> p * k >= p
    ensures k >= 0 ==> p * k >= 0
    ensures k <= -1 ==> p * k <= -(p as int)
  {
    if k >= 1 { assert p * (k - 1) >= 0; }
    if k <= -1 { assert p * (-k - 1) >= 0; }
  }

  lemma ExactRoundTrip(i: int)
    requires IsExact(i)
    ensures ToDouble(i) == i as real
  {
    var n := Abs(i);
    var m: nat, e: nat :| IsMultiple(n, m, e);
    var q := ExactUnits(n, m, e);
    DivideProduct(q, Pow2(Shift(n)));
    hide Pow2, Shift;
    assert RoundNat(n) == n;
  }

  /** Storing an integer as a double and reading it back loses nothing exactly when it is exact. */
  lemma StoredInteger(i: int)
    requires -TWO_63 <= i <= TWO_63
    ensures AsInt(ToDouble(i)) == i <==> IsExact(i)
  {
    hide RoundNat, IsExact, Truncate, ToDouble;
    var n := Abs(i);
    RoundedIsExact(n);
    ExactBy(0, 0, 0);
    if IsExact(i) {
      ExactRoundTrip(i);
      TruncateOfInt(i);
    }
    var rounded: int := RoundNat(n);
    if i < 0 { rounded := -rounded; }
    ToDoubleIsInt(i);
    TruncateOfInt(rounded);
    SignOfExact(RoundNat(n));
  }

  lemma ToDoubleIsInt(i: int)
    ensures ToDouble(i) == (if i < 0 then 0 - RoundNat(Abs(i)) else RoundNat(Abs(i))) as real
  {
  }

  lemma SignOfExact(i: int)
    requires IsExact(i)
    ensures IsExact(-i)
  {
    var m: nat, e: nat :| IsMultiple(Abs(i), m, e);
    assert IsMultiple(Abs(-i), m, e);
  }

  lemma {:induction false} ShiftBounds(n: nat)
    ensures n < TWO_53 * Pow2(Shift(n))
  {
    if n >= TWO_53 {
      ShiftBounds(n / 2);
      assert TWO_53 * (2 * Pow2(Shift(n / 2))) == 2 * (TWO_53 * Pow2(Shift(n / 2)));
    }
  }

  /** What rounding yields is a double. */
  lemma RoundedIsExact(n: nat)
    ensures IsExact(RoundNat(n))
  {
    if n < TWO_53 {
      ExactBy(RoundNat(n), n, 0);
    } else {
      var unit := Pow2(Shift(n));
      var q := n / unit;
      ShiftBounds(n);
      QuotientBound(n, unit, TWO_53);
      if RoundNat(n) == q * unit {
        ExactBy(RoundNat(n), q, Shift(n));
      } else if q + 1 < TWO_53 {
        ExactBy(RoundNat(n), q + 1, Shift(n));
      } else {
        Pow2Adds(53, Shift(n));
        assert Pow2(53) == TWO_53 by { Pow2Of53(); }
        ExactBy(RoundNat(n), 1, 53 + Shift(n));
      }
    }
  }

  lemma QuotientBound(n: nat, unit: nat, bound: nat)
    requires unit > 0 && n < bound * unit
    ensures n / unit < bound
  {
    var q := n / unit;
    assert q * unit <= n;
    ProductBounds(unit, q - bound);
    assert q * unit == unit * (q - bound) + bound * unit;
  }

  lemma {:induction false} Pow2Adds(a: nat, b: nat)
    ensures Pow2(a) * Pow2(b) == Pow2(a + b)
  {
    hide Pow2;
    Pow2Step(a);
    if a > 0 {
      Pow2Step(a + b);
      Pow2Adds(a - 1, b);
      TwiceProduct(Pow2(a - 1), Pow2(b));
    }
  }

  lemma Pow2Step(n: nat)
    ensures Pow2(n) == if n == 0 then 1 else 2 * Pow2(n - 1)
  {
  }

  lemma TwiceProduct(x: nat, y: nat)
    ensures 2 * x * y == 2 * (x * y)
  {
  }

  lemma SmallPowers()
    ensures Pow2(5) == 0x20 && Pow2(8) == 0x100
  {
    assert Pow2(5) == 2 * Pow2(4) == 4 * Pow2(3);
    assert Pow2(8) == 2 * Pow2(7) == 4 * Pow2(6) == 8 * Pow2(5);
  }

  lemma Pow2Of53()
    ensures Pow2(53) == TWO_53
  {
    SmallPowers();
    hide Pow2;
    Pow2Adds(8, 8); Pow2Adds(16, 16); Pow2Adds(32, 16); Pow2Adds(48, 5);
  }

  /** The doubles the dump writes are doubles. */
  lemma ToDoubleIsDouble(i: int)
    ensures IsDouble(ToDouble(i))
  {
    var n := Abs(i);
    RoundedIsExact(n);
    hide RoundNat, Pow2;
    var m: nat, e: nat :| IsMultiple(RoundNat(n), m, e);
    if i < 0 {
      var negative: int := 0 - m;
      assert negative * Pow2(e) == -((m * Pow2(e)) as int);
      assert IsScaled(ToDouble(i), negative, e);
    } else {
      assert IsScaled(ToDouble(i), m, e);
    }
  }

  // ----- The nearest double -----

  lemma {:induction false} ShiftLeast(n: nat)
    requires n >= TWO_53
    ensures Shift(n) > 0 && TWO_53 * Pow2(Shift(n) - 1) <= n
    decreases n
  {
    var half := n / 2;
    if half >= TWO_53 {
      ShiftLeast(half);
      assert TWO_53 * (2 * Pow2(Shift(half) - 1)) == 2 * (TWO_53 * Pow2(Shift(half) - 1));
    } else {
      assert Pow2(0) == 1;
    }
  }

  lemma {:induction false} Pow2Grows(a: nat, b: nat)
    requires a <= b
    ensures Pow2(a) <= Pow2(b)
    decreases b
  {
    if a < b { Pow2Grows(a, b - 1); }
  }

  lemma ExponentIsLarge(k: nat, e: nat, shift: nat)
    requires k < TWO_53 && shift > 0 && k * Pow2(e) >= TWO_53 * Pow2(shift - 1)
    ensures e >= shift
  {
    if e < shift {
      Pow2Grows(e, shift - 1);
      hide Pow2;
      ProductGrows(k, TWO_53, Pow2(e), Pow2(shift - 1));
    }
  }

  lemma Associates(k: nat, x: nat, y: nat)
    ensures k * (x * y) == (k * x) * y
  {
  }

  /** A double from half the range on is a multiple of the unit there. */
  lemma LargeIsMultiple(k: nat, e: nat, shift: nat) returns (j: nat)
    requires k < TWO_53 && shift > 0 && k * Pow2(e) >= TWO_53 * Pow2(shift - 1)
    ensures k * Pow2(e) == j * Pow2(shift)
  {
    hide Pow2;
    ExponentIsLarge(k, e, shift);
    Pow2Adds(e - shift, shift);
    j := k * Pow2(e - shift);
    Associates(k, Pow2(e - shift), Pow2(shift));
  }

  lemma ProductGrows(a: nat, b: nat, x: nat, y: nat)
    requires a < b && 0 < x <= y
    ensures a * x < b * y
  {
    assert a * x <= a * y && a * y < b * y;
  }

  /** Between two neighbouring multiples none is nearer than the nearer of the two. */
  lemma NearestMultiple(q: nat, r: nat, unit: nat, j: nat)
    requires 0 < unit && r < unit
    ensures Abs(q * unit + r - j * unit) >= if r <= unit - r then r else unit - r
  {
    Distributes(q, j, unit);
    ProductBounds(unit, q - j);
  }

  lemma Distributes(a: nat, b: nat, unit: nat)
    ensures a * unit - b * unit == unit * (a - b)
  {
  }

  /** How far rounding moves, and to which side when both are equally near. */
  lemma Rounded(n: nat, q: nat, r: nat, unit: nat)
    requires n >= TWO_53 && unit == Pow2(Shift(n)) && q == n / unit && r == n % unit
    ensures n == q * unit + r && Abs(n - RoundNat(n)) == if r <= unit - r then r else unit - r
    ensures 2 * r == unit ==> exists half: nat :: RoundNat(n) == 2 * half * unit
  {
    RoundedIs(n, q, r, unit);
    hide Pow2, Shift, RoundNat;
    Distributes(q + 1, q, unit);
    if 2 * r == unit {
      var half := if q % 2 == 0 then q / 2 else (q + 1) / 2;
      assert 2 * half == if q % 2 == 0 then q else q + 1;
      assert RoundNat(n) == 2 * half * unit;
    }
  }

  lemma RoundedIs(n: nat, q: nat, r: nat, unit: nat)
    requires n >= TWO_53 && unit == Pow2(Shift(n)) && q == n / unit && r == n % unit
    ensures n == q * unit + r
    ensures RoundNat(n) == if 2 * r < unit || (2 * r == unit && q % 2 == 0) then q * unit else (q + 1) * unit
  {
    hide Pow2, Shift;
  }

  /** Below half the range a double is further away than the lower neighbour. */
  lemma FarBelow(n: nat, q: nat, r: nat, unit: nat, low: nat, m: nat)
    requires n == q * unit + r && unit > 0 && r < unit && m < low <= n && low % unit == 0
    ensures Abs(n - m) > r
  {
    var c := low / unit;
    assert low == unit * c;
    Distributes(c, q, unit);
    ProductBounds(unit, c - q);
  }

  lemma LowIsMultiple(shift: nat)
    requires shift > 0
    ensures TWO_53 * Pow2(shift - 1) % Pow2(shift) == 0
  {
    var half, x := TWO_53 / 2, Pow2(shift - 1);
    assert TWO_53 == 2 * half;
    assert TWO_53 * x == half * (2 * x);
    DivideProduct(half, 2 * x);
  }

  /** What an integer is stored as is the nearest double, and of two that are equally near the one with an even
      mantissa. */
  lemma NearestDouble(n: nat, m: nat)
    requires IsExact(m)
    ensures Abs(n - RoundNat(n)) <= Abs(n - m)
    ensures n >= TWO_53 && 2 * (n % Pow2(Shift(n))) == Pow2(Shift(n)) ==>
            exists half: nat :: RoundNat(n) == 2 * half * Pow2(Shift(n))
  {
    if n >= TWO_53 {
      var shift := Shift(n);
      var unit := Pow2(shift);
      var q, r := n / unit, n % unit;
      ShiftLeast(n);
      Rounded(n, q, r, unit);
      var k: nat, e: nat :| IsMultiple(m, k, e);
      var low := TWO_53 * Pow2(shift - 1);
      LowIsMultiple(shift);
      hide Shift, RoundNat, IsExact, Pow2;
      if m >= low {
        var j := LargeIsMultiple(k, e, shift);
        NearestMultiple(q, r, unit, j);
      } else {
        FarBelow(n, q, r, unit, low, m);
      }
    }
  }
}
