/** Integer-valued IEEE 754 doubles, rounded to nearest with ties to even (section
    4.3.1 of IEEE 754-2019). Lua computes the step of `incr_floor` with them. */
module Doubles {
  /** 2^53: every integer of smaller magnitude is a double. */
  const EXACT: int := 9007199254740992

  /** 2^52: the least significand of a double from 2^53 on. */
  const HALF: int := 4503599627370496

  function Abs(x: int): nat {
    if x < 0 then -x else x
  }

  /** The spacing of the doubles around the magnitude `m`. */
  function Ulp(m: nat): nat {
    if m < EXACT then 1 else 2 * Ulp(m / 2)
  }

  /** The significand `m / Ulp(m)` has 53 bits, and exactly 53 from 2^53 on. */
  lemma {:induction false} UlpShape(m: nat)
    ensures Ulp(m) >= 1 && m < Ulp(m) * EXACT
    ensures m >= EXACT ==> Ulp(m) >= 2 && Ulp(m) * (HALF) <= m
  {
    if m >= EXACT {
      UlpShape(m / 2);
    }
  }

  /** The multiple of `u` nearest to `m`, of two the even one. */
  function RoundTo(m: nat, u: nat): int
    requires u >= 1
  {
    var q, r := m / u, m % u;
    if 2 * r < u || (2 * r == u && q % 2 == 0) then q * u else (q + 1) * u
  }

  function RoundMagnitude(m: nat): int {
    UlpShape(m);
    RoundTo(m, Ulp(m))
  }

  /** The double nearest to the integer `x`. */
  function Round(x: int): int {
    if x < 0 then -RoundMagnitude(-x) else RoundMagnitude(x)
  }

  lemma RoundSmall(x: int)
    requires Abs(x) <= EXACT
    ensures Round(x) == x
  {
    var m := Abs(x);
    if m < EXACT {
      assert Ulp(m) == 1;
    } else {
      assert Ulp(m / 2) == 1;
      assert Ulp(m) == 2;
    }
  }

  lemma QuotientAtLeast(m: nat, u: nat, c: nat)
    requires u >= 1 && c * u <= m
    ensures m / u >= c
  {
    var q, r := m / u, m % u;
    assert m == q * u + r;
    if q < c {
      MulMonotone(q + 1, c, u);
    }
  }

  lemma MulMonotone(a: int, b: int, u: nat)
    requires a <= b
    ensures a * u <= b * u
  {
    assert (b - a) * u >= 0;
    assert (b - a) * u == b * u - a * u;
  }

  lemma RoundLarge(m: nat)
    requires m >= EXACT
    ensures RoundMagnitude(m) >= EXACT
  {
    UlpShape(m);
    var u := Ulp(m);
    QuotientAtLeast(m, u, HALF);
    var q := m / u;
    MulMonotone(HALF, q, u);
    MulMonotone(HALF, q + 1, u);
  }

  /** The test `math.abs(x) >= 2^53` on the rounded operand decides the operand itself. */
  lemma GuardExact(x: int)
    ensures Abs(Round(x)) >= EXACT <==> Abs(x) >= EXACT
  {
    if Abs(x) < EXACT {
      RoundSmall(x);
    } else {
      RoundLarge(Abs(x));
    }
  }

  /** Between 2^53 and 2^54 the doubles are the even integers; an odd one goes to the
      neighbour divisible by four. */
  lemma RoundNextBinade(m: nat)
    requires EXACT <= m < 2 * EXACT
    ensures m % 2 == 0 ==> Round(m) == m
    ensures m % 4 == 1 ==> Round(m) == m - 1
    ensures m % 4 == 3 ==> Round(m) == m + 1
  {
    assert Ulp(m / 2) == 1;
    assert Ulp(m) == 2;
    assert Round(m) == RoundTo(m, 2);
  }

  /** In the binade after it they are the multiples of four. */
  lemma RoundThirdBinade(m: nat)
    requires 2 * EXACT <= m < 4 * EXACT
    ensures m % 4 == 0 ==> Round(m) == m
    ensures m % 4 == 1 ==> Round(m) == m - 1
    ensures m % 4 == 2 ==> Round(m) == m - 2 || Round(m) == m + 2
    ensures m % 4 == 3 ==> Round(m) == m + 1
  {
    assert Ulp(m / 2 / 2) == 1;
    assert Ulp(m / 2) == 2;
    assert Ulp(m) == 4;
    assert Round(m) == RoundTo(m, 4);
  }

  /** What `r`, the rounding of `x`, can be for an `x` between -2^53 and 2^55. */
  predicate Rounded(x: int, r: int) {
    if x <= EXACT || x % 4 == 0 then r == x
    else if x % 4 == 1 then r == x - 1
    else if x % 4 == 3 then r == x + 1
    else if x < 2 * EXACT then r == x
    else r == x - 2 || r == x + 2
  }

  lemma RoundCases(x: int)
    requires -EXACT <= x < 4 * EXACT
    ensures Rounded(x, Round(x))
  {
    if x <= EXACT {
      RoundSmall(x);
    } else if x < 2 * EXACT {
      RoundNextBinade(x);
    } else {
      RoundThirdBinade(x);
    }
  }

  // ---- The rounding is to nearest, ties to even ----

  /** A double: an integer that is a multiple of the spacing at its own magnitude. */
  predicate Double(y: int) {
    UlpShape(Abs(y));
    Abs(y) % Ulp(Abs(y)) == 0
  }

  /** The spacing grows by whole factors. */
  lemma {:induction false} UlpDivides(m: nat, n: nat) returns (c: nat)
    requires m <= n
    ensures Ulp(n) == c * Ulp(m)
    decreases n
  {
    if m < EXACT {
      c := Ulp(n);
    } else {
      c := UlpDivides(m / 2, n / 2);
      assert 2 * (c * Ulp(m / 2)) == c * (2 * Ulp(m / 2));
    }
  }

  lemma FactorIsOne(u: nat, v: nat, c: nat)
    requires u == c * v && 1 <= u < 2 * v
    ensures u == v
  {
    if c >= 2 {
      MulMonotone(2, c, v);
    }
  }

  /** The bottom of the binade of `m` has the spacing of `m`. */
  lemma BinadeBottom(m: nat)
    requires m >= EXACT
    ensures Ulp(Bottom(m)) == Ulp(m)
  {
    UlpShape(m);
    UlpShape(Bottom(m));
    var c := UlpDivides(Bottom(m), m);
    FactorIsOne(Ulp(m), Ulp(Bottom(m)), c);
  }

  function Bottom(m: nat): nat {
    Ulp(m) * (HALF)
  }

  lemma ModMultiple(y: nat, u: nat, c: nat)
    requires u >= 1 && c >= 1 && y % (c * u) == 0
    ensures exists j: nat :: y == j * u
  {
    var v := c * u;
    assert v >= 1 by { MulMonotone(1, c, u); }
    var q := y / v;
    assert y == q * v;
    assert q * v == (q * c) * u;
  }

  /** No multiple of `u` is nearer to `m` than the rounded one. */
  lemma NearestMultiple(m: nat, u: nat, j: nat)
    requires u == Ulp(m) && u >= 1
    ensures Abs(RoundMagnitude(m) - m) <= Abs(j * u - m)
    ensures Abs(RoundMagnitude(m) - m) <= m % u
  {
    var q, r := m / u, m % u;
    assert m == q * u + r;
    assert (q + 1) * u == q * u + u;
    if j <= q {
      MulMonotone(j, q, u);
    } else {
      MulMonotone(q + 1, j, u);
    }
  }

  /** Every double from the bottom of the binade on is a multiple of the spacing. */
  lemma DoubleIsMultiple(m: nat, y: nat) returns (j: nat)
    requires m >= EXACT && y >= Bottom(m) && Double(y)
    ensures y == j * Ulp(m)
  {
    UlpShape(m);
    UlpShape(y);
    BinadeBottom(m);
    var c := UlpDivides(Bottom(m), y);
    assert c != 0;
    ModMultiple(y, Ulp(m), c);
    j :| y == j * Ulp(m);
  }

  lemma NearestBelow(m: nat, y: nat)
    requires m >= EXACT && y < Bottom(m)
    ensures Abs(RoundMagnitude(m) - m) <= Abs(y - m)
  {
    UlpShape(m);
    var d := Abs(RoundMagnitude(m) - m);
    assert d <= m - Bottom(m) by {
      NearestMultiple(m, Ulp(m), HALF);
    }
  }

  lemma NearestMagnitude(m: nat, y: nat)
    requires Double(y)
    ensures Abs(RoundMagnitude(m) - m) <= Abs(y - m)
  {
    if m < EXACT {
      RoundSmall(m);
    } else if y < Bottom(m) {
      NearestBelow(m, y);
    } else {
      UlpShape(m);
      var j := DoubleIsMultiple(m, y);
      NearestMultiple(m, Ulp(m), j);
    }
  }

  /** A multiple of the spacing within the binade, or its upper end, is a double. */
  lemma MultipleIsDouble(m: nat, q: nat)
    requires m >= EXACT && HALF <= q <= EXACT
    ensures Double(q * Ulp(m))
  {
    UlpShape(m);
    var u := Ulp(m);
    var y := q * u;
    MulMonotone(HALF, q, u);
    MulMonotone(q, EXACT, u);
    UlpShape(y);
    BinadeBottom(m);
    var c := UlpDivides(Bottom(m), y);
    if q < EXACT {
      MulMonotone(q + 1, EXACT, u);
      assert (q + 1) * u == y + u;
      FactorIsOne(Ulp(y), u, c);
      MultipleMod(q, u);
    } else {
      assert u < Ulp(y) <= 2 * u;
      FactorIsTwo(Ulp(y), u, c);
      assert y == HALF * Ulp(y);
      MultipleMod(HALF, Ulp(y));
    }
  }

  lemma FactorIsTwo(u: nat, v: nat, c: nat)
    requires u == c * v && v < u <= 2 * v
    ensures u == 2 * v
  {
    if c >= 3 {
      MulMonotone(3, c, v);
    }
  }

  lemma MultipleMod(q: nat, u: nat)
    requires u >= 1
    ensures (q * u) % u == 0
  {
    var y := q * u;
    var a, r := y / u, y % u;
    assert y == a * u + r;
    if a < q {
      MulMonotone(a + 1, q, u);
    } else if a > q {
      MulMonotone(q + 1, a, u);
    }
  }

  lemma RoundMagnitudeIsDouble(m: nat)
    ensures Double(RoundMagnitude(m))
  {
    if m < EXACT {
      RoundSmall(m);
      assert Ulp(m) == 1;
    } else {
      UlpShape(m);
      var u := Ulp(m);
      QuotientAtLeast(m, u, HALF);
      QuotientBelow(m, u, EXACT);
      MultipleIsDouble(m, m / u);
      MultipleIsDouble(m, m / u + 1);
    }
  }

  lemma QuotientBelow(m: nat, u: nat, c: nat)
    requires u >= 1 && m < c * u
    ensures m / u < c
  {
    var q, r := m / u, m % u;
    assert m == q * u + r;
    if q >= c {
      MulMonotone(c, q, u);
    }
  }

  /** `Round` gives a double, no double is nearer, and of two equally near ones it takes the
      one with the even significand. */
  lemma RoundIsNearestEven(x: int, y: int)
    requires Double(y)
    ensures Double(Round(x))
    ensures Abs(Round(x) - x) <= Abs(y - x)
    ensures Ulp(Abs(x)) >= 1
    ensures 2 * (Abs(x) % Ulp(Abs(x))) == Ulp(Abs(x)) ==> exists k: nat :: Abs(Round(x)) == 2 * k * Ulp(Abs(x))
  {
    var m := Abs(x);
    UlpShape(m);
    RoundMagnitudeIsDouble(m);
    NearestMagnitude(m, Abs(y));
    NearestMultiple(m, Ulp(m), 0);
    TieToEven(m);
  }

  lemma TieToEven(m: nat)
    ensures Ulp(m) >= 1 && RoundMagnitude(m) >= 0
    ensures 2 * (m % Ulp(m)) == Ulp(m) ==> exists k: nat :: RoundMagnitude(m) == 2 * k * Ulp(m)
  {
    UlpShape(m);
    var u := Ulp(m);
    var q := m / u;
    var half := if q % 2 == 0 then q / 2 else (q + 1) / 2;
    assert 2 * half * u == (if q % 2 == 0 then q else q + 1) * u;
    MulMonotone(0, q, u);
    MulMonotone(0, q + 1, u);
  }
}
