/** MyMath.hpp: IntSqrt, a Newton iteration with an unusual stop rule. */
module IntSqrts {
  import Words

  /** The iteration, from x. */
  function Newton(y: nat, x: nat): nat
    requires x > 0
  {
    (x + y / x) / 2
  }

  predicate IsRoot(s: nat, y: nat) { s * s <= y < (s + 1) * (s + 1) }

  // ---------------------------------------------------------------- arithmetic

  lemma QuotientIs(y: nat, x: nat)
    requires x > 0
    ensures (y / x) * x <= y < (y / x + 1) * x
  {
  }

  lemma Square(a: nat, b: nat)
    requires a <= b
    ensures a * a <= b * b
  {
    assert b * b - a * a == (b - a) * (b + a);
  }

  /** Two numbers that add up to at most 2s multiply to at most s * s. */
  lemma ProductBelowSquare(a: nat, b: nat, s: nat)
    requires a + b <= 2 * s
    ensures a * b <= s * s
  {
    var d := a - b;
    assert 0 <= d * d;
    assert 4 * (a * b) == (a + b) * (a + b) - d * d;
    Square(a + b, 2 * s);
  }

  /** The floor root. */
  function Root(y: nat): (s: nat)
    ensures IsRoot(s, y)
  {
    if y == 0 then 0
    else
      var s := Root(y - 1);
      if (s + 1) * (s + 1) <= y then s + 1 else s
  }

  // ---------------------------------------------------------------- one step

  /** No step goes below the root. */
  lemma NotBelow(y: nat, x: nat, s: nat)
    requires x > 0 && s * s <= y
    ensures Newton(y, x) >= s
  {
    var q := y / x;
    QuotientIs(y, x);
    if x + q + 1 <= 2 * s {
      ProductBelowSquare(q + 1, x, s);
      assert false;
    }
  }

  /** Above the root every step goes down. */
  lemma GoesDown(y: nat, x: nat, s: nat)
    requires x > s && y < (s + 1) * (s + 1)
    ensures Newton(y, x) < x
  {
    Square(s + 1, x);
    QuotientIs(y, x);
    if y / x >= x {
      MulMono(x, y / x, x);
      assert false;
    }
  }

  lemma MulMono(a: nat, b: nat, c: nat)
    requires a <= b
    ensures a * c <= b * c
  {
    assert (b - a) * c >= 0;
  }

  /** From the root a step goes up by at most one. */
  lemma FromRoot(y: nat, s: nat)
    requires s > 0 && IsRoot(s, y)
    ensures Newton(y, s) <= s + 1
  {
    QuotientIs(y, s);
    assert (s + 3) * s == (s + 1) * (s + 1) + s - 1;
    if y / s >= s + 3 {
      MulMono(s + 3, y / s, s);
      assert false;
    }
  }

  /** From one above the root the next step is the root, and the iteration stops. */
  lemma FromAbove(y: nat, s: nat)
    requires IsRoot(s, y)
    ensures Newton(y, s + 1) == s
  {
    NotBelow(y, s + 1, s);
    GoesDown(y, s + 1, s);
  }

  /** When a step goes down by exactly one, to x, then x is the root or x * x == y + 1. */
  lemma StopsNear(y: nat, x: nat, s: nat)
    requires IsRoot(s, y) && x >= s && Newton(y, x + 1) == x
    ensures x * x <= y + 1
  {
    var q := y / (x + 1);
    QuotientIs(y, x + 1);
    if x > s {
      assert q >= x - 1;
      MulMono(x - 1, q, x + 1);
      assert (x - 1) * (x + 1) == x * x - 1;
    } else {
      Square(x, s);
    }
  }

  /** Distance to the end of the iteration. */
  function Rank(x: nat, s: nat): nat { if x == s then 1 else if x == s + 1 then 0 else x }

  /** The whole step: where it leads and that it terminates. */
  lemma Step(y: nat, x: nat, s: nat)
    requires x > 0 && IsRoot(s, y)
    ensures var n := Newton(y, x);
            && n >= s
            && (n == x || n + 1 == x ==> n * n <= y + 1)
            && (n != x && n + 1 != x && x >= s ==> Rank(n, s) < Rank(x, s))
  {
    var n := Newton(y, x);
    NotBelow(y, x, s);
    if x > s {
      GoesDown(y, x, s);
      if n + 1 == x {
        StopsNear(y, n, s);
      }
      if x == s + 1 {
        FromAbove(y, s);
      }
    } else if x == s {
      FromRoot(y, s);
    }
  }

  // ---------------------------------------------------------------- no overflow

  /** Every sum the iteration forms is at most 5 times the first estimate. */
  lemma SumBounded(y: nat, x: nat, x0: nat)
    requires 0 < x0 <= x <= 4 * x0 && y < 4 * (x0 * x0)
    ensures x + y / x <= 5 * x0
  {
    QuotientIs(y, x);
    var p := 5 * x0 - x;
    assert (x - x0) * (4 * x0 - x) >= 0;
    assert p * x == 4 * (x0 * x0) + (x - x0) * (4 * x0 - x);
    if y / x > p {
      MulMono(p, y / x, x);
      assert false;
    }
  }

  lemma RootAbove(y: nat, s: nat, x0: nat)
    requires IsRoot(s, y) && x0 * x0 <= y
    ensures x0 <= s
  {
    if s + 1 <= x0 {
      Square(s + 1, x0);
      assert false;
    }
  }

  /** A type whose largest value is at least 20 holds them. */
  lemma NoOverflow(x0: nat, limit: nat)
    requires limit >= 20 && x0 * x0 <= limit
    ensures 5 * x0 <= limit
  {
    if x0 > 4 {
      MulMono(5, x0, x0);
    }
  }

  // ---------------------------------------------------------------- the algorithm

  /** The rough estimate: doubled once for every two bits of y beyond the first two. */
  function EstimateFrom(y_: nat, x: nat): (r: nat)
    requires x > 0
    ensures r > 0
  {
    if y_ / 4 == 0 then x else EstimateFrom(y_ / 4, 2 * x)
  }

  /** It is a power of two within a factor of two below the root. */
  method Estimate(y: nat) returns (x: nat)
    ensures x == EstimateFrom(y, 1)
    ensures x > 0 && y < 4 * (x * x) && (x * x <= y || (y == 0 && x == 1))
  {
    x := 1;
    var y_: nat := y / 4;
    ghost var u := y;
    while y_ > 0
      invariant x > 0 && Rough(y, y_, x)
      invariant y_ == u / 4 && EstimateFrom(u, x) == EstimateFrom(y, 1)
      decreases y_
    {
      EstimateStep(y, y_, x);
      u := y_;
      y_ := y_ / 4;
      x := 2 * x;
    }
  }

  /** y_ is what is left of y once x is doubled as often as y was quartered. */
  ghost predicate Rough(y: nat, y_: nat, x: nat) {
    y_ * (4 * (x * x)) <= y < (y_ + 1) * (4 * (x * x)) && (x * x <= y || (y == 0 && x == 1))
  }

  lemma EstimateStep(y: nat, u: nat, x: nat)
    requires u > 0 && Rough(y, u, x)
    ensures Rough(y, u / 4, 2 * x)
  {
    var c := 4 * (x * x);
    assert (2 * x) * (2 * x) == c;
    QuarterStep(y, u, c);
  }

  lemma QuarterStep(y: nat, u: nat, c: nat)
    requires u > 0 && u * c <= y < (u + 1) * c
    ensures (u / 4) * (4 * c) <= y < (u / 4 + 1) * (4 * c) && c <= y
  {
    var q := u / 4;
    assert q * (4 * c) == (4 * q) * c && (q + 1) * (4 * c) == (4 * q + 4) * c;
    MulMono(4 * q, u, c);
    MulMono(u + 1, 4 * q + 4, c);
    MulMono(1, u, c);
  }

  /** The loop from x on, with its stop rule. */
  function Iterate(y: nat, x: nat): (r: nat)
    requires x > 0
    ensures r * r <= y + 1 && y < (r + 1) * (r + 1)
    decreases x < Root(y), Rank(x, Root(y))
  {
    var n, s := Newton(y, x), Root(y);
    Step(y, x, s);
    Square(s + 1, n + 1);
    if n == x || n + 1 == x then n
    else
      Positive(y, x);
      Iterate(y, n)
  }

  /** A step to 0 comes from 1, and stops. */
  lemma Positive(y: nat, x: nat)
    requires x > 0
    ensures Newton(y, x) == 0 ==> x == 1
  {
  }

  /** What IntSqrt returns. */
  function IntSqrtOf(y: nat): nat {
    Iterate(y, EstimateFrom(y, 1))
  }

  /** Where the estimate x0 lies. */
  ghost predicate Near(y: nat, s: nat, x0: nat) {
    IsRoot(s, y) && x0 > 0 && y < 4 * (x0 * x0) && (x0 <= s || (y == 0 && x0 == 1 && s == 0))
  }

  /** One turn of the loop. */
  lemma Turn(y: nat, x: nat, s: nat, x0: nat)
    requires Near(y, s, x0) && x0 <= x && 2 * x <= 5 * x0
    ensures x + y / x <= 5 * x0
    ensures var n := Newton(y, x);
            && n >= s
            && if n == x || n + 1 == x then n * n <= y + 1
               else x0 <= n && 2 * n <= 5 * x0 && (x >= s ==> Rank(n, s) < Rank(x, s))
  {
    SumBounded(y, x, x0);
    Step(y, x, s);
    if y == 0 {
      assert x <= 2;
    }
  }

  lemma EstimateNear(y: nat, s: nat, x0: nat)
    requires IsRoot(s, y) && x0 > 0 && y < 4 * (x0 * x0) && (x0 * x0 <= y || (y == 0 && x0 == 1))
    ensures Near(y, s, x0)
  {
    if x0 * x0 <= y {
      RootAbove(y, s, x0);
    } else if s > 0 {
      Square(1, s);
    }
  }

  /**
   For every y: it terminates, never divides by zero, forms no sum that a type holding y cannot
   hold, and yields the floor root, or one more when y + 1 is a perfect square.
   */
  method IntSqrt(y: nat, ghost limit: nat) returns (x: nat)
    requires y <= limit && limit >= 20
    ensures x == IntSqrtOf(y)
    ensures x * x <= y + 1 && y < (x + 1) * (x + 1)
  {
    ghost var s := Root(y);
    x := Estimate(y);
    ghost var x0 := x;
    EstimateNear(y, s, x0);
    NoOverflow(x0, limit);
    ghost var first := true;
    var stop := false;
    while !stop
      invariant Near(y, s, x0) && 5 * x0 <= limit
      invariant if stop then x == IntSqrtOf(y) else x0 <= x && Iterate(y, x) == IntSqrtOf(y)
      invariant !stop ==> 2 * x <= 5 * x0 && (first || x >= s)
      decreases !stop, first, Rank(x, s)
    {
      var old_x := x;
      Turn(y, old_x, s, x0);
      assert old_x + y / old_x <= limit;
      x := Newton(y, old_x);
      stop := x == old_x || x + 1 == old_x;
      first := false;
    }
  }

  /** The floor root, except possibly one below a perfect square. */
  lemma FloorUnlessBelowSquare(y: nat, x: nat, s: nat)
    requires x * x <= y + 1 && y < (x + 1) * (x + 1) && IsRoot(s, y)
    ensures x == s || (x == s + 1 && y + 1 == x * x)
  {
    assert (s + 2) * (s + 2) == (s + 1) * (s + 1) + 2 * s + 3;
    if x < s {
      Square(x + 1, s);
      assert false;
    } else if x > s {
      Square(s + 1, x);
      if x > s + 1 {
        Square(s + 2, x);
        assert false;
      }
    }
  }

  /** The iteration from x comes by v. */
  predicate Visits(y: nat, x: nat, v: nat)
    requires x > 0
    decreases x < Root(y), Rank(x, Root(y))
  {
    var n := Newton(y, x);
    Step(y, x, Root(y));
    x == v || (n != x && n + 1 != x && (Positive(y, x); Visits(y, n, v)))
  }

  /** From one above a root of y + 1 the next step is that root, and the iteration stops there. */
  lemma FromOneAbove(y: nat, m: nat)
    requires m > 0 && y + 1 == m * m
    ensures Newton(y, m + 1) == m
  {
    assert y == (m - 1) * (m + 1) + 0;
    Words.DivModUnique(y, m + 1, m - 1, 0);
  }

  /**
   The result exceeds the floor root exactly when y + 1 is a perfect square and the iteration comes by
   one above its root.
   */
  lemma {:induction false} ExceedsIff(y: nat, x: nat)
    requires x > 0
    ensures var m := Root(y) + 1;
            Iterate(y, x) == m <==> y + 1 == m * m && Visits(y, x, m + 1)
    decreases x < Root(y), Rank(x, Root(y))
  {
    var n, s := Newton(y, x), Root(y);
    Step(y, x, s);
    FloorUnlessBelowSquare(y, Iterate(y, x), s);
    if n == x || n + 1 == x {
      if x > s {
        GoesDown(y, x, s);
      }
    } else {
      Positive(y, x);
      if y + 1 == (s + 1) * (s + 1) {
        FromOneAbove(y, s + 1);
      }
      ExceedsIff(y, n);
    }
  }

  /** For 48 the estimate is 4, which leads through 8 to 7; for 24 it leads through 5 to 4, the floor root. */
  lemma Below49And25()
    ensures EstimateFrom(48, 1) == 4 && IntSqrtOf(48) == 7 && IsRoot(6, 48)
    ensures EstimateFrom(24, 1) == 4 && IntSqrtOf(24) == 4 && IsRoot(4, 24)
  {
    assert Newton(48, 4) == 8 && Newton(48, 8) == 7;
    assert Newton(24, 4) == 5 && Newton(24, 5) == 4;
  }
}
