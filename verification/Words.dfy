/**
 Machine words: bytes, powers of two, the bitwise `&` that the ring buffers mask
 their counters with, and wrap-around subtraction.
 */
module Words {
  type byte = x: int | 0 <= x < 256

  function Pow2(n: nat): (p: nat)
    ensures p >= 1
  {
    if n == 0 then 1 else 2 * Pow2(n - 1)
  }

  /** Bitwise and of two unsigned words, bit by bit. */
  function And(a: nat, b: nat): nat
    decreases b
  {
    if b == 0 then 0 else 2 * And(a / 2, b / 2) + (if a % 2 == 1 && b % 2 == 1 then 1 else 0)
  }

  /** Quotient and remainder are unique. */
  lemma DivModUnique(x: int, m: int, q: int, r: int)
    requires m > 0 && 0 <= r < m && x == q * m + r
    ensures x / m == q && x % m == r
  {
    var d := q - x / m;
    assert d * m == x % m - r;
    if d != 0 {
      MultipleIsFar(d, m);
    }
  }

  lemma MultipleIsFar(d: int, m: int)
    requires m > 0 && d != 0
    ensures d * m >= m || d * m <= -m
  {
    if d > 0 {
      assert (d - 1) * m >= 0;
    } else {
      assert (-d - 1) * m >= 0;
    }
  }

  /** Adding a whole number of moduli does not change a remainder. */
  lemma ModShift(x: int, k: int, m: int)
    requires m > 0
    ensures (x + k * m) % m == x % m
  {
    var q, r := x / m, x % m;
    assert x + k * m == (q + k) * m + r;
    DivModUnique(x + k * m, m, q + k, r);
  }

  /** Reducing a summand first changes nothing. */
  lemma ModAdd(a: int, b: int, m: int)
    requires m > 0
    ensures (a % m + b) % m == (a + b) % m
  {
    ModShift(a % m + b, a / m, m);
  }

  lemma {:induction false} Pow2Split(a: nat, b: nat)
    ensures Pow2(a + b) == Pow2(a) * Pow2(b)
  {
    if a > 0 {
      Pow2Split(a - 1, b);
      assert Pow2(a + b) == 2 * Pow2(a - 1 + b);
    }
  }

  /** The remainder modulo 2m, from the remainder of the halved number modulo m. */
  lemma ModDouble(a: nat, m: nat)
    requires m > 0
    ensures a % (2 * m) == 2 * ((a / 2) % m) + a % 2
  {
    var q, r := (a / 2) / m, (a / 2) % m;
    assert q * (2 * m) == 2 * (q * m);
    DivModUnique(a, 2 * m, q, 2 * r + a % 2);
  }

  lemma AndOdd(a: nat, m: nat)
    requires m > 0
    ensures And(a, 2 * m - 1) == 2 * And(a / 2, m - 1) + a % 2
  {
    assert (2 * m - 1) / 2 == m - 1 && (2 * m - 1) % 2 == 1;
  }

  lemma MaskStep(a: nat, m: nat)
    requires m > 0 && And(a / 2, m - 1) == (a / 2) % m
    ensures And(a, 2 * m - 1) == a % (2 * m)
  {
    AndOdd(a, m);
    ModDouble(a, m);
  }

  /** Masking with 2^n - 1 is taking the remainder modulo 2^n. */
  lemma {:induction false} AndMask(a: nat, n: nat)
    ensures And(a, Pow2(n) - 1) == a % Pow2(n)
  {
    if n > 0 {
      AndMask(a / 2, n - 1);
      MaskStep(a, Pow2(n - 1));
    }
  }

  /** `(x as an unsigned word of width w) & (2^n - 1)`, for any integer x. */
  function MaskWord(x: int, w: nat, n: nat): nat {
    And(x % Pow2(w), Pow2(n) - 1)
  }

  /** Wrapping at the counter width first is invisible once the low n bits are kept. */
  lemma MaskWordIsMod(x: int, w: nat, n: nat)
    requires n <= w
    ensures MaskWord(x, w, n) == x % Pow2(n)
  {
    AndMask(x % Pow2(w), n);
    Pow2Split(w - n, n);
    ModOfMod(x, Pow2(w - n), Pow2(n));
  }

  lemma ModOfMod(x: int, k: int, m: int)
    requires k > 0 && m > 0 && k * m > 0
    ensures (x % (k * m)) % m == x % m
  {
    var c := k * m;
    var q, r := x / c, x % c;
    assert x == q * c + r;
    assert q * c == (q * k) * m;
    ModShift(r, q * k, m);
  }

  /** The distance from r to w on a circle of m cells. */
  lemma CircleDistance(r: int, w: int, m: int)
    requires 0 <= r < m && 0 <= w < m
    ensures (w - r) % m == if w >= r then w - r else w - r + m
  {
    DivModUnique(w - r, m, if w >= r then 0 else -1, if w >= r then w - r else w - r + m);
  }
}
