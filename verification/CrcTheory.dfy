/**
 The division behind the CRCs of common_c.c, on registers of any width: a register is the
 sequence of its bits in processing order, the next one to leave first.
 */
module CrcTheory {

  function Zeros(n: nat): seq<bool> { seq(n, _ => false) }

  function Xor(a: seq<bool>, b: seq<bool>): (r: seq<bool>)
    requires |a| == |b|
    ensures |r| == |a|
  {
    seq(|a|, i requires 0 <= i < |a| => a[i] != b[i])
  }

  /** Message bits lined up with the first bits of an n-bit register. */
  function Pad(bits: seq<bool>, n: nat): (r: seq<bool>)
    requires |bits| <= n
    ensures |r| == n
  {
    bits + Zeros(n - |bits|)
  }

  /** `(crc & first) ? (crc shifted) ^ poly : (crc shifted)`. */
  function Step(c: seq<bool>, poly: seq<bool>): (r: seq<bool>)
    requires |c| == |poly| > 0
    ensures |r| == |c|
  {
    var shifted := c[1..] + [false];
    if c[0] then Xor(shifted, poly) else shifted
  }

  function Steps(c: seq<bool>, poly: seq<bool>, n: nat): (r: seq<bool>)
    requires |c| == |poly| > 0
    ensures |r| == |c|
    decreases n, |c|
  {
    if n == 0 then c else Steps(Step(c, poly), poly, n - 1)
  }

  /** The textbook form: one message bit per step. */
  function Serial(bits: seq<bool>, c: seq<bool>, poly: seq<bool>): (r: seq<bool>)
    requires |c| == |poly| > 0
    ensures |r| == |c|
  {
    if bits == [] then c
    else Serial(bits[1..], Step(Xor(c, Pad([bits[0]], |c|)), poly), poly)
  }

  // ---------------------------------------------------------------- one step

  lemma StepLinear(a: seq<bool>, b: seq<bool>, poly: seq<bool>)
    requires |a| == |b| == |poly| > 0
    ensures Step(Xor(a, b), poly) == Xor(Step(a, poly), Step(b, poly))
  {
  }

  /** With the last bit of the polynomial set no two registers step to the same one. */
  lemma StepInjective(a: seq<bool>, b: seq<bool>, poly: seq<bool>)
    requires |a| == |b| == |poly| > 0 && poly[|poly| - 1]
    requires Step(a, poly) == Step(b, poly)
    ensures a == b
  {
    var n := |a|;
    assert Step(a, poly)[n - 1] == a[0] && Step(b, poly)[n - 1] == b[0];
    forall i | 0 < i < n
      ensures a[i] == b[i]
    {
      assert Step(a, poly)[i - 1] == (a[i] != (a[0] && poly[i - 1]));
      assert Step(b, poly)[i - 1] == (b[i] != (b[0] && poly[i - 1]));
    }
  }

  /** Each bit step is a bijection exactly when that bit is set. */
  lemma StepInjectiveIff(poly: seq<bool>)
    requires |poly| > 0
    ensures (forall a: seq<bool>, b: seq<bool> | |a| == |b| == |poly| && Step(a, poly) == Step(b, poly) :: a == b)
            <==> poly[|poly| - 1]
  {
    var n := |poly|;
    if poly[n - 1] {
      forall a: seq<bool>, b: seq<bool> | |a| == |b| == n && Step(a, poly) == Step(b, poly)
        ensures a == b
      {
        StepInjective(a, b, poly);
      }
    } else {
      var a, b := [true] + Zeros(n - 1), [false] + poly[..n - 1];
      assert Step(a, poly) == poly == Step(b, poly);
      assert a[0] != b[0];
    }
  }

  lemma {:induction false} StepsInjective(a: seq<bool>, b: seq<bool>, poly: seq<bool>, n: nat)
    requires |a| == |b| == |poly| > 0 && poly[|poly| - 1]
    requires Steps(a, poly, n) == Steps(b, poly, n)
    ensures a == b
    decreases n
  {
    if n > 0 {
      StepsInjective(Step(a, poly), Step(b, poly), poly, n - 1);
      StepInjective(a, b, poly);
    }
  }

  // ---------------------------------------------------------------- many bits at once

  lemma StepAhead(c: seq<bool>, bits: seq<bool>, poly: seq<bool>)
    requires |c| == |poly| > 0 && 0 < |bits| <= |c|
    ensures Step(Xor(c, Pad(bits, |c|)), poly)
            == Xor(Step(Xor(c, Pad([bits[0]], |c|)), poly), Pad(bits[1..], |c|))
  {
  }

  /** Adding up to a register's worth of bits at once and then stepping is the bit-serial form. */
  lemma {:induction false} SerialIsSteps(bits: seq<bool>, c: seq<bool>, poly: seq<bool>)
    requires |c| == |poly| > 0 && |bits| <= |c|
    ensures Serial(bits, c, poly) == Steps(Xor(c, Pad(bits, |c|)), poly, |bits|)
  {
    if bits == [] {
      assert Xor(c, Pad(bits, |c|)) == c;
    } else {
      SerialIsSteps(bits[1..], Step(Xor(c, Pad([bits[0]], |c|)), poly), poly);
      StepAhead(c, bits, poly);
    }
  }

  lemma {:induction false} SerialConcat(p: seq<bool>, q: seq<bool>, c: seq<bool>, poly: seq<bool>)
    requires |c| == |poly| > 0
    ensures Serial(p + q, c, poly) == Serial(q, Serial(p, c, poly), poly)
  {
    if p == [] {
      assert p + q == q;
    } else {
      assert (p + q)[1..] == p[1..] + q;
      SerialConcat(p[1..], q, Step(Xor(c, Pad([p[0]], |c|)), poly), poly);
    }
  }

  lemma {:induction false} SerialInjective(bits: seq<bool>, a: seq<bool>, b: seq<bool>, poly: seq<bool>)
    requires |a| == |b| == |poly| > 0 && poly[|poly| - 1]
    requires Serial(bits, a, poly) == Serial(bits, b, poly)
    ensures a == b
  {
    if bits != [] {
      var x := Pad([bits[0]], |a|);
      SerialInjective(bits[1..], Step(Xor(a, x), poly), Step(Xor(b, x), poly), poly);
      StepInjective(Xor(a, x), Xor(b, x), poly);
      XorCancel(a, b, x);
    }
  }

  lemma XorCancel(a: seq<bool>, b: seq<bool>, x: seq<bool>)
    requires |a| == |b| == |x| && Xor(a, x) == Xor(b, x)
    ensures a == b
  {
    forall i | 0 <= i < |a|
      ensures a[i] == b[i]
    {
      assert Xor(a, x)[i] == Xor(b, x)[i];
    }
  }

  // ---------------------------------------------------------------- the main results

  /** A CRC is linear in the message and the seed together. */
  lemma {:induction false} SerialLinear(p: seq<bool>, q: seq<bool>, a: seq<bool>, b: seq<bool>, poly: seq<bool>)
    requires |a| == |b| == |poly| > 0 && |p| == |q|
    ensures Serial(Xor(p, q), Xor(a, b), poly) == Xor(Serial(p, a, poly), Serial(q, b, poly))
  {
    if p != [] {
      var n := |a|;
      var x, y := Xor(a, Pad([p[0]], n)), Xor(b, Pad([q[0]], n));
      assert Xor(Xor(a, b), Pad([p[0] != q[0]], n)) == Xor(x, y);
      StepLinear(x, y, poly);
      assert Xor(p, q)[1..] == Xor(p[1..], q[1..]);
      SerialLinear(p[1..], q[1..], Step(x, poly), Step(y, poly), poly);
    }
  }

  /** Two messages that differ, and only within `w` consecutive bits starting at `s`. */
  ghost predicate DifferInWindow(p: seq<bool>, q: seq<bool>, s: nat, w: nat) {
    && |p| == |q| && p != q && s + w <= |p|
    && p[..s] == q[..s] && p[s + w..] == q[s + w..]
  }

  lemma CutAt(p: seq<bool>, s: nat, w: nat)
    requires s + w <= |p|
    ensures p == p[..s] + (p[s..s + w] + p[s + w..])
  {
  }

  /** Two messages that agree but for the window, cut there. */
  lemma CutAtWindow(p: seq<bool>, q: seq<bool>, s: nat, w: nat)
    requires DifferInWindow(p, q, s, w)
    ensures p == p[..s] + (p[s..s + w] + p[s + w..]) && q == p[..s] + (q[s..s + w] + p[s + w..])
    ensures p[s..s + w] != q[s..s + w]
  {
    CutAt(p, s, w);
    CutAt(q, s, w);
  }

  /** The same register in the end, the same window in the middle. */
  lemma SameWindow(head: seq<bool>, x: seq<bool>, y: seq<bool>, tail: seq<bool>, c: seq<bool>, poly: seq<bool>)
    requires |c| == |poly| > 0 && poly[|poly| - 1] && |x| == |y| <= |poly|
    requires Serial(head + (x + tail), c, poly) == Serial(head + (y + tail), c, poly)
    ensures x == y
  {
    var d := Serial(head, c, poly);
    SplitWindow(head, x, tail, c, poly);
    SplitWindow(head, y, tail, c, poly);
    SerialInjective(tail, Serial(x, d, poly), Serial(y, d, poly), poly);
    ShortIsSeen(x, y, d, poly);
  }

  lemma ShortIsSeen(x: seq<bool>, y: seq<bool>, d: seq<bool>, poly: seq<bool>)
    requires |d| == |poly| > 0 && poly[|poly| - 1] && |x| == |y| <= |poly|
    requires Serial(x, d, poly) == Serial(y, d, poly)
    ensures x == y
  {
    SerialIsSteps(x, d, poly);
    SerialIsSteps(y, d, poly);
    StepsInjective(Xor(d, Pad(x, |d|)), Xor(d, Pad(y, |d|)), poly, |x|);
    WindowInRegister(x, y, d);
  }

  /** Every error burst no longer than the register is detected. */
  lemma BurstDetected(p: seq<bool>, q: seq<bool>, s: nat, w: nat, c: seq<bool>, poly: seq<bool>)
    requires |c| == |poly| > 0 && poly[|poly| - 1] && w <= |poly|
    requires DifferInWindow(p, q, s, w)
    ensures Serial(p, c, poly) != Serial(q, c, poly)
  {
    CutAtWindow(p, q, s, w);
    if Serial(p, c, poly) == Serial(q, c, poly) {
      SameWindow(p[..s], p[s..s + w], q[s..s + w], p[s + w..], c, poly);
    }
  }

  lemma SplitWindow(head: seq<bool>, x: seq<bool>, tail: seq<bool>, c: seq<bool>, poly: seq<bool>)
    requires |c| == |poly| > 0
    ensures Serial(head + (x + tail), c, poly) == Serial(tail, Serial(x, Serial(head, c, poly), poly), poly)
  {
    SerialConcat(head, x + tail, c, poly);
    SerialConcat(x, tail, Serial(head, c, poly), poly);
  }

  lemma WindowInRegister(x: seq<bool>, y: seq<bool>, d: seq<bool>)
    requires |x| == |y| <= |d| && Xor(d, Pad(x, |d|)) == Xor(d, Pad(y, |d|))
    ensures x == y
  {
    forall i | 0 <= i < |x|
      ensures x[i] == y[i]
    {
      assert Xor(d, Pad(x, |d|))[i] == Xor(d, Pad(y, |d|))[i];
    }
  }

  /** ... and one bit more is too long: the polynomial itself, with its leading one, goes unseen. */
  lemma LongerBurstMissed(c: seq<bool>, poly: seq<bool>)
    requires |c| == |poly| > 0
    ensures DifferInWindow([true] + poly, Zeros(1 + |poly|), 0, |poly| + 1)
    ensures Serial([true] + poly, c, poly) == Serial(Zeros(1 + |poly|), c, poly)
  {
    var n := |poly|;
    var p, q := [true] + poly, Zeros(1 + n);
    assert p[0] != q[0];
    PolyLeavesNothing(poly);
    SerialLinear(p, q, Zeros(n), c, poly);
    XorZeros(p);
    XorZeros(c);
    XorZeros(Serial(q, c, poly));
  }

  /** The polynomial with its leading one, s places into n bits. */
  function PolyAt(s: nat, poly: seq<bool>, n: nat): (r: seq<bool>)
    requires s + 1 + |poly| <= n
    ensures |r| == n
  {
    Zeros(s) + (([true] + poly) + Zeros(n - s - 1 - |poly|))
  }

  /** ... anywhere in a message: it is divisible by the polynomial. */
  lemma MissedAnywhere(p: seq<bool>, q: seq<bool>, s: nat, c: seq<bool>, poly: seq<bool>)
    requires |c| == |poly| > 0 && |p| == |q| && s + 1 + |poly| <= |p|
    requires Xor(p, q) == PolyAt(s, poly, |p|)
    ensures Serial(p, c, poly) == Serial(q, c, poly)
  {
    var n, none := |poly|, Zeros(|poly|);
    var rest := Zeros(|p| - s - 1 - n);
    SplitWindow(Zeros(s), [true] + poly, rest, none, poly);
    SerialOfZeros(s, poly);
    PolyLeavesNothing(poly);
    SerialOfZeros(|rest|, poly);
    SerialLinear(p, q, c, c, poly);
    XorZeros(c);
    XorIsNothing(Serial(p, c, poly), Serial(q, c, poly));
  }

  lemma {:induction false} SerialOfZeros(k: nat, poly: seq<bool>)
    requires |poly| > 0
    ensures Serial(Zeros(k), Zeros(|poly|), poly) == Zeros(|poly|)
  {
    if k > 0 {
      assert Zeros(k)[1..] == Zeros(k - 1);
      assert Step(Xor(Zeros(|poly|), Pad([false], |poly|)), poly) == Zeros(|poly|);
      SerialOfZeros(k - 1, poly);
    }
  }

  lemma XorIsNothing(a: seq<bool>, b: seq<bool>)
    requires |a| == |b| && Xor(a, b) == Zeros(|a|)
    ensures a == b
  {
    forall i | 0 <= i < |a|
      ensures a[i] == b[i]
    {
      assert Xor(a, b)[i] == false;
    }
  }

  lemma XorZeros(a: seq<bool>)
    ensures Xor(a, Zeros(|a|)) == a && Xor(Zeros(|a|), a) == a && Xor(a, a) == Zeros(|a|)
  {
  }

  lemma FirstStepIsPoly(poly: seq<bool>)
    requires |poly| > 0
    ensures Step(Xor(Zeros(|poly|), Pad([true], |poly|)), poly) == poly
  {
  }

  lemma PolyLeavesNothing(poly: seq<bool>)
    requires |poly| > 0
    ensures Serial([true] + poly, Zeros(|poly|), poly) == Zeros(|poly|)
  {
    var n := |poly|;
    assert ([true] + poly)[1..] == poly;
    FirstStepIsPoly(poly);
    SerialIsSteps(poly, poly, poly);
    assert Pad(poly, n) == poly;
    XorZeros(poly);
    StepsOfZero(poly, n);
  }

  lemma {:induction false} StepsOfZero(poly: seq<bool>, n: nat)
    requires |poly| > 0
    ensures Steps(Zeros(|poly|), poly, n) == Zeros(|poly|)
  {
    if n > 0 {
      assert Step(Zeros(|poly|), poly) == Zeros(|poly|);
      StepsOfZero(poly, n - 1);
    }
  }

  /** A message followed by a register's worth of bits leaves zero exactly when they are its CRC. */
  lemma ResidueZeroIff(m: seq<bool>, sent: seq<bool>, c: seq<bool>, poly: seq<bool>)
    requires |c| == |sent| == |poly| > 0 && poly[|poly| - 1]
    ensures Serial(m + sent, c, poly) == Zeros(|poly|) <==> sent == Serial(m, c, poly)
  {
    SerialConcat(m, sent, c, poly);
    ReachesZeroIff(Serial(m, c, poly), sent, poly);
  }

  lemma ReachesZeroIff(crc: seq<bool>, sent: seq<bool>, poly: seq<bool>)
    requires |crc| == |sent| == |poly| > 0 && poly[|poly| - 1]
    ensures Serial(sent, crc, poly) == Zeros(|poly|) <==> sent == crc
  {
    var n := |poly|;
    SerialIsSteps(sent, crc, poly);
    assert Pad(sent, n) == sent;
    StepsOfZero(poly, n);
    XorZeros(crc);
    if Serial(sent, crc, poly) == Zeros(n) {
      StepsInjective(Xor(crc, sent), Xor(crc, crc), poly, n);
      assert Pad(crc, n) == crc;
      WindowInRegister(sent, crc, crc);
    }
  }
}
