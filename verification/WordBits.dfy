/**
 The bits of machine words, from the low end and from the high end.
 */
module WordBits {
  import opened CrcTheory

  predicate Has(x: bv32, m: bv32) { x & m != 0 }

  /** n bits of x from mask m upwards, and downwards. */
  function Up(x: bv32, m: bv32, n: nat): (r: seq<bool>)
    ensures |r| == n
    decreases n, x
  {
    if n == 0 then [] else [Has(x, m)] + Up(x, m << 1, n - 1)
  }

  function Down(x: bv32, m: bv32, n: nat): (r: seq<bool>)
    ensures |r| == n
    decreases n, x
  {
    if n == 0 then [] else [Has(x, m)] + Down(x, m >> 1, n - 1)
  }

  /** The mask n places further. */
  function Higher(m: bv32, n: nat): bv32
    decreases n
  {
    if n == 0 then m else Higher(m << 1, n - 1)
  }

  function Lower(m: bv32, n: nat): bv32
    decreases n
  {
    if n == 0 then m else Lower(m >> 1, n - 1)
  }

  // ---------------------------------------------------------------- one mask

  predicate OneBit(m: bv32) { m & (m - 1) == 0 }

  lemma XorAtMask(a: bv32, b: bv32, m: bv32)
    requires OneBit(m)
    ensures Has(a ^ b, m) == (Has(a, m) != Has(b, m))
    ensures OneBit(m << 1) && OneBit(m >> 1)
  {
  }

  lemma ShiftAtMask(c: bv32, m: bv32)
    ensures Has(c >> 1, m) == Has(c, m << 1)
    ensures Has(c << 1, m) == Has(c, m >> 1)
  {
  }

  // ---------------------------------------------------------------- exclusive or

  lemma XorCons(x: bool, y: bool, p: seq<bool>, q: seq<bool>)
    requires |p| == |q|
    ensures Xor([x] + p, [y] + q) == [x != y] + Xor(p, q)
  {
  }

  lemma {:induction false} UpXor(a: bv32, b: bv32, m: bv32, n: nat)
    requires OneBit(m)
    ensures Up(a ^ b, m, n) == Xor(Up(a, m, n), Up(b, m, n))
    decreases n
  {
    if n > 0 {
      XorAtMask(a, b, m);
      UpXor(a, b, m << 1, n - 1);
      XorCons(Has(a, m), Has(b, m), Up(a, m << 1, n - 1), Up(b, m << 1, n - 1));
    }
  }

  lemma {:induction false} DownXor(a: bv32, b: bv32, m: bv32, n: nat)
    requires OneBit(m)
    ensures Down(a ^ b, m, n) == Xor(Down(a, m, n), Down(b, m, n))
    decreases n
  {
    if n > 0 {
      XorAtMask(a, b, m);
      DownXor(a, b, m >> 1, n - 1);
      XorCons(Has(a, m), Has(b, m), Down(a, m >> 1, n - 1), Down(b, m >> 1, n - 1));
    }
  }

  // ---------------------------------------------------------------- shifts

  lemma {:induction false} UpShift(c: bv32, m: bv32, n: nat)
    ensures Up(c >> 1, m, n) == Up(c, m << 1, n)
    decreases n
  {
    if n > 0 {
      ShiftAtMask(c, m);
      UpShift(c, m << 1, n - 1);
    }
  }

  lemma {:induction false} DownShift(c: bv32, m: bv32, n: nat)
    ensures Down(c << 1, m, n) == Down(c, m >> 1, n)
    decreases n
  {
    if n > 0 {
      ShiftAtMask(c, m);
      DownShift(c, m >> 1, n - 1);
    }
  }

  lemma {:induction false} UpSplit(x: bv32, m: bv32, a: nat, b: nat)
    ensures Up(x, m, a + b) == Up(x, m, a) + Up(x, Higher(m, a), b)
    decreases a
  {
    if a > 0 {
      UpSplit(x, m << 1, a - 1, b);
    }
  }

  lemma {:induction false} DownSplit(x: bv32, m: bv32, a: nat, b: nat)
    ensures Down(x, m, a + b) == Down(x, m, a) + Down(x, Lower(m, a), b)
    decreases a
  {
    if a > 0 {
      DownSplit(x, m >> 1, a - 1, b);
    }
  }

  /** Shifting right drops the lowest bit and brings in a zero, when nothing is above. */
  lemma UpShiftIn(c: bv32, m: bv32, n: nat)
    requires n > 0 && !Has(c, Higher(m, n))
    ensures Up(c >> 1, m, n) == Up(c, m, n)[1..] + [false]
  {
    UpShift(c, m, n);
    UpSplit(c, m, n, 1);
    var all := Up(c, m, n + 1);
    assert all == Up(c, m, n) + [false];
    assert all == [Has(c, m)] + Up(c, m << 1, n);
    assert Up(c, m << 1, n) == all[1..];
  }

  lemma DownShiftIn(c: bv32, m: bv32, n: nat)
    requires n > 0 && !Has(c, Lower(m, n))
    ensures Down(c << 1, m, n) == Down(c, m, n)[1..] + [false]
  {
    DownShift(c, m, n);
    DownSplit(c, m, n, 1);
    var all := Down(c, m, n + 1);
    assert all == Down(c, m, n) + [false];
    assert all == [Has(c, m)] + Down(c, m >> 1, n);
    assert Down(c, m >> 1, n) == all[1..];
  }

  // ---------------------------------------------------------------- the ends of 8, 16 and 32 bits

  lemma {:induction false} HigherAdd(m: bv32, a: nat, b: nat)
    ensures Higher(m, a + b) == Higher(Higher(m, a), b)
    decreases a
  {
    if a > 0 {
      HigherAdd(m << 1, a - 1, b);
    }
  }

  lemma {:induction false} LowerAdd(m: bv32, a: nat, b: nat)
    ensures Lower(m, a + b) == Lower(Lower(m, a), b)
    decreases a
  {
    if a > 0 {
      LowerAdd(m >> 1, a - 1, b);
    }
  }

  lemma HigherEnds()
    ensures Higher(1, 8) == 0x100 && Higher(1, 16) == 0x1_0000 && Higher(1, 32) == 0
  {
    assert Higher(0x100, 8) == 0x1_0000;
    ThirdOctet();
    FourthOctet();
    HigherAdd(1, 8, 8);
    HigherAdd(0x1_0000, 8, 8);
    HigherAdd(1, 16, 16);
  }

  lemma ThirdOctet()
    ensures Higher(0x1_0000, 8) == 0x100_0000
  {
  }

  lemma FourthOctet()
    ensures Higher(0x100_0000, 8) == 0
  {
  }

  lemma LowerEnds()
    ensures Lower(0x8000_0000, 8) == 0x80_0000 && Lower(0x8000_0000, 16) == 0x8000
  {
    assert Lower(0x80_0000, 8) == 0x8000;
    LowerAdd(0x8000_0000, 8, 8);
  }

  // ---------------------------------------------------------------- a byte in a longer register

  lemma {:induction false} NothingAbove(b: bv32, m: bv32, n: nat)
    requires b & 0xFFFF_FF00 == 0 && m & 0xFF == 0
    ensures Up(b, m, n) == Zeros(n)
    decreases n
  {
    if n > 0 {
      AboveByte(b, m);
      NothingAbove(b, m << 1, n - 1);
    }
  }

  lemma AboveByte(b: bv32, m: bv32)
    requires b & 0xFFFF_FF00 == 0 && m & 0xFF == 0
    ensures !Has(b, m) && (m << 1) & 0xFF == 0
  {
  }

  lemma {:induction false} NothingBelow(b: bv32, m: bv32, n: nat)
    requires b & 0x00FF_FFFF == 0 && m & 0xFF00_0000 == 0
    ensures Down(b, m, n) == Zeros(n)
    decreases n
  {
    if n > 0 {
      BelowByte(b, m);
      NothingBelow(b, m >> 1, n - 1);
    }
  }

  lemma BelowByte(b: bv32, m: bv32)
    requires b & 0x00FF_FFFF == 0 && m & 0xFF00_0000 == 0
    ensures !Has(b, m) && (m >> 1) & 0xFF00_0000 == 0
  {
  }

  lemma LowByteAlone(b: bv32, n: nat)
    requires b & 0xFFFF_FF00 == 0 && n >= 8
    ensures Up(b, 1, n) == Pad(Up(b, 1, 8), n)
  {
    HigherEnds();
    UpSplit(b, 1, 8, n - 8);
    NothingAbove(b, 0x100, n - 8);
  }

  lemma HighByteAlone(b: bv32, n: nat)
    requires b & 0x00FF_FFFF == 0 && n >= 8
    ensures Down(b, 0x8000_0000, n) == Pad(Down(b, 0x8000_0000, 8), n)
  {
    LowerEnds();
    DownSplit(b, 0x8000_0000, 8, n - 8);
    NothingBelow(b, 0x80_0000, n - 8);
  }

  // ---------------------------------------------------------------- the bits determine the word

  lemma {:induction false} SameBits(a: bv32, b: bv32, m: bv32, n: nat)
    requires OneBit(m) && (a ^ b) & (m - 1) == 0
    requires Up(a, m, n) == Up(b, m, n)
    ensures (a ^ b) & (Higher(m, n) - 1) == 0
    decreases n
  {
    if n > 0 {
      SameTail(a, b, m, n);
      NextBitSame(a, b, m);
      SameBits(a, b, m << 1, n - 1);
    }
  }

  lemma SameTail(a: bv32, b: bv32, m: bv32, n: nat)
    requires n > 0 && Up(a, m, n) == Up(b, m, n)
    ensures Has(a, m) == Has(b, m) && Up(a, m << 1, n - 1) == Up(b, m << 1, n - 1)
  {
    assert Up(a, m, n)[0] == Up(b, m, n)[0];
    assert Up(a, m, n)[1..] == Up(b, m, n)[1..];
  }

  lemma NextBitSame(a: bv32, b: bv32, m: bv32)
    requires OneBit(m) && (a ^ b) & (m - 1) == 0 && Has(a, m) == Has(b, m)
    ensures OneBit(m << 1) && (a ^ b) & ((m << 1) - 1) == 0
  {
    XorAtMask(a, b, m);
    NextBitClear(a ^ b, m);
  }

  lemma NextBitClear(d: bv32, m: bv32)
    requires OneBit(m) && d & (m - 1) == 0 && !Has(d, m)
    ensures d & ((m << 1) - 1) == 0
  {
  }

  /** The same from the high end: the bits above m agree already. */
  lemma {:induction false} SameBitsDown(a: bv32, b: bv32, m: bv32, n: nat)
    requires OneBit(m) && (a ^ b) & !((m << 1) - 1) == 0
    requires Down(a, m, n) == Down(b, m, n)
    ensures (a ^ b) & !((Lower(m, n) << 1) - 1) == 0
    decreases n
  {
    if n > 0 {
      SameTailDown(a, b, m, n);
      NextBitSameDown(a, b, m);
      SameBitsDown(a, b, m >> 1, n - 1);
    }
  }

  lemma SameTailDown(a: bv32, b: bv32, m: bv32, n: nat)
    requires n > 0 && Down(a, m, n) == Down(b, m, n)
    ensures Has(a, m) == Has(b, m) && Down(a, m >> 1, n - 1) == Down(b, m >> 1, n - 1)
  {
    assert Down(a, m, n)[0] == Down(b, m, n)[0];
    assert Down(a, m, n)[1..] == Down(b, m, n)[1..];
  }

  lemma NextBitSameDown(a: bv32, b: bv32, m: bv32)
    requires OneBit(m) && (a ^ b) & !((m << 1) - 1) == 0 && Has(a, m) == Has(b, m)
    ensures OneBit(m >> 1) && (a ^ b) & !(((m >> 1) << 1) - 1) == 0
  {
    XorAtMask(a, b, m);
    NextBitClearDown(a ^ b, m);
  }

  lemma NextBitClearDown(d: bv32, m: bv32)
    requires OneBit(m) && d & !((m << 1) - 1) == 0 && !Has(d, m)
    ensures d & !(((m >> 1) << 1) - 1) == 0
  {
  }
}
