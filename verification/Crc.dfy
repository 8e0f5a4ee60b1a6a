/**
 common_c.c: Crc8, Crc16 and Crc32 on the machine words the code uses.
 */
module Crc {
  import opened CrcTheory
  import opened WordBits

  const TOP: bv32 := 0x8000_0000

  // ---------------------------------------------------------------- any width

  lemma TurnUp(c: bv32, p: bv32, n: nat)
    requires n > 0 && !Has(c, Higher(1, n))
    ensures Up(if Has(c, 1) then (c >> 1) ^ p else c >> 1, 1, n) == Step(Up(c, 1, n), Up(p, 1, n))
  {
    UpShiftIn(c, 1, n);
    UpXor(c >> 1, p, 1, n);
  }

  lemma TurnDown(c: bv32, p: bv32, n: nat)
    requires n > 0 && !Has(c, Lower(TOP, n))
    ensures Down(if Has(c, TOP) then (c << 1) ^ p else c << 1, TOP, n) == Step(Down(c, TOP, n), Down(p, TOP, n))
  {
    DownShiftIn(c, TOP, n);
    DownXor(c << 1, p, TOP, n);
  }

  lemma FeedUp(c: bv32, b: bv32, n: nat)
    requires n >= 8 && b & 0xFFFF_FF00 == 0
    ensures Up(c ^ b, 1, n) == Xor(Up(c, 1, n), Pad(Up(b, 1, 8), n))
  {
    LowByteAlone(b, n);
    UpXor(c, b, 1, n);
  }

  lemma FeedDown(c: bv32, b: bv32, n: nat)
    requires n >= 8 && b & 0x00FF_FFFF == 0
    ensures Down(c ^ b, TOP, n) == Xor(Down(c, TOP, n), Pad(Down(b, TOP, 8), n))
  {
    HighByteAlone(b, n);
    DownXor(c, b, TOP, n);
  }

  lemma {:induction false} StepsLast(c: seq<bool>, poly: seq<bool>, n: nat)
    requires |c| == |poly| > 0
    ensures Steps(c, poly, n + 1) == Step(Steps(c, poly, n), poly)
    decreases n
  {
    if n > 0 {
      StepsLast(Step(c, poly), poly, n - 1);
    }
  }

  /** The bits of a message in the order they are processed. */
  function MessageBits(m: seq<bv8>, reflected: bool): seq<bool> {
    if m == [] then [] else MessageBits(m[..|m| - 1], reflected) + Bits8(m[|m| - 1], reflected)
  }

  // ---------------------------------------------------------------- 8 bits

  /** x at the low end and at the high end of a 32-bit register. */
  function LowWord8(x: bv8): bv32 { x as bv32 }

  function HighWord8(x: bv8): bv32 { (x as bv32) << 24 }

  /** The bits of x in processing order: reflected takes the lowest first. */
  function Bits8(x: bv8, reflected: bool): (r: seq<bool>)
    ensures |r| == 8
  {
    if reflected then Up(LowWord8(x), 1, 8) else Down(HighWord8(x), TOP, 8)
  }

  /** One turn of the inner loop. */
  function Turn8(c: bv8, poly: bv8, reflected: bool): bv8 {
    if reflected then (if c & 1 != 0 then (c >> 1) ^ poly else c >> 1)
    else (if c & 0x80 != 0 then (c << 1) ^ poly else c << 1)
  }

  /** One byte, as it is added to the register. */
  function Feed8(b: bv8, reflected: bool): bv8 { b }

  function Turns8(c: bv8, poly: bv8, reflected: bool, n: nat): bv8
    decreases n, c
  {
    if n == 0 then c else Turn8(Turns8(c, poly, reflected, n - 1), poly, reflected)
  }

  /** The value the loops compute. */
  function Crc8Of(m: seq<bv8>, c: bv8, poly: bv8, reflected: bool): bv8
    decreases |m|
  {
    if m == [] then c
    else Turns8(Crc8Of(m[..|m| - 1], c, poly, reflected) ^ Feed8(m[|m| - 1], reflected), poly, reflected, 8)
  }

  method Crc8(pcBlock: seq<bv8>, seed: bv8, poly: bv8, reflected: bool) returns (crc: bv8)
    ensures crc == Crc8Of(pcBlock, seed, poly, reflected)
  {
    crc := seed;
    var k := 0;
    while k < |pcBlock|
      invariant k <= |pcBlock| && crc == Crc8Of(pcBlock[..k], seed, poly, reflected)
    {
      crc := crc ^ Feed8(pcBlock[k], reflected);
      ghost var fed := crc;
      for i := 0 to 8
        invariant crc == Turns8(fed, poly, reflected, i)
      {
        crc := Turn8(crc, poly, reflected);
      }
      assert pcBlock[..k + 1][..k] == pcBlock[..k];
      k := k + 1;
    }
    assert pcBlock[..|pcBlock|] == pcBlock;
  }

  lemma LowWords8(c: bv8, poly: bv8)
    ensures LowWord8((c >> 1) ^ poly) == (LowWord8(c) >> 1) ^ LowWord8(poly)
  {
  }

  lemma LowShift8(c: bv8)
    ensures LowWord8(c >> 1) == LowWord8(c) >> 1
  {
  }

  lemma LowTests8(c: bv8)
    ensures (c & 1 != 0) == Has(LowWord8(c), 1) && !Has(LowWord8(c), 0x100)
  {
  }

  lemma HighWords8(c: bv8, poly: bv8)
    ensures HighWord8((c << 1) ^ poly) == (HighWord8(c) << 1) ^ HighWord8(poly)
  {
  }

  lemma HighShift8(c: bv8)
    ensures HighWord8(c << 1) == HighWord8(c) << 1
  {
  }

  lemma HighTests8(c: bv8)
    ensures (c & 0x80 != 0) == Has(HighWord8(c), TOP) && !Has(HighWord8(c), 0x800000)
  {
  }

  lemma TurnReflected8(c: bv8, poly: bv8)
    ensures Bits8(Turn8(c, poly, true), true) == Step(Bits8(c, true), Bits8(poly, true))
  {
    LowWords8(c, poly);
    LowShift8(c);
    LowTests8(c);
    TurnLow8(LowWord8(c), LowWord8(poly));
  }

  lemma TurnLow8(c: bv32, p: bv32)
    requires !Has(c, 0x100)
    ensures Has(c, 1) ==> Up((c >> 1) ^ p, 1, 8) == Step(Up(c, 1, 8), Up(p, 1, 8))
    ensures !Has(c, 1) ==> Up(c >> 1, 1, 8) == Step(Up(c, 1, 8), Up(p, 1, 8))
  {
    HigherEnds();
    TurnUp(c, p, 8);
  }

  lemma TurnMsbFirst8(c: bv8, poly: bv8)
    ensures Bits8(Turn8(c, poly, false), false) == Step(Bits8(c, false), Bits8(poly, false))
  {
    HighWords8(c, poly);
    HighShift8(c);
    HighTests8(c);
    TurnHigh8(HighWord8(c), HighWord8(poly));
  }

  lemma TurnHigh8(c: bv32, p: bv32)
    requires !Has(c, 0x800000)
    ensures Has(c, TOP) ==> Down((c << 1) ^ p, TOP, 8) == Step(Down(c, TOP, 8), Down(p, TOP, 8))
    ensures !Has(c, TOP) ==> Down(c << 1, TOP, 8) == Step(Down(c, TOP, 8), Down(p, TOP, 8))
  {
    LowerEnds();
    TurnDown(c, p, 8);
  }

  lemma TurnBits8(c: bv8, poly: bv8, reflected: bool)
    ensures Bits8(Turn8(c, poly, reflected), reflected) == Step(Bits8(c, reflected), Bits8(poly, reflected))
  {
    if reflected {
      TurnReflected8(c, poly);
    } else {
      TurnMsbFirst8(c, poly);
    }
  }

  /** Adding a byte to a register of n bits. */
  lemma FeedLow(c: bv32, b: bv8, n: nat)
    requires n >= 8
    ensures Up(c ^ LowWord8(b), 1, n) == Xor(Up(c, 1, n), Pad(Bits8(b, true), n))
  {
    ByteEnds(b);
    FeedUp(c, LowWord8(b), n);
  }

  lemma FeedHigh(c: bv32, b: bv8, n: nat)
    requires n >= 8
    ensures Down(c ^ HighWord8(b), TOP, n) == Xor(Down(c, TOP, n), Pad(Bits8(b, false), n))
  {
    ByteEnds(b);
    FeedDown(c, HighWord8(b), n);
  }

  lemma ByteEnds(b: bv8)
    ensures LowWord8(b) & 0xFFFF_FF00 == 0 && HighWord8(b) & 0x00FF_FFFF == 0
  {
  }

  lemma FeedWords8(c: bv8, b: bv8)
    ensures LowWord8(c ^ Feed8(b, true)) == LowWord8(c) ^ LowWord8(b)
    ensures HighWord8(c ^ Feed8(b, false)) == HighWord8(c) ^ HighWord8(b)
  {
  }

  lemma FeedBits8(c: bv8, b: bv8, reflected: bool)
    ensures Bits8(c ^ Feed8(b, reflected), reflected) == Xor(Bits8(c, reflected), Pad(Bits8(b, reflected), 8))
  {
    FeedWords8(c, b);
    if reflected {
      FeedLow(LowWord8(c), b, 8);
    } else {
      FeedHigh(HighWord8(c), b, 8);
    }
  }

  lemma {:induction false} TurnsBits8(c: bv8, poly: bv8, reflected: bool, n: nat)
    ensures Bits8(Turns8(c, poly, reflected, n), reflected) == Steps(Bits8(c, reflected), Bits8(poly, reflected), n)
    decreases n
  {
    if n > 0 {
      TurnsBits8(c, poly, reflected, n - 1);
      TurnBits8(Turns8(c, poly, reflected, n - 1), poly, reflected);
      StepsLast(Bits8(c, reflected), Bits8(poly, reflected), n - 1);
    }
  }

  /** The byte-wise loops do the textbook division of the message, bit by bit. */
  lemma {:induction false} Crc8IsSerial(m: seq<bv8>, c: bv8, poly: bv8, reflected: bool)
    ensures Bits8(Crc8Of(m, c, poly, reflected), reflected)
              == Serial(MessageBits(m, reflected), Bits8(c, reflected), Bits8(poly, reflected))
    decreases |m|
  {
    if m != [] {
      var rest, b := m[..|m| - 1], m[|m| - 1];
      var d := Crc8Of(rest, c, poly, reflected);
      Crc8IsSerial(rest, c, poly, reflected);
      FeedBits8(d, b, reflected);
      TurnsBits8(d ^ Feed8(b, reflected), poly, reflected, 8);
      SerialIsSteps(Bits8(b, reflected), Bits8(d, reflected), Bits8(poly, reflected));
      SerialConcat(MessageBits(rest, reflected), Bits8(b, reflected), Bits8(c, reflected), Bits8(poly, reflected));
    }
  }

  // ---------------------------------------------------------------- 16 bits

  /** x at the low end and at the high end of a 32-bit register. */
  function LowWord16(x: bv16): bv32 { x as bv32 }

  function HighWord16(x: bv16): bv32 { (x as bv32) << 16 }

  /** The bits of x in processing order: reflected takes the lowest first. */
  function Bits16(x: bv16, reflected: bool): (r: seq<bool>)
    ensures |r| == 16
  {
    if reflected then Up(LowWord16(x), 1, 16) else Down(HighWord16(x), TOP, 16)
  }

  /** One turn of the inner loop. */
  function Turn16(c: bv16, poly: bv16, reflected: bool): bv16 {
    if reflected then (if c & 1 != 0 then (c >> 1) ^ poly else c >> 1)
    else (if c & 0x8000 != 0 then (c << 1) ^ poly else c << 1)
  }

  /** One byte, as it is added to the register. */
  function Feed16(b: bv8, reflected: bool): bv16 { if reflected then b as bv16 else (b as bv16) << 8 }

  function Turns16(c: bv16, poly: bv16, reflected: bool, n: nat): bv16
    decreases n, c
  {
    if n == 0 then c else Turn16(Turns16(c, poly, reflected, n - 1), poly, reflected)
  }

  /** The value the loops compute. */
  function Crc16Of(m: seq<bv8>, c: bv16, poly: bv16, reflected: bool): bv16
    decreases |m|
  {
    if m == [] then c
    else Turns16(Crc16Of(m[..|m| - 1], c, poly, reflected) ^ Feed16(m[|m| - 1], reflected), poly, reflected, 8)
  }

  method Crc16(pcBlock: seq<bv8>, seed: bv16, poly: bv16, reflected: bool) returns (crc: bv16)
    ensures crc == Crc16Of(pcBlock, seed, poly, reflected)
  {
    crc := seed;
    var k := 0;
    while k < |pcBlock|
      invariant k <= |pcBlock| && crc == Crc16Of(pcBlock[..k], seed, poly, reflected)
    {
      crc := crc ^ Feed16(pcBlock[k], reflected);
      ghost var fed := crc;
      for i := 0 to 8
        invariant crc == Turns16(fed, poly, reflected, i)
      {
        crc := Turn16(crc, poly, reflected);
      }
      assert pcBlock[..k + 1][..k] == pcBlock[..k];
      k := k + 1;
    }
    assert pcBlock[..|pcBlock|] == pcBlock;
  }

  lemma LowWords16(c: bv16, poly: bv16)
    ensures LowWord16((c >> 1) ^ poly) == (LowWord16(c) >> 1) ^ LowWord16(poly)
  {
  }

  lemma LowShift16(c: bv16)
    ensures LowWord16(c >> 1) == LowWord16(c) >> 1
  {
  }

  lemma LowTests16(c: bv16)
    ensures (c & 1 != 0) == Has(LowWord16(c), 1) && !Has(LowWord16(c), 0x10000)
  {
  }

  lemma HighWords16(c: bv16, poly: bv16)
    ensures HighWord16((c << 1) ^ poly) == (HighWord16(c) << 1) ^ HighWord16(poly)
  {
  }

  lemma HighShift16(c: bv16)
    ensures HighWord16(c << 1) == HighWord16(c) << 1
  {
  }

  lemma HighTests16(c: bv16)
    ensures (c & 0x8000 != 0) == Has(HighWord16(c), TOP) && !Has(HighWord16(c), 0x8000)
  {
  }

  lemma TurnReflected16(c: bv16, poly: bv16)
    ensures Bits16(Turn16(c, poly, true), true) == Step(Bits16(c, true), Bits16(poly, true))
  {
    LowWords16(c, poly);
    LowShift16(c);
    LowTests16(c);
    TurnLow16(LowWord16(c), LowWord16(poly));
  }

  lemma TurnLow16(c: bv32, p: bv32)
    requires !Has(c, 0x10000)
    ensures Has(c, 1) ==> Up((c >> 1) ^ p, 1, 16) == Step(Up(c, 1, 16), Up(p, 1, 16))
    ensures !Has(c, 1) ==> Up(c >> 1, 1, 16) == Step(Up(c, 1, 16), Up(p, 1, 16))
  {
    HigherEnds();
    TurnUp(c, p, 16);
  }

  lemma TurnMsbFirst16(c: bv16, poly: bv16)
    ensures Bits16(Turn16(c, poly, false), false) == Step(Bits16(c, false), Bits16(poly, false))
  {
    HighWords16(c, poly);
    HighShift16(c);
    HighTests16(c);
    TurnHigh16(HighWord16(c), HighWord16(poly));
  }

  lemma TurnHigh16(c: bv32, p: bv32)
    requires !Has(c, 0x8000)
    ensures Has(c, TOP) ==> Down((c << 1) ^ p, TOP, 16) == Step(Down(c, TOP, 16), Down(p, TOP, 16))
    ensures !Has(c, TOP) ==> Down(c << 1, TOP, 16) == Step(Down(c, TOP, 16), Down(p, TOP, 16))
  {
    LowerEnds();
    TurnDown(c, p, 16);
  }

  lemma TurnBits16(c: bv16, poly: bv16, reflected: bool)
    ensures Bits16(Turn16(c, poly, reflected), reflected) == Step(Bits16(c, reflected), Bits16(poly, reflected))
  {
    if reflected {
      TurnReflected16(c, poly);
    } else {
      TurnMsbFirst16(c, poly);
    }
  }

  lemma FeedWords16(c: bv16, b: bv8)
    ensures LowWord16(c ^ Feed16(b, true)) == LowWord16(c) ^ LowWord8(b)
    ensures HighWord16(c ^ Feed16(b, false)) == HighWord16(c) ^ HighWord8(b)
  {
  }

  lemma FeedBits16(c: bv16, b: bv8, reflected: bool)
    ensures Bits16(c ^ Feed16(b, reflected), reflected) == Xor(Bits16(c, reflected), Pad(Bits8(b, reflected), 16))
  {
    FeedWords16(c, b);
    if reflected {
      FeedLow(LowWord16(c), b, 16);
    } else {
      FeedHigh(HighWord16(c), b, 16);
    }
  }

  lemma {:induction false} TurnsBits16(c: bv16, poly: bv16, reflected: bool, n: nat)
    ensures Bits16(Turns16(c, poly, reflected, n), reflected) == Steps(Bits16(c, reflected), Bits16(poly, reflected), n)
    decreases n
  {
    if n > 0 {
      TurnsBits16(c, poly, reflected, n - 1);
      TurnBits16(Turns16(c, poly, reflected, n - 1), poly, reflected);
      StepsLast(Bits16(c, reflected), Bits16(poly, reflected), n - 1);
    }
  }

  /** The byte-wise loops do the textbook division of the message, bit by bit. */
  lemma {:induction false} Crc16IsSerial(m: seq<bv8>, c: bv16, poly: bv16, reflected: bool)
    ensures Bits16(Crc16Of(m, c, poly, reflected), reflected)
              == Serial(MessageBits(m, reflected), Bits16(c, reflected), Bits16(poly, reflected))
    decreases |m|
  {
    if m != [] {
      var rest, b := m[..|m| - 1], m[|m| - 1];
      var d := Crc16Of(rest, c, poly, reflected);
      Crc16IsSerial(rest, c, poly, reflected);
      FeedBits16(d, b, reflected);
      TurnsBits16(d ^ Feed16(b, reflected), poly, reflected, 8);
      SerialIsSteps(Bits8(b, reflected), Bits16(d, reflected), Bits16(poly, reflected));
      SerialConcat(MessageBits(rest, reflected), Bits8(b, reflected), Bits16(c, reflected), Bits16(poly, reflected));
    }
  }

  // ---------------------------------------------------------------- 32 bits, reflected only

  function Bits32(x: bv32): (r: seq<bool>)
    ensures |r| == 32
  {
    Up(x, 1, 32)
  }

  /** One turn of the inner loop. */
  function Turn32(c: bv32, poly: bv32): bv32 {
    if c & 1 != 0 then (c >> 1) ^ poly else c >> 1
  }

  /** One byte, as it is added to the register. */
  function Feed32(b: bv8): bv32 { LowWord8(b) }

  function Turns32(c: bv32, poly: bv32, n: nat): bv32
    decreases n, c
  {
    if n == 0 then c else Turn32(Turns32(c, poly, n - 1), poly)
  }

  /** The value the loops compute. */
  function Crc32Of(m: seq<bv8>, c: bv32, poly: bv32): bv32
    decreases |m|
  {
    if m == [] then c
    else Turns32(Crc32Of(m[..|m| - 1], c, poly) ^ Feed32(m[|m| - 1]), poly, 8)
  }

  method Crc32(pcBlock: seq<bv8>, seed: bv32, poly: bv32) returns (crc: bv32)
    ensures crc == Crc32Of(pcBlock, seed, poly)
  {
    crc := seed;
    var k := 0;
    while k < |pcBlock|
      invariant k <= |pcBlock| && crc == Crc32Of(pcBlock[..k], seed, poly)
    {
      crc := crc ^ Feed32(pcBlock[k]);
      ghost var fed := crc;
      for i := 0 to 8
        invariant crc == Turns32(fed, poly, i)
      {
        crc := Turn32(crc, poly);
      }
      assert pcBlock[..k + 1][..k] == pcBlock[..k];
      k := k + 1;
    }
    assert pcBlock[..|pcBlock|] == pcBlock;
  }

  lemma TurnBits32(c: bv32, poly: bv32)
    ensures Bits32(Turn32(c, poly)) == Step(Bits32(c), Bits32(poly))
  {
    HigherEnds();
    assert !Has(c, 0);
    TurnUp(c, poly, 32);
  }

  lemma FeedBits32(c: bv32, b: bv8)
    ensures Bits32(c ^ Feed32(b)) == Xor(Bits32(c), Pad(Bits8(b, true), 32))
  {
    FeedLow(c, b, 32);
  }

  lemma {:induction false} TurnsBits32(c: bv32, poly: bv32, n: nat)
    ensures Bits32(Turns32(c, poly, n)) == Steps(Bits32(c), Bits32(poly), n)
    decreases n
  {
    if n > 0 {
      TurnsBits32(c, poly, n - 1);
      TurnBits32(Turns32(c, poly, n - 1), poly);
      StepsLast(Bits32(c), Bits32(poly), n - 1);
    }
  }

  /** The byte-wise loops do the textbook division of the message, bit by bit. */
  lemma {:induction false} Crc32IsSerial(m: seq<bv8>, c: bv32, poly: bv32)
    ensures Bits32(Crc32Of(m, c, poly)) == Serial(MessageBits(m, true), Bits32(c), Bits32(poly))
    decreases |m|
  {
    if m != [] {
      var rest, b := m[..|m| - 1], m[|m| - 1];
      var d := Crc32Of(rest, c, poly);
      Crc32IsSerial(rest, c, poly);
      FeedBits32(d, b);
      TurnsBits32(d ^ Feed32(b), poly, 8);
      SerialIsSteps(Bits8(b, true), Bits32(d), Bits32(poly));
      SerialConcat(MessageBits(rest, true), Bits8(b, true), Bits32(c), Bits32(poly));
    }
  }
}
