/**
 common_c.c: which polynomials let a CRC see every short burst.
 */
module CrcBursts {
  import opened CrcTheory
  import opened WordBits
  import opened Crc
  import opened CrcResults

  // ---------------------------------------------------------------- a polynomial without its last bit

  /** Two registers step to the same one, and so two messages no longer than the register do. */
  lemma EvenPolyMisses(c: seq<bool>, poly: seq<bool>) returns (p: seq<bool>, q: seq<bool>)
    requires |c| == |poly| > 0 && !poly[|poly| - 1]
    ensures |p| == |q| == |poly| && p != q && Serial(p, c, poly) == Serial(q, c, poly)
  {
    var n := |poly|;
    var a, b := [true] + Zeros(n - 1), [false] + poly[..n - 1];
    p, q := Xor(c, a), Xor(c, b);
    XorTwice(c, a);
    XorTwice(c, b);
    SameFirstStep(poly);
    SerialIsSteps(p, c, poly);
    SerialIsSteps(q, c, poly);
    PadFull(p);
    PadFull(q);
    assert a[0] != b[0];
    assert p[0] != q[0];
  }

  lemma PadFull(p: seq<bool>)
    ensures Pad(p, |p|) == p
  {
  }

  lemma XorTwice(c: seq<bool>, a: seq<bool>)
    requires |c| == |a|
    ensures Xor(c, Xor(c, a)) == a
  {
  }

  lemma SameFirstStep(poly: seq<bool>)
    requires |poly| > 0 && !poly[|poly| - 1]
    ensures Step([true] + Zeros(|poly| - 1), poly) == Step([false] + poly[..|poly| - 1], poly)
  {
    assert Step([true] + Zeros(|poly| - 1), poly) == poly;
    assert Step([false] + poly[..|poly| - 1], poly) == poly;
  }

  // ---------------------------------------------------------------- bytes with given bits

  function Pack(b: seq<bool>): bv8
    requires |b| == 8
  {
    (if b[0] then 1 else 0) | (if b[1] then 2 else 0) | (if b[2] then 4 else 0) | (if b[3] then 8 else 0)
    | (if b[4] then 16 else 0) | (if b[5] then 32 else 0) | (if b[6] then 64 else 0) | (if b[7] then 128 else 0)
  }

  function Reversed(b: seq<bool>): seq<bool>
    requires |b| == 8
  {
    [b[7], b[6], b[5], b[4], b[3], b[2], b[1], b[0]]
  }

  /** Bit by bit, from the low end. */
  predicate LowBits(x: bv32, b: seq<bool>)
    requires |b| == 8
  {
    && Has(x, 1) == b[0] && Has(x, 2) == b[1] && Has(x, 4) == b[2] && Has(x, 8) == b[3]
    && Has(x, 0x10) == b[4] && Has(x, 0x20) == b[5] && Has(x, 0x40) == b[6] && Has(x, 0x80) == b[7]
  }

  /** ... and from the high end. */
  predicate HighBits(x: bv32, b: seq<bool>)
    requires |b| == 8
  {
    && Has(x, TOP) == b[0] && Has(x, 0x4000_0000) == b[1] && Has(x, 0x2000_0000) == b[2]
    && Has(x, 0x1000_0000) == b[3] && Has(x, 0x800_0000) == b[4] && Has(x, 0x400_0000) == b[5]
    && Has(x, 0x200_0000) == b[6] && Has(x, 0x100_0000) == b[7]
  }

  lemma {:induction false} UpAt(x: bv32, m: bv32, n: nat, i: nat)
    requires i < n
    ensures Up(x, m, n)[i] == Has(x, Higher(m, i))
    decreases i
  {
    if i > 0 {
      UpAt(x, m << 1, n - 1, i - 1);
    }
  }

  lemma {:induction false} DownAt(x: bv32, m: bv32, n: nat, i: nat)
    requires i < n
    ensures Down(x, m, n)[i] == Has(x, Lower(m, i))
    decreases i
  {
    if i > 0 {
      DownAt(x, m >> 1, n - 1, i - 1);
    }
  }

  lemma LowMasks()
    ensures Higher(1, 0) == 1 && Higher(1, 1) == 2 && Higher(1, 2) == 4 && Higher(1, 3) == 8
    ensures Higher(1, 4) == 0x10 && Higher(1, 5) == 0x20 && Higher(1, 6) == 0x40 && Higher(1, 7) == 0x80
  {
  }

  lemma HighMasks()
    ensures Lower(TOP, 0) == TOP && Lower(TOP, 1) == 0x4000_0000
    ensures Lower(TOP, 2) == 0x2000_0000 && Lower(TOP, 3) == 0x1000_0000
    ensures Lower(TOP, 4) == 0x800_0000 && Lower(TOP, 5) == 0x400_0000
    ensures Lower(TOP, 6) == 0x200_0000 && Lower(TOP, 7) == 0x100_0000
  {
  }

  /** Bit i of b, as LowBits and HighBits name it. */
  lemma LowBitAt(x: bv32, b: seq<bool>, i: nat)
    requires |b| == 8 && LowBits(x, b) && i < 8
    ensures Has(x, Higher(1, i)) == b[i]
  {
    LowMasks();
  }

  lemma HighBitAt(x: bv32, b: seq<bool>, i: nat)
    requires |b| == 8 && HighBits(x, b) && i < 8
    ensures Has(x, Lower(TOP, i)) == b[i]
  {
    HighMasks();
  }

  lemma UpEight(x: bv32, b: seq<bool>)
    requires |b| == 8 && LowBits(x, b)
    ensures Up(x, 1, 8) == b
  {
    forall i | 0 <= i < 8
      ensures Up(x, 1, 8)[i] == b[i]
    {
      UpAt(x, 1, 8, i);
      LowBitAt(x, b, i);
    }
  }

  lemma DownEight(x: bv32, b: seq<bool>)
    requires |b| == 8 && HighBits(x, b)
    ensures Down(x, TOP, 8) == b
  {
    forall i | 0 <= i < 8
      ensures Down(x, TOP, 8)[i] == b[i]
    {
      DownAt(x, TOP, 8, i);
      HighBitAt(x, b, i);
    }
  }

  lemma PackLow(b: seq<bool>)
    requires |b| == 8
    ensures Bits8(Pack(b), true) == b
  {
    PackedLow(b);
    UpEight(LowWord8(Pack(b)), b);
  }

  lemma PackedLow(b: seq<bool>)
    requires |b| == 8
    ensures LowBits(LowWord8(Pack(b)), b)
  {
  }

  lemma PackHigh(b: seq<bool>)
    requires |b| == 8
    ensures Bits8(Pack(Reversed(b)), false) == b
  {
    PackedHigh(b);
    DownEight(HighWord8(Pack(Reversed(b))), b);
  }

  lemma PackedHigh(b: seq<bool>)
    requires |b| == 8
    ensures HighBits(HighWord8(Pack(Reversed(b))), b)
  {
  }

  /** Any whole number of bytes of bits is the bits of a message. */
  lemma {:induction false} MessageFor(bits: seq<bool>, n: nat, reflected: bool) returns (m: seq<bv8>)
    requires |bits| == 8 * n
    ensures |m| == n && MessageBits(m, reflected) == bits
    decreases n
  {
    if n == 0 {
      m := [];
    } else {
      var front, last := bits[..8 * n - 8], bits[8 * n - 8..];
      var x := if reflected then Pack(last) else Pack(Reversed(last));
      if reflected {
        PackLow(last);
      } else {
        PackHigh(last);
      }
      var f := MessageFor(front, n - 1, reflected);
      m := f + [x];
      assert m[..n - 1] == f;
    }
  }

  // ---------------------------------------------------------------- equal bits, equal words

  lemma BitsDetermineHigh8(a: bv8, b: bv8)
    requires Bits8(a, false) == Bits8(b, false)
    ensures a == b
  {
    LowerEnds();
    SameBitsDown(HighWord8(a), HighWord8(b), TOP, 8);
    HighByteDetermined(a, b);
  }

  lemma HighByteDetermined(a: bv8, b: bv8)
    requires (HighWord8(a) ^ HighWord8(b)) & 0xFF00_0000 == 0
    ensures a == b
  {
  }

  lemma BitsDetermine32(a: bv32, b: bv32)
    requires Bits32(a) == Bits32(b)
    ensures a == b
  {
    HigherEnds();
    SameBits(a, b, 1, 32);
    AllBitsSame(a, b);
  }

  lemma AllBitsSame(a: bv32, b: bv32)
    requires (a ^ b) & 0xFFFF_FFFF == 0
    ensures a == b
  {
  }

  // ---------------------------------------------------------------- exactly the odd polynomials

  /** The messages differ, and no more than in a window of w bits somewhere. */
  ghost predicate Burst(p: seq<bv8>, q: seq<bv8>, reflected: bool, s: nat, w: nat) {
    DifferInWindow(MessageBits(p, reflected), MessageBits(q, reflected), s, w)
  }

  /** Every burst of at most n bits changes the CRC. */
  ghost predicate Sees8(c: bv8, poly: bv8, reflected: bool) {
    forall p, q, s: nat, w: nat :: w <= 8 && Burst(p, q, reflected, s, w) ==>
      Crc8Of(p, c, poly, reflected) != Crc8Of(q, c, poly, reflected)
  }

  ghost predicate Sees16(c: bv16, poly: bv16, reflected: bool) {
    forall p, q, s: nat, w: nat :: w <= 16 && Burst(p, q, reflected, s, w) ==>
      Crc16Of(p, c, poly, reflected) != Crc16Of(q, c, poly, reflected)
  }

  ghost predicate Sees32(c: bv32, poly: bv32) {
    forall p, q, s: nat, w: nat :: w <= 32 && Burst(p, q, true, s, w) ==>
      Crc32Of(p, c, poly) != Crc32Of(q, c, poly)
  }

  /** The missed pair as messages of n bytes, the size of the register. */
  lemma MessagesMissed(c: seq<bool>, poly: seq<bool>, n: nat, reflected: bool) returns (p: seq<bv8>, q: seq<bv8>)
    requires |c| == |poly| == 8 * n > 0 && !poly[|poly| - 1]
    ensures Burst(p, q, reflected, 0, 8 * n)
    ensures Serial(MessageBits(p, reflected), c, poly) == Serial(MessageBits(q, reflected), c, poly)
  {
    var x, y := EvenPolyMisses(c, poly);
    p := MessageFor(x, n, reflected);
    q := MessageFor(y, n, reflected);
  }

  lemma Crc8SeesBurstsIff(c: bv8, poly: bv8, reflected: bool)
    ensures Sees8(c, poly, reflected) <==> Odd8(poly, reflected)
  {
    if Odd8(poly, reflected) {
      forall p, q, s: nat, w: nat | w <= 8 && Burst(p, q, reflected, s, w)
        ensures Crc8Of(p, c, poly, reflected) != Crc8Of(q, c, poly, reflected)
      {
        Crc8DetectsBursts(p, q, s, w, c, poly, reflected);
      }
    } else {
      var p, q := Misses8(c, poly, reflected);
      assert Burst(p, q, reflected, 0, 8);
    }
  }

  lemma Misses8(c: bv8, poly: bv8, reflected: bool) returns (p: seq<bv8>, q: seq<bv8>)
    requires !Odd8(poly, reflected)
    ensures Burst(p, q, reflected, 0, 8) && Crc8Of(p, c, poly, reflected) == Crc8Of(q, c, poly, reflected)
  {
    Odd8Bit(poly, reflected);
    p, q := MessagesMissed(Bits8(c, reflected), Bits8(poly, reflected), 1, reflected);
    Crc8IsSerial(p, c, poly, reflected);
    Crc8IsSerial(q, c, poly, reflected);
    SameBits8(Crc8Of(p, c, poly, reflected), Crc8Of(q, c, poly, reflected), reflected);
  }

  lemma SameBits8(a: bv8, b: bv8, reflected: bool)
    requires Bits8(a, reflected) == Bits8(b, reflected)
    ensures a == b
  {
    if reflected {
      BitsDetermine8(a, b);
    } else {
      BitsDetermineHigh8(a, b);
    }
  }

  lemma Crc16SeesBurstsIff(c: bv16, poly: bv16, reflected: bool)
    ensures Sees16(c, poly, reflected) <==> Odd16(poly, reflected)
  {
    if Odd16(poly, reflected) {
      forall p, q, s: nat, w: nat | w <= 16 && Burst(p, q, reflected, s, w)
        ensures Crc16Of(p, c, poly, reflected) != Crc16Of(q, c, poly, reflected)
      {
        Crc16DetectsBursts(p, q, s, w, c, poly, reflected);
      }
    } else {
      var p, q := Misses16(c, poly, reflected);
      assert Burst(p, q, reflected, 0, 16);
    }
  }

  lemma Misses16(c: bv16, poly: bv16, reflected: bool) returns (p: seq<bv8>, q: seq<bv8>)
    requires !Odd16(poly, reflected)
    ensures Burst(p, q, reflected, 0, 16) && Crc16Of(p, c, poly, reflected) == Crc16Of(q, c, poly, reflected)
  {
    Odd16Bit(poly, reflected);
    p, q := MessagesMissed(Bits16(c, reflected), Bits16(poly, reflected), 2, reflected);
    Crc16IsSerial(p, c, poly, reflected);
    Crc16IsSerial(q, c, poly, reflected);
    if reflected {
      BitsDetermine16(Crc16Of(p, c, poly, true), Crc16Of(q, c, poly, true));
    } else {
      BitsDetermineHigh16(Crc16Of(p, c, poly, false), Crc16Of(q, c, poly, false));
    }
  }

  lemma Crc32SeesBurstsIff(c: bv32, poly: bv32)
    ensures Sees32(c, poly) <==> Odd32(poly)
  {
    if Odd32(poly) {
      forall p, q, s: nat, w: nat | w <= 32 && Burst(p, q, true, s, w)
        ensures Crc32Of(p, c, poly) != Crc32Of(q, c, poly)
      {
        Crc32DetectsBursts(p, q, s, w, c, poly);
      }
    } else {
      var p, q := Misses32(c, poly);
      assert Burst(p, q, true, 0, 32);
    }
  }

  lemma Misses32(c: bv32, poly: bv32) returns (p: seq<bv8>, q: seq<bv8>)
    requires !Odd32(poly)
    ensures Burst(p, q, true, 0, 32) && Crc32Of(p, c, poly) == Crc32Of(q, c, poly)
  {
    Odd32Bit(poly);
    p, q := MessagesMissed(Bits32(c), Bits32(poly), 4, true);
    Crc32IsSerial(p, c, poly);
    Crc32IsSerial(q, c, poly);
    BitsDetermine32(Crc32Of(p, c, poly), Crc32Of(q, c, poly));
  }

  // ---------------------------------------------------------------- single values

  /** One byte through each kernel: Sensirion and Dallas, CCITT and IEEE parameters. */
  lemma KnownValues()
    ensures Crc8Of([0xBE], 0xFF, 0x31, false) == 0x0C && Crc8Of([1], 0, 0x8C, true) == 0x5E
    ensures Crc16Of([0x61], 0xFFFF, 0x1021, false) == 0x9D77
    ensures Crc32Of([0x61], 0xFFFF_FFFF, 0xEDB8_8320) == 0x1748_41BC
  {
    assert [0xBE as bv8][..0] == [] && [1 as bv8][..0] == [] && [0x61 as bv8][..0] == [];
    Known8();
    Known16();
    Known32();
  }

  lemma Known8()
    ensures Turns8(0xFF ^ Feed8(0xBE, false), 0x31, false, 8) == 0x0C
    ensures Turns8(0 ^ Feed8(1, true), 0x8C, true, 8) == 0x5E
  {
  }

  lemma Known16()
    ensures Turns16(0xFFFF ^ Feed16(0x61, false), 0x1021, false, 8) == 0x9D77
  {
  }

  lemma Known32()
    ensures Turns32(0xFFFF_FFFF ^ Feed32(0x61), 0xEDB8_8320, 8) == 0x1748_41BC
  {
  }
}
