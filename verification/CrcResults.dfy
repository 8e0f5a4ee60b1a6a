/**
 What the CRCs of common_c.c guarantee.
 */
module CrcResults {
  import opened CrcTheory
  import opened WordBits
  import opened Crc

  // ---------------------------------------------------------------- the condition on the polynomial

  lemma UpLast(x: bv32, m: bv32, n: nat)
    ensures Up(x, m, n + 1)[n] == Has(x, Higher(m, n))
  {
    UpSplit(x, m, n, 1);
  }

  lemma DownLast(x: bv32, m: bv32, n: nat)
    ensures Down(x, m, n + 1)[n] == Has(x, Lower(m, n))
  {
    DownSplit(x, m, n, 1);
  }

  lemma LastMasks()
    ensures Higher(1, 7) == 0x80 && Higher(1, 15) == 0x8000 && Higher(1, 31) == 0x8000_0000
    ensures Lower(TOP, 7) == 0x100_0000 && Lower(TOP, 15) == 0x1_0000
  {
    HigherEnds();
    LowerEnds();
    assert Higher(0x100, 7) == 0x8000;
    HigherAdd(1, 8, 7);
    HigherAdd(1, 16, 15);
    HigherAdd(0x1_0000, 8, 7);
    ThirdOctet();
    assert Higher(0x100_0000, 7) == 0x8000_0000;
    assert Lower(0x80_0000, 7) == 0x1_0000;
    LowerAdd(TOP, 8, 7);
  }

  /** Reflected polynomials need their top bit, the others their lowest: the term x^0. */
  predicate Odd8(poly: bv8, reflected: bool) { if reflected then poly & 0x80 != 0 else poly & 1 != 0 }
  predicate Odd16(poly: bv16, reflected: bool) { if reflected then poly & 0x8000 != 0 else poly & 1 != 0 }
  predicate Odd32(poly: bv32) { poly & 0x8000_0000 != 0 }

  lemma Odd8Bit(poly: bv8, reflected: bool)
    ensures Odd8(poly, reflected) == Bits8(poly, reflected)[7]
  {
    LastMasks();
    UpLast(LowWord8(poly), 1, 7);
    DownLast(HighWord8(poly), TOP, 7);
  }

  lemma Odd16Bit(poly: bv16, reflected: bool)
    ensures Odd16(poly, reflected) == Bits16(poly, reflected)[15]
  {
    LastMasks();
    UpLast(LowWord16(poly), 1, 15);
    DownLast(HighWord16(poly), TOP, 15);
  }

  lemma Odd32Bit(poly: bv32)
    ensures Odd32(poly) == Bits32(poly)[31]
  {
    LastMasks();
    UpLast(poly, 1, 31);
  }

  // ---------------------------------------------------------------- burst detection

  lemma Crc8DetectsBursts(p: seq<bv8>, q: seq<bv8>, s: nat, w: nat, c: bv8, poly: bv8, reflected: bool)
    requires Odd8(poly, reflected) && w <= 8
    requires DifferInWindow(MessageBits(p, reflected), MessageBits(q, reflected), s, w)
    ensures Crc8Of(p, c, poly, reflected) != Crc8Of(q, c, poly, reflected)
  {
    Odd8Bit(poly, reflected);
    Crc8IsSerial(p, c, poly, reflected);
    Crc8IsSerial(q, c, poly, reflected);
    BurstDetected(MessageBits(p, reflected), MessageBits(q, reflected), s, w, Bits8(c, reflected),
                  Bits8(poly, reflected));
  }

  lemma Crc16DetectsBursts(p: seq<bv8>, q: seq<bv8>, s: nat, w: nat, c: bv16, poly: bv16, reflected: bool)
    requires Odd16(poly, reflected) && w <= 16
    requires DifferInWindow(MessageBits(p, reflected), MessageBits(q, reflected), s, w)
    ensures Crc16Of(p, c, poly, reflected) != Crc16Of(q, c, poly, reflected)
  {
    Odd16Bit(poly, reflected);
    Crc16IsSerial(p, c, poly, reflected);
    Crc16IsSerial(q, c, poly, reflected);
    BurstDetected(MessageBits(p, reflected), MessageBits(q, reflected), s, w, Bits16(c, reflected),
                  Bits16(poly, reflected));
  }

  lemma Crc32DetectsBursts(p: seq<bv8>, q: seq<bv8>, s: nat, w: nat, c: bv32, poly: bv32)
    requires Odd32(poly) && w <= 32
    requires DifferInWindow(MessageBits(p, true), MessageBits(q, true), s, w)
    ensures Crc32Of(p, c, poly) != Crc32Of(q, c, poly)
  {
    Odd32Bit(poly);
    Crc32IsSerial(p, c, poly);
    Crc32IsSerial(q, c, poly);
    BurstDetected(MessageBits(p, true), MessageBits(q, true), s, w, Bits32(c), Bits32(poly));
  }

  // ---------------------------------------------------------------- mirror images

  /** y is x with its bits in the opposite order. */
  predicate Mirror8(x: bv8, y: bv8) { Bits8(x, true) == Bits8(y, false) }
  predicate Mirror16(x: bv16, y: bv16) { Bits16(x, true) == Bits16(y, false) }

  lemma {:induction false} MirrorMessage(p: seq<bv8>, q: seq<bv8>)
    requires |p| == |q| && forall i :: 0 <= i < |p| ==> Mirror8(p[i], q[i])
    ensures MessageBits(p, true) == MessageBits(q, false)
  {
    if p != [] {
      MirrorMessage(p[..|p| - 1], q[..|q| - 1]);
      assert Mirror8(p[|p| - 1], q[|q| - 1]);
    }
  }

  /** The two modes are mirror images: mirror bytes, seed and polynomial and the result is mirrored. */
  lemma Crc16ModesMirror(p: seq<bv8>, q: seq<bv8>, c: bv16, d: bv16, poly: bv16, ylop: bv16)
    requires |p| == |q| && forall i :: 0 <= i < |p| ==> Mirror8(p[i], q[i])
    requires Mirror16(c, d) && Mirror16(poly, ylop)
    ensures Mirror16(Crc16Of(p, c, poly, true), Crc16Of(q, d, ylop, false))
  {
    MirrorMessage(p, q);
    Crc16IsSerial(p, c, poly, true);
    Crc16IsSerial(q, d, ylop, false);
  }

  lemma Crc8ModesMirror(p: seq<bv8>, q: seq<bv8>, c: bv8, d: bv8, poly: bv8, ylop: bv8)
    requires |p| == |q| && forall i :: 0 <= i < |p| ==> Mirror8(p[i], q[i])
    requires Mirror8(c, d) && Mirror8(poly, ylop)
    ensures Mirror8(Crc8Of(p, c, poly, true), Crc8Of(q, d, ylop, false))
  {
    MirrorMessage(p, q);
    Crc8IsSerial(p, c, poly, true);
    Crc8IsSerial(q, d, ylop, false);
  }

  // ---------------------------------------------------------------- the residue of a frame

  lemma {:induction false} MessageConcat(p: seq<bv8>, q: seq<bv8>, reflected: bool)
    ensures MessageBits(p + q, reflected) == MessageBits(p, reflected) + MessageBits(q, reflected)
  {
    if q == [] {
      assert p + q == p;
    } else {
      assert (p + q)[..|p + q| - 1] == p + q[..|q| - 1];
      MessageConcat(p, q[..|q| - 1], reflected);
    }
  }

  /** The low byte and the high byte of a word. */
  function LowByte(x: bv16): bv8 { (x & 0xFF) as bv8 }
  function HighByte(x: bv16): bv8 { (x >> 8) as bv8 }

  lemma TwoBytes(lo: bv8, hi: bv8, reflected: bool)
    ensures MessageBits([lo, hi], reflected) == Bits8(lo, reflected) + Bits8(hi, reflected)
  {
    assert [lo, hi][..1] == [lo] && [lo][..0] == [];
    assert MessageBits([lo], reflected) == Bits8(lo, reflected);
  }

  function Shr(x: bv32, k: nat): bv32
    decreases k, x
  {
    if k == 0 then x else Shr(x >> 1, k - 1)
  }

  lemma {:induction false} UpShr(x: bv32, m: bv32, k: nat, n: nat)
    ensures Up(Shr(x, k), m, n) == Up(x, Higher(m, k), n)
    decreases k
  {
    if k > 0 {
      UpShr(x >> 1, m, k - 1, n);
      HigherAdd(m, k - 1, 1);
      UpShift(x, Higher(m, k - 1), n);
    }
  }

  lemma ShrOne(x: bv32, k: nat)
    requires k > 0
    ensures Shr(x, k) == Shr(x >> 1, k - 1)
  {
  }

  lemma ShrTwo(x: bv32, k: nat)
    requires k > 1
    ensures Shr(x, k) == Shr(x >> 2, k - 2)
  {
    ShrOne(x, k);
    ShrOne(x >> 1, k - 1);
  }

  lemma ShrFour(x: bv32, k: nat)
    requires k > 3
    ensures Shr(x, k) == Shr(x >> 4, k - 4)
  {
    ShrTwo(x, k);
    ShrTwo(x >> 2, k - 2);
  }

  lemma ShrEight(x: bv32)
    ensures Shr(x, 8) == x >> 8
  {
    ShrFour(x, 8);
    ShrFour(x >> 4, 4);
  }

  /** The bits of a word are those of its two bytes, low byte first. */
  lemma WordIsTwoBytes(x: bv16)
    ensures Bits16(x, true) == Bits8(LowByte(x), true) + Bits8(HighByte(x), true)
  {
    HigherEnds();
    UpSplit(LowWord16(x), 1, 8, 8);
    UpShr(LowWord16(x), 1, 8, 8);
    HighByteOf(x);
    LowByteOf(x);
  }

  lemma HighByteOf(x: bv16)
    ensures LowWord8(HighByte(x)) == Shr(LowWord16(x), 8)
  {
    ShrEight(LowWord16(x));
  }

  lemma LowByteOf(x: bv16)
    ensures Up(LowWord8(LowByte(x)), 1, 8) == Up(LowWord16(x), 1, 8)
  {
    var a, b := LowWord8(LowByte(x)), LowWord16(x);
    LowByteDiffers(x);
    NothingLow(a ^ b);
    UpXor(a, b, 1, 8);
    XorIsZero(Up(a, 1, 8), Up(b, 1, 8));
  }

  lemma LowByteDiffers(x: bv16)
    ensures (LowWord8(LowByte(x)) ^ LowWord16(x)) & 0xFF == 0
  {
  }

  lemma XorIsZero(a: seq<bool>, b: seq<bool>)
    requires |a| == |b| && Xor(a, b) == Zeros(|a|)
    ensures a == b
  {
    XorZeros(b);
    XorCancel(a, b, b);
  }

  lemma NothingLow(d: bv32)
    requires d & 0xFF == 0
    ensures Up(d, 1, 8) == Zeros(8)
  {
    assert !Has(d, 1) && !Has(d, 2) && !Has(d, 4) && !Has(d, 8);
    assert !Has(d, 0x10) && !Has(d, 0x20) && !Has(d, 0x40) && !Has(d, 0x80);
    assert Up(d, 0x40, 2) == [false, false];
    assert Up(d, 0x10, 4) == [false, false] + Up(d, 0x40, 2);
    assert Up(d, 4, 6) == [false, false] + Up(d, 0x10, 4);
    assert Up(d, 1, 8) == [false, false] + Up(d, 4, 6);
  }

  lemma SentIsCrcIff(lo: bv8, hi: bv8, x: bv16)
    ensures Bits8(lo, true) + Bits8(hi, true) == Bits16(x, true) <==> lo == LowByte(x) && hi == HighByte(x)
  {
    WordIsTwoBytes(x);
    var a, b := Bits8(lo, true) + Bits8(hi, true), Bits16(x, true);
    if a == b {
      assert a[..8] == Bits8(lo, true) && b[..8] == Bits8(LowByte(x), true);
      assert a[8..] == Bits8(hi, true) && b[8..] == Bits8(HighByte(x), true);
      BitsDetermine8(lo, LowByte(x));
      BitsDetermine8(hi, HighByte(x));
    }
  }

  lemma BitsDetermine8(a: bv8, b: bv8)
    requires Bits8(a, true) == Bits8(b, true)
    ensures a == b
  {
    HigherEnds();
    SameBits(LowWord8(a), LowWord8(b), 1, 8);
    ByteDetermined(a, b);
  }

  lemma ByteDetermined(a: bv8, b: bv8)
    requires (LowWord8(a) ^ LowWord8(b)) & 0xFF == 0
    ensures a == b
  {
  }

  lemma BitsDetermine16(a: bv16, b: bv16)
    requires Bits16(a, true) == Bits16(b, true)
    ensures a == b
  {
    HigherEnds();
    SameBits(LowWord16(a), LowWord16(b), 1, 16);
    WordDetermined(a, b);
  }

  lemma WordDetermined(a: bv16, b: bv16)
    requires (LowWord16(a) ^ LowWord16(b)) & 0xFFFF == 0
    ensures a == b
  {
  }

  /** A frame has residue zero exactly when its last two bytes are its CRC, low byte first. */
  lemma FrameResidueIff(m: seq<bv8>, lo: bv8, hi: bv8, c: bv16, poly: bv16)
    requires Odd16(poly, true)
    ensures Crc16Of(m + [lo, hi], c, poly, true) == 0
            <==> lo == LowByte(Crc16Of(m, c, poly, true)) && hi == HighByte(Crc16Of(m, c, poly, true))
  {
    var x, r := Crc16Of(m, c, poly, true), Crc16Of(m + [lo, hi], c, poly, true);
    Odd16Bit(poly, true);
    Crc16IsSerial(m, c, poly, true);
    Crc16IsSerial(m + [lo, hi], c, poly, true);
    MessageConcat(m, [lo, hi], true);
    TwoBytes(lo, hi, true);
    ResidueZeroIff(MessageBits(m, true), Bits8(lo, true) + Bits8(hi, true), Bits16(c, true), Bits16(poly, true));
    SentIsCrcIff(lo, hi, x);
    ZeroIff(r);
  }

  lemma ZeroIff(x: bv16)
    ensures Bits16(x, true) == Zeros(16) <==> x == 0
  {
    ZeroBits();
    if Bits16(x, true) == Zeros(16) {
      BitsDetermine16(x, 0);
    }
  }

  lemma ZeroBits()
    ensures Bits16(0, true) == Zeros(16)
  {
    HigherEnds();
    UpSplit(0, 1, 8, 8);
    NothingLow(0);
    NothingAbove(0, 0x100, 8);
  }

  // ---------------------------------------------------------------- linearity

  function XorBytes(p: seq<bv8>, q: seq<bv8>): (r: seq<bv8>)
    requires |p| == |q|
    ensures |r| == |p|
  {
    seq(|p|, i requires 0 <= i < |p| => p[i] ^ q[i])
  }

  lemma {:induction false} MessageXor(p: seq<bv8>, q: seq<bv8>, reflected: bool)
    requires |p| == |q|
    ensures |MessageBits(p, reflected)| == |MessageBits(q, reflected)|
    ensures MessageBits(XorBytes(p, q), reflected) == Xor(MessageBits(p, reflected), MessageBits(q, reflected))
  {
    if p != [] {
      var n := |p| - 1;
      MessageXor(p[..n], q[..n], reflected);
      assert XorBytes(p, q)[..n] == XorBytes(p[..n], q[..n]);
      ByteXor(p[n], q[n], reflected);
      XorConcat(MessageBits(p[..n], reflected), MessageBits(q[..n], reflected), Bits8(p[n], reflected),
                Bits8(q[n], reflected));
    }
  }

  lemma XorConcat(a: seq<bool>, b: seq<bool>, x: seq<bool>, y: seq<bool>)
    requires |a| == |b| && |x| == |y|
    ensures Xor(a + x, b + y) == Xor(a, b) + Xor(x, y)
  {
  }

  lemma ByteXor(a: bv8, b: bv8, reflected: bool)
    ensures Bits8(a ^ b, reflected) == Xor(Bits8(a, reflected), Bits8(b, reflected))
  {
    if reflected {
      ByteWords(a, b);
      UpXor(LowWord8(a), LowWord8(b), 1, 8);
    } else {
      ByteHighWords(a, b);
      DownXor(HighWord8(a), HighWord8(b), TOP, 8);
    }
  }

  lemma ByteWords(a: bv8, b: bv8)
    ensures LowWord8(a ^ b) == LowWord8(a) ^ LowWord8(b)
  {
  }

  lemma ByteHighWords(a: bv8, b: bv8)
    ensures HighWord8(a ^ b) == HighWord8(a) ^ HighWord8(b)
  {
  }

  lemma WordXor(a: bv16, b: bv16, reflected: bool)
    ensures Bits16(a ^ b, reflected) == Xor(Bits16(a, reflected), Bits16(b, reflected))
  {
    if reflected {
      WordXorLow(a, b);
    } else {
      WordXorHigh(a, b);
    }
  }

  lemma WordXorLow(a: bv16, b: bv16)
    ensures Bits16(a ^ b, true) == Xor(Bits16(a, true), Bits16(b, true))
  {
    WordWords(a, b);
    UpXor(LowWord16(a), LowWord16(b), 1, 16);
  }

  lemma WordXorHigh(a: bv16, b: bv16)
    ensures Bits16(a ^ b, false) == Xor(Bits16(a, false), Bits16(b, false))
  {
    WordHighWords(a, b);
    DownXor(HighWord16(a), HighWord16(b), TOP, 16);
  }

  lemma WordWords(a: bv16, b: bv16)
    ensures LowWord16(a ^ b) == LowWord16(a) ^ LowWord16(b)
  {
  }

  lemma WordHighWords(a: bv16, b: bv16)
    ensures HighWord16(a ^ b) == HighWord16(a) ^ HighWord16(b)
  {
  }

  lemma BitsDetermineHigh16(a: bv16, b: bv16)
    requires Bits16(a, false) == Bits16(b, false)
    ensures a == b
  {
    LowerEnds();
    SameBitsDown(HighWord16(a), HighWord16(b), TOP, 16);
    HighWordDetermined(a, b);
  }

  lemma HighWordDetermined(a: bv16, b: bv16)
    requires (HighWord16(a) ^ HighWord16(b)) & 0xFFFF_0000 == 0
    ensures a == b
  {
  }

  lemma SumOfCrcs(a: bv16, b: bv16, r: bv16, reflected: bool)
    requires Bits16(r, reflected) == Xor(Bits16(a, reflected), Bits16(b, reflected))
    ensures r == a ^ b
  {
    WordXor(a, b, reflected);
    if reflected {
      BitsDetermine16(r, a ^ b);
    } else {
      BitsDetermineHigh16(r, a ^ b);
    }
  }

  lemma SerialOfSum(p: seq<bv8>, q: seq<bv8>, c: bv16, d: bv16, poly: seq<bool>, reflected: bool)
    requires |p| == |q| && |poly| == 16
    ensures Serial(MessageBits(XorBytes(p, q), reflected), Bits16(c ^ d, reflected), poly)
            == Xor(Serial(MessageBits(p, reflected), Bits16(c, reflected), poly),
                   Serial(MessageBits(q, reflected), Bits16(d, reflected), poly))
  {
    MessageXor(p, q, reflected);
    WordXor(c, d, reflected);
    SerialLinear(MessageBits(p, reflected), MessageBits(q, reflected), Bits16(c, reflected), Bits16(d, reflected),
                 poly);
  }

  /** Crc16 is linear over exclusive or, in message and seed together, in both modes. */
  lemma Crc16Linear(p: seq<bv8>, q: seq<bv8>, c: bv16, d: bv16, poly: bv16, reflected: bool)
    requires |p| == |q|
    ensures Crc16Of(XorBytes(p, q), c ^ d, poly, reflected)
              == Crc16Of(p, c, poly, reflected) ^ Crc16Of(q, d, poly, reflected)
  {
    var s := c ^ d;
    Crc16IsSerial(p, c, poly, reflected);
    Crc16IsSerial(q, d, poly, reflected);
    Crc16IsSerial(XorBytes(p, q), s, poly, reflected);
    SerialOfSum(p, q, c, d, Bits16(poly, reflected), reflected);
    SumOfCrcs(Crc16Of(p, c, poly, reflected), Crc16Of(q, d, poly, reflected),
              Crc16Of(XorBytes(p, q), s, poly, reflected), reflected);
  }

  // ---------------------------------------------------------------- what goes unseen

  /** An error of 17 bits in the form of the polynomial goes unseen, wherever it lies in the message. */
  lemma Crc16MissesLongerBurst(p: seq<bv8>, q: seq<bv8>, s: nat, c: bv16, poly: bv16, reflected: bool)
    requires |p| == |q| && s + 17 <= |MessageBits(p, reflected)|
    requires |MessageBits(q, reflected)| == |MessageBits(p, reflected)|
    requires Xor(MessageBits(p, reflected), MessageBits(q, reflected))
          == PolyAt(s, Bits16(poly, reflected), |MessageBits(p, reflected)|)
    ensures Crc16Of(p, c, poly, reflected) == Crc16Of(q, c, poly, reflected)
  {
    Crc16IsSerial(p, c, poly, reflected);
    Crc16IsSerial(q, c, poly, reflected);
    MissedAnywhere(MessageBits(p, reflected), MessageBits(q, reflected), s, Bits16(c, reflected),
                   Bits16(poly, reflected));
    if reflected {
      BitsDetermine16(Crc16Of(p, c, poly, true), Crc16Of(q, c, poly, true));
    } else {
      BitsDetermineHigh16(Crc16Of(p, c, poly, false), Crc16Of(q, c, poly, false));
    }
  }
}
