/**
 CircBuffer.hpp: the three ring buffers, which differ only in how an index is kept inside the
 buffer (compare and reset, bit mask, natural wrap of the counter type).
 */
module RingIndex {
  import opened Words

  datatype Variant = CompareReset | MaskBits(bits: nat) | AutoWrap

  /** `width` is the number of bits in CounterType, `alu` of the word C++ promotes it to. */
  datatype Ring = Ring(variant: Variant, size: nat, width: nat, alu: nat) {
    predicate Ok() {
      && size > 0
      && width <= alu
      && match variant
         case CompareReset => size <= Pow2(width)
         case MaskBits(b) => size == Pow2(b) && b <= width
         case AutoWrap => size == Pow2(width)
    }

    /** `++Index`: the counter alone, before it is brought back into the buffer. */
    function Bump(i: nat): nat {
      (i + 1) % Pow2(width)
    }

    /** NormalizeReadCounter. */
    function Normalize(i: nat): nat {
      match variant
      case CompareReset => if i >= size then i - size else i
      case MaskBits(b) => And(i, Pow2(b) - 1)
      case AutoWrap => i
    }

    /** The first half of FinishedWriting: only CompareReset stores the index twice. */
    function BumpWrite(i: nat): nat {
      match variant
      case CompareReset => Bump(i)
      case MaskBits(b) => MaskWord(i + 1, alu, b)
      case AutoWrap => Bump(i)
    }

    /** The second half of FinishedWriting. */
    function SettleWrite(i: nat): nat {
      if variant.CompareReset? && i == size then 0 else i
    }

    function LeftToRead(r: nat, w: nat): int {
      match variant
      case CompareReset => (if w >= r then w - r else w + size - r) % Pow2(width)
      case MaskBits(b) => MaskWord(w - r, alu, b)
      case AutoWrap => (w - r) % Pow2(width)
    }

    /** CompareReset returns the room as a uint8_t. */
    function LeftToWrite(r: nat, w: nat): int {
      match variant
      case CompareReset => (size - 1 - LeftToRead(r, w)) % 256
      case MaskBits(b) => MaskWord(r - 1 - w, alu, b)
      case AutoWrap => (r - 1 - w) % Pow2(width)
    }

    /** The abstract circle of `size` cells. */
    function Next(i: nat): nat {
      if i + 1 == size then 0 else i + 1
    }

    /** The cell `k` places before `i`. */
    function Back(i: nat, k: nat): int {
      if i >= k then i - k else i + size - k
    }

    function Count(r: nat, w: nat): int {
      if w >= r then w - r else w - r + size
    }

    /** The room a writer is told about when `n` elements are queued. */
    function Room(n: nat): int {
      if variant.CompareReset? then (size - 1 - n) % 256 else size - 1 - n
    }
  }

  /** All three index disciplines walk the same circle. */
  lemma IndexStep(g: Ring, i: nat)
    requires g.Ok() && i < g.size
    ensures g.Normalize(g.Bump(i)) == g.SettleWrite(g.BumpWrite(i)) == g.Next(i)
    ensures g.Bump(i) == i + 1 || g.Bump(i) == g.Next(i) == 0
    ensures g.BumpWrite(i) == g.Next(i) || (g.variant.CompareReset? && g.BumpWrite(i) == i + 1 == g.size)
  {
    SizeFits(g);
    BumpIs(g, i);
    if g.variant.MaskBits? {
      MaskIndexStep(g, i);
    }
  }

  lemma SizeFits(g: Ring)
    requires g.Ok()
    ensures g.size <= Pow2(g.width)
  {
    if g.variant.MaskBits? {
      Pow2Split(g.width - g.variant.bits, g.variant.bits);
      assert (Pow2(g.width - g.variant.bits) - 1) * g.size >= 0;
    }
  }

  lemma BumpIs(g: Ring, i: nat)
    requires g.Ok() && i < Pow2(g.width)
    ensures g.Bump(i) == if i + 1 == Pow2(g.width) then 0 else i + 1
  {
    WrapAtLimit(i, Pow2(g.width));
  }

  lemma MaskIndexStep(g: Ring, i: nat)
    requires g.Ok() && g.variant.MaskBits? && i < g.size
    ensures g.Normalize(g.Bump(i)) == g.BumpWrite(i) == g.Next(i)
  {
    var b := g.variant.bits;
    AndMask(g.Bump(i), b);
    MaskWordIsMod(i + 1, g.alu, b);
    MaskWordIsMod(i + 1, g.width, b);
    WrapAtLimit(i, Pow2(b));
  }

  lemma WrapAtLimit(i: nat, m: nat)
    requires i < m
    ensures (i + 1) % m == if i + 1 == m then 0 else i + 1
  {
    DivModUnique(i + 1, m, if i + 1 == m then 1 else 0, if i + 1 == m then 0 else i + 1);
  }

  lemma SmallMod(x: nat, m: nat)
    requires x < m
    ensures x % m == x
  {
    DivModUnique(x, m, 0, x);
  }

  /**
   What each side is told is exact, whichever discipline is used, and also while the other
   side is between moving its index and bringing it back into the buffer.
   */
  lemma LeftToReadExact(g: Ring, r: nat, w: nat)
    requires g.Ok() && r < g.size && w < g.size
    ensures g.LeftToRead(r, w) == g.Count(r, w)
    ensures g.LeftToRead(g.Bump(r), w) == g.Count(g.Next(r), w)
    ensures g.Next(w) != r ==> g.LeftToRead(r, g.BumpWrite(w)) == g.Count(r, g.Next(w))
  {
    IndexStep(g, r);
    IndexStep(g, w);
    SizeFits(g);
    if g.variant.CompareReset? {
      SmallMod(g.Count(r, w), Pow2(g.width));
      SmallMod(g.Count(g.Next(r), w), Pow2(g.width));
      SmallMod(g.Count(r, g.Next(w)), Pow2(g.width));
    } else {
      CircularRead(g, r, w);
      CircularRead(g, r, g.Next(w));
      CircularRead(g, g.Next(r), w);
      if g.Bump(r) != g.Next(r) {
        CircularReadAtEnd(g, w);
      }
    }
  }

  lemma CircularRead(g: Ring, r: nat, w: nat)
    requires g.Ok() && !g.variant.CompareReset? && r < g.size && w < g.size
    ensures g.LeftToRead(r, w) == g.Count(r, w)
  {
    CircleDistance(r, w, g.size);
    if g.variant.MaskBits? {
      MaskWordIsMod(w - r, g.alu, g.variant.bits);
    }
  }

  lemma CircularReadAtEnd(g: Ring, w: nat)
    requires g.Ok() && !g.variant.CompareReset? && w < g.size
    ensures g.LeftToRead(g.size, w) == w
  {
    ModShift(w - g.size, 1, g.size);
    SmallMod(w, g.size);
    if g.variant.MaskBits? {
      MaskWordIsMod(w - g.size, g.alu, g.variant.bits);
    }
  }

  lemma LeftToWriteExact(g: Ring, r: nat, w: nat)
    requires g.Ok() && r < g.size && w < g.size
    ensures g.LeftToWrite(r, w) == g.Room(g.Count(r, w))
    ensures g.LeftToWrite(g.Bump(r), w) == g.Room(g.Count(g.Next(r), w))
  {
    IndexStep(g, r);
    if g.variant.CompareReset? {
      LeftToReadExact(g, r, w);
    } else {
      CircularRoom(g, r, w);
      CircularRoom(g, g.Next(r), w);
      if g.Bump(r) != g.Next(r) {
        CircularRoomAtEnd(g, w);
      }
    }
  }

  lemma CircularRoom(g: Ring, r: nat, w: nat)
    requires g.Ok() && !g.variant.CompareReset? && r < g.size && w < g.size
    ensures g.LeftToWrite(r, w) == g.size - 1 - g.Count(r, w)
  {
    RoomIsComplement(g, r, w);
    if g.variant.MaskBits? {
      MaskWordIsMod(r - 1 - w, g.alu, g.variant.bits);
    }
  }

  lemma CircularRoomAtEnd(g: Ring, w: nat)
    requires g.Ok() && !g.variant.CompareReset? && w < g.size
    ensures g.LeftToWrite(g.size, w) == g.size - 1 - w
  {
    SmallMod(g.size - 1 - w, g.size);
    if g.variant.MaskBits? {
      MaskWordIsMod(g.size - 1 - w, g.alu, g.variant.bits);
    }
  }

  lemma RoomIsComplement(g: Ring, r: nat, w: nat)
    requires g.size > 0 && r < g.size && w < g.size
    ensures (r - 1 - w) % g.size == g.size - 1 - g.Count(r, w)
  {
    var c := g.Count(r, w);
    DivModUnique(r - 1 - w, g.size, if w >= r then -1 else 0, g.size - 1 - c);
  }

  /**
   The uint8_t result: the writer is told the true room in every state exactly when the base
   variant has at most 256 cells.
   */
  lemma RoomExactIff(g: Ring)
    requires g.Ok()
    ensures (forall n: nat :: n < g.size ==> g.Room(n) == g.size - 1 - n)
            <==> !g.variant.CompareReset? || g.size <= 256
  {
    if g.variant.CompareReset? && g.size > 256 {
      assert g.Room(0) != g.size - 1;
    }
  }

  /**
   The writer of an empty ring of two cells or more is told that it is full, so that a forced
   write is lost, exactly when it is a base ring whose capacity is a multiple of 256.
   */
  lemma EmptyLooksFullIff(g: Ring, r: nat)
    requires g.Ok() && g.size >= 2 && r < g.size
    ensures g.LeftToRead(r, r) == 0
    ensures g.LeftToWrite(r, r) == 0 <==> g.variant.CompareReset? && (g.size - 1) % 256 == 0
  {
    LeftToReadExact(g, r, r);
    LeftToWriteExact(g, r, r);
  }

  /** Same size, same indices: the three variants give the same answers. */
  lemma VariantsAgree(g: Ring, h: Ring, r: nat, w: nat)
    requires g.Ok() && h.Ok() && g.size == h.size <= 256 && r < g.size && w < g.size
    ensures g.LeftToRead(r, w) == h.LeftToRead(r, w)
    ensures g.LeftToWrite(r, w) == h.LeftToWrite(r, w)
    ensures g.Normalize(g.Bump(r)) == h.Normalize(h.Bump(r))
    ensures g.SettleWrite(g.BumpWrite(w)) == h.SettleWrite(h.BumpWrite(w))
  {
    ExactWhenSmall(g, r, w);
    ExactWhenSmall(h, r, w);
  }

  lemma ExactWhenSmall(g: Ring, r: nat, w: nat)
    requires g.Ok() && g.size <= 256 && r < g.size && w < g.size
    ensures g.LeftToRead(r, w) == g.Count(r, w)
    ensures g.LeftToWrite(r, w) == g.size - 1 - g.Count(r, w)
    ensures g.Normalize(g.Bump(r)) == g.Next(r)
    ensures g.SettleWrite(g.BumpWrite(w)) == g.Next(w)
  {
    LeftToReadExact(g, r, w);
    LeftToWriteExact(g, r, w);
    IndexStep(g, r);
    IndexStep(g, w);
  }
}
