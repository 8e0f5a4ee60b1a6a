/**
 CircBufferWithCont.hpp: a ring written element by element and read by contiguous blocks.
 */
module BlockRings {
  import opened Words
  import opened RingIndex

  /** The masked index arithmetic this ring shares with CircBufferPWR2. */
  function MaskRing(sizeLog2: nat, width: nat, alu: nat): Ring {
    Ring(MaskBits(sizeLog2), Pow2(sizeLog2), width, alu)
  }

  /** The block a contiguous read returns: the whole queue, or up to the end of the buffer. */
  function BlockLength(size: nat, r: nat, w: nat): int {
    if r > w then size - r else w - r
  }

  /** What is left of a queue behind its first n elements. */
  function Behind<T>(s: seq<T>, n: nat): seq<T> { if n <= |s| then s[n..] else [] }

  /** `(BeingRead + n) & Mask`. */
  lemma AdvanceIs(g: Ring, i: nat, n: nat)
    requires g.Ok() && g.variant.MaskBits? && i < g.size && n <= g.size
    ensures MaskWord(i + n, g.alu, g.variant.bits) == if i + n < g.size then i + n else i + n - g.size
  {
    MaskWordIsMod(i + n, g.alu, g.variant.bits);
    DivModUnique(i + n, g.size, if i + n < g.size then 0 else 1, if i + n < g.size then i + n else i + n - g.size);
  }

  class BlockRing<T(0)> {
    const g: Ring
    const Buffer: array<T>
    var BeingRead: nat
    var BeingWritten: nat
    var LastBlockSize: nat
    ghost var Queue: seq<T>

    ghost predicate Valid()
      reads this, Buffer
    {
      Cells() && LastBlockSize <= |Queue|
    }

    ghost predicate Cells()
      reads this, Buffer
    {
      && g.Ok() && g.variant.MaskBits?
      && Buffer.Length == g.size
      && BeingRead < g.size && BeingWritten < g.size
      && |Queue| == g.Count(BeingRead, BeingWritten)
      && forall i :: 0 <= i < |Queue| ==> Buffer[CellOf(BeingRead + i)] == Queue[i]
    }

    ghost function CellOf(i: int): int {
      if i < g.size then i else i - g.size
    }

    /** The cells a reader was given and has not finished with. */
    ghost function Block(): seq<T>
      reads this
      requires LastBlockSize <= |Queue|
    {
      Queue[..LastBlockSize]
    }

    constructor (sizeLog2: nat, width: nat, alu: nat)
      requires sizeLog2 <= width <= alu
      ensures Valid() && fresh(Buffer) && g == MaskRing(sizeLog2, width, alu)
      ensures Queue == [] && LastBlockSize == 0 && BeingRead == 0
    {
      g := MaskRing(sizeLog2, width, alu);
      Buffer := new T[Pow2(sizeLog2)];
      BeingRead, BeingWritten, LastBlockSize := 0, 0, 0;
      Queue := [];
    }

    method Clear()
      requires Valid()
      modifies this`BeingRead, this`LastBlockSize, this`Queue
      ensures Valid() && Queue == [] && LastBlockSize == 0
    {
      BeingRead := BeingWritten;
      LastBlockSize := 0;
      Queue := [];
    }

    //************* Writer functions

    method LeftToWrite() returns (n: int)
      requires Valid()
      ensures n == g.size - 1 - |Queue|
    {
      LeftToWriteExact(g, BeingRead, BeingWritten);
      n := g.LeftToWrite(BeingRead, BeingWritten);
    }

    /** Storing through the pointer GetSlotToWrite returns reaches no queued cell. */
    method FillSlot(x: T)
      requires Valid()
      modifies Buffer
      ensures Valid() && Buffer[BeingWritten] == x
      ensures forall i :: 0 <= i < g.size && i != BeingWritten ==> Buffer[i] == old(Buffer[i])
    {
      Buffer[BeingWritten] := x;
    }

    method FinishedWriting()
      requires Valid() && |Queue| < g.size - 1
      modifies this`BeingWritten, this`Queue
      ensures Valid() && Queue == old(Queue) + [old(Buffer[BeingWritten])]
    {
      IndexStep(g, BeingWritten);
      assert CellOf(BeingRead + |Queue|) == BeingWritten;
      Queue := Queue + [Buffer[BeingWritten]];
      BeingWritten := MaskWord(BeingWritten + 1, g.alu, g.variant.bits);
    }

    method Write_(x: T)
      requires Valid() && |Queue| < g.size - 1
      modifies this`BeingWritten, this`Queue, Buffer
      ensures Valid() && Queue == old(Queue) + [x] && Block() == old(Block())
    {
      FillSlot(x);
      FinishedWriting();
    }

    method Write(x: T) returns (ok: bool)
      requires Valid()
      modifies this`BeingWritten, this`Queue, Buffer
      ensures Valid() && ok == (|old(Queue)| < g.size - 1)
      ensures Queue == (if ok then old(Queue) + [x] else old(Queue)) && Block() == old(Block())
    {
      var n := LeftToWrite();
      ok := n != 0;
      if ok {
        Write_(x);
      }
    }

    /**
     Makes room by dropping the whole block being read, or one element when none is. Either
     way nothing is being read any more, so the reader's own FinishedReading moves nothing.
     */
    method ForceSlotToWrite()
      requires Valid()
      modifies this`BeingRead, this`LastBlockSize, this`Queue
      ensures Valid() && (g.size >= 2 ==> |Queue| < g.size - 1)
      ensures |old(Queue)| < g.size - 1 ==> Queue == old(Queue) && LastBlockSize == old(LastBlockSize)
      ensures |old(Queue)| == g.size - 1 ==>
                LastBlockSize == 0 &&
                Queue == Behind(old(Queue), if old(LastBlockSize) == 0 then 1 else old(LastBlockSize))
    {
      var n := LeftToWrite();
      if n == 0 {
        if LastBlockSize == 0 {
          LastBlockSize := 1;
        }
        FinishedReading();
      }
    }

    /** Makes room only when nothing is being read; otherwise fails and changes nothing. */
    method SaferForceSlotToWrite() returns (ok: bool)
      requires Valid()
      modifies this`BeingRead, this`Queue
      ensures Valid() && ok == (|old(Queue)| < g.size - 1 || LastBlockSize == 0)
      ensures Queue == if ok && |old(Queue)| == g.size - 1 then Behind(old(Queue), 1) else old(Queue)
      ensures LastBlockSize > 0 ==> BeingRead == old(BeingRead)
      ensures ok && g.size >= 2 ==> |Queue| < g.size - 1
    {
      ok := true;
      var n := LeftToWrite();
      if n == 0 {
        if LastBlockSize == 0 {
          AdvanceIs(g, BeingRead, 1);
          BeingRead := MaskWord(BeingRead + 1, g.alu, g.variant.bits);
          Queue := Behind(Queue, 1);
        } else {
          ok := false;
        }
      }
    }

    //************* Reader functions

    method LeftToRead() returns (n: int)
      requires Valid()
      ensures n == |Queue|
    {
      LeftToReadExact(g, BeingRead, BeingWritten);
      n := g.LeftToRead(BeingRead, BeingWritten);
    }

    method GetSlotToRead() returns (x: T)
      requires Valid() && Queue != []
      modifies this`LastBlockSize
      ensures Valid() && LastBlockSize == 1 && Block() == [x]
    {
      LastBlockSize := 1;
      x := Buffer[BeingRead];
      assert CellOf(BeingRead + 0) == BeingRead;
    }

    method MoveRead()
      requires g.Ok() && g.variant.MaskBits? && BeingRead < g.size && LastBlockSize <= g.size
      modifies this`BeingRead
      ensures BeingRead == CellOf(old(BeingRead) + LastBlockSize) && BeingRead < g.size
    {
      AdvanceIs(g, BeingRead, LastBlockSize);
      BeingRead := MaskWord(BeingRead + LastBlockSize, g.alu, g.variant.bits);
    }

    lemma CountLess(r: nat, w: nat, n: nat)
      requires r < g.size && w < g.size && n <= g.Count(r, w)
      ensures CellOf(r + n) < g.size && g.Count(CellOf(r + n), w) == g.Count(r, w) - n
    {
    }

    /** A ring of one cell is full while empty: then there is nothing to give back. */
    method FinishedReading()
      requires Cells() && (LastBlockSize <= |Queue| || LastBlockSize == g.size == 1)
      modifies this`BeingRead, this`LastBlockSize, this`Queue
      ensures Valid() && LastBlockSize == 0 && Queue == Behind(old(Queue), old(LastBlockSize))
      ensures BeingRead == CellOf(old(BeingRead) + old(LastBlockSize))
    {
      ghost var r, n := BeingRead, LastBlockSize;
      MoveRead();
      if n <= |Queue| {
        CountLess(r, BeingWritten, n);
        forall i | 0 <= i < |Queue| - n
          ensures Buffer[CellOf(BeingRead + i)] == Queue[n..][i]
        {
          assert CellOf(BeingRead + i) == CellOf(r + (n + i));
        }
      }
      Queue := Behind(Queue, n);
      LastBlockSize := 0;
    }

    method Read() returns (ok: bool, x: T)
      requires Valid()
      modifies this`BeingRead, this`LastBlockSize, this`Queue
      ensures Valid() && ok == (old(Queue) != [])
      ensures if ok then [x] + Queue == old(Queue) && LastBlockSize == 0
              else Queue == [] && LastBlockSize == old(LastBlockSize)
    {
      var n := LeftToRead();
      ok := n != 0;
      if ok {
        x := GetSlotToRead();
        FinishedReading();
      } else {
        x := *;
      }
    }

    /**
     The block returned is `Buffer[start..start + LastBlockSize]`: contiguous in memory and a
     prefix of the queue.
     */
    method GetContinousBlockToRead() returns (ok: bool, start: nat)
      requires Valid()
      modifies this`LastBlockSize
      ensures Valid() && ok == (old(LastBlockSize) == 0 && Queue != []) && start == BeingRead
      ensures !ok ==> LastBlockSize == old(LastBlockSize)
      ensures ok ==>
                && LastBlockSize > 0 && start + LastBlockSize <= g.size
                && Buffer[start..start + LastBlockSize] == Block()
                && LastBlockSize == BlockLength(g.size, BeingRead, BeingWritten)
    {
      start := BeingRead;
      if LastBlockSize != 0 {
        return false, start;
      }
      ok, start := TakeUpTo(BeingWritten);
    }

    /**
     The rest of that function, from the point where it has read BeingWritten; a writer may
     have moved on since.
     */
    method TakeUpTo(frozen: nat) returns (ok: bool, start: nat)
      requires Valid() && LastBlockSize == 0 && frozen < g.size && g.Count(BeingRead, frozen) <= |Queue|
      modifies this`LastBlockSize
      ensures Valid() && ok == (BeingRead != frozen) && start == BeingRead
      ensures !ok ==> LastBlockSize == 0
      ensures ok ==>
                && LastBlockSize > 0 && start + LastBlockSize <= g.size
                && Buffer[start..start + LastBlockSize] == Block()
                && LastBlockSize == BlockLength(g.size, BeingRead, frozen)
    {
      start := BeingRead;
      if BeingRead == frozen {
        return false, start;
      }
      if BeingRead > frozen {
        LastBlockSize := g.size - BeingRead;
      } else {
        CircleDistance(BeingRead, frozen, g.size);
        MaskWordIsMod(frozen - BeingRead, g.alu, g.variant.bits);
        LastBlockSize := MaskWord(frozen - BeingRead, g.alu, g.variant.bits);
      }
      forall i | 0 <= i < LastBlockSize
        ensures Buffer[start + i] == Queue[i]
      {
        assert CellOf(BeingRead + i) == start + i;
      }
      ok := true;
    }
  }

  /** With nothing written in between, two block reads always empty the ring. */
  method DrainInTwo<T(0)>(b: BlockRing<T>) returns (first: seq<T>, second: seq<T>)
    requires b.Valid() && b.LastBlockSize == 0
    modifies b`BeingRead, b`LastBlockSize, b`Queue
    ensures b.Valid() && b.Queue == [] && first + second == old(b.Queue)
  {
    first, second := [], [];
    var ok, start := b.GetContinousBlockToRead();
    if ok {
      first := b.Buffer[start..start + b.LastBlockSize];
      AdvanceIs(b.g, b.BeingRead, b.LastBlockSize);
      b.FinishedReading();
      ok, start := b.GetContinousBlockToRead();
      if ok {
        second := b.Buffer[start..start + b.LastBlockSize];
        b.FinishedReading();
      }
    }
  }

  /** A writer's way in: Write, or SaferForceSlotToWrite with a store through its pointer. */
  datatype Put<T> = Plain(x: T) | Forced(x: T)

  /**
   Whatever is written after a block was returned, its cells stay as they are until
   FinishedReading, and the block stays at the head of the queue.
   */
  method WritesSpareTheBlock<T(0)>(b: BlockRing<T>, puts: seq<Put<T>>)
    requires b.Valid() && b.LastBlockSize > 0
    requires b.BeingRead + b.LastBlockSize <= b.g.size
    modifies b`BeingRead, b`BeingWritten, b`Queue, b.Buffer
    ensures b.Valid() && b.BeingRead == old(b.BeingRead) && b.Block() == old(b.Block())
    ensures b.Buffer[b.BeingRead..b.BeingRead + b.LastBlockSize] == b.Block()
  {
    for k := 0 to |puts|
      invariant b.Valid() && b.BeingRead == old(b.BeingRead) && b.Block() == old(b.Block())
    {
      match puts[k]
      case Plain(x) =>
        var _ := b.Write(x);
      case Forced(x) =>
        var ok := b.SaferForceSlotToWrite();
        if ok {
          b.FillSlot(x);
          b.FinishedWriting();
        }
    }
    forall i | 0 <= i < b.LastBlockSize
      ensures b.Buffer[b.BeingRead + i] == b.Queue[i]
    {
      assert b.CellOf(b.BeingRead + i) == b.BeingRead + i;
    }
  }

  /**
   A forced write that interrupts a reader: the block is dropped once, and the reader's own
   FinishedReading afterwards takes nothing more.
   */
  method ForceDuringRead<T(0)>(b: BlockRing<T>, x: T)
    requires b.Valid() && b.LastBlockSize > 0 && |b.Queue| == b.g.size - 1
    modifies b`BeingRead, b`BeingWritten, b`LastBlockSize, b`Queue, b.Buffer
    ensures b.Valid() && b.Queue == old(b.Queue)[old(b.LastBlockSize)..] + [x]
  {
    b.ForceSlotToWrite();
    b.FillSlot(x);
    b.FinishedWriting();
    b.FinishedReading();
  }
}
