/**
 Port.hpp: the transmitter over its two rings. Each method is one uninterrupted stretch of
 code; any consumer call may come between StoreBlock and StoreMarker.
 */
module Ports {
  import opened Options
  import opened Words
  import opened RingIndex
  import opened CircBuffers
  import opened PortSpec
  import opened Checksum
  import opened PortCounters

  class Port {
    const ESC_code: byte
    const BufferTX: CircBuffer<byte>
    const BlockInfoBufTX: CircBuffer<BlockInfo>
    var pCurByteInBlock: Option<nat>
    var LastSentIsBlock: bool
    var RunningCS: byte
    var BytesTransmitted: nat
    ghost var Owed: bool
    ghost var Items: seq<Item>
    ghost var Log: seq<Event>

    ghost predicate Valid()
      reads this`pCurByteInBlock, this`LastSentIsBlock, this`Owed, this`Items, this`Log
      reads BufferTX, BufferTX.Buffer, BlockInfoBufTX, BlockInfoBufTX.Buffer
    {
      && Rings()
      && Abs().Inv()
    }

    ghost predicate Rings()
      reads BufferTX, BufferTX.Buffer, BlockInfoBufTX, BlockInfoBufTX.Buffer
    {
      && BufferTX as object != BlockInfoBufTX
      && BufferTX.Buffer as object != BlockInfoBufTX.Buffer
      && BufferTX.Valid() && BufferTX.g.variant.MaskBits?
      && BlockInfoBufTX.Valid() && BlockInfoBufTX.g.variant.MaskBits?
    }

    ghost function Abs(): State
      reads this`pCurByteInBlock, this`LastSentIsBlock, this`Owed, this`Items, this`Log
      reads BufferTX`Queue, BlockInfoBufTX`Queue
    {
      State(ESC_code, BufferTX.Queue, BlockInfoBufTX.Queue, pCurByteInBlock, LastSentIsBlock, Owed, Items, Log)
    }

    ghost function FreeBytes(): int
      reads BufferTX`Queue
    {
      BufferTX.g.size - 1 - |BufferTX.Queue|
    }

    ghost function FreeBlocks(): int
      reads BlockInfoBufTX`Queue
    {
      BlockInfoBufTX.g.size - 1 - |BlockInfoBufTX.Queue|
    }

    /** The static rings of the class, freshly constructed. */
    constructor (esc: byte, tx: CircBuffer<byte>, blocks: CircBuffer<BlockInfo>)
      requires tx as object != blocks && tx.Buffer as object != blocks.Buffer
      requires tx.Valid() && tx.g.variant.MaskBits? && tx.Queue == []
      requires blocks.Valid() && blocks.g.variant.MaskBits? && blocks.Queue == []
      ensures Valid() && Abs() == Initial(esc) && BufferTX == tx && BlockInfoBufTX == blocks
      ensures Tallies()
    {
      ESC_code := esc;
      BufferTX := tx;
      BlockInfoBufTX := blocks;
      pCurByteInBlock, LastSentIsBlock, Owed := None, false, false;
      RunningCS, BytesTransmitted := 0, 0;
      Items, Log := [], [];
      NothingCounted(esc);
    }

    /** BytesTransmitted and RunningCS, against the line they are meant to describe. */
    lemma CountersMatchIff()
      requires Tallies()
      ensures BytesTransmitted == |OnLine(Events(Items))| % 0x10000 <==> Literals(ESC_code, Items) % 0x10000 == 0
      ensures RunningCS == Sum(OnLine(Events(Items))) <==> LiteralTotal(ESC_code, Items) % 256 == 0
    {
      CountMatchesIff(ESC_code, Items);
      ChecksumMatchesIff(ESC_code, Items);
    }

    // ---------------------------------------------------------------- the consumers

    /** After the last byte of a block: run its callback and give its entry back. */
    method FinishBlock()
      requires Rings() && BlockInfoBufTX.Queue != []
      modifies this`pCurByteInBlock, this`LastSentIsBlock, this`Log
      modifies BlockInfoBufTX`BeingRead, BlockInfoBufTX`Queue
      ensures Rings() && Abs() == Finish(old(Abs()))
      ensures match old(BlockInfoBufTX.Queue)[0].pReleaseFunc
              case None => Log == old(Log)
              case Some(f) => Log == old(Log) + [Release(f)]
    {
      var pCurBlock := BlockInfoBufTX.GetSlotToRead();
      Log := Log + Releases(pCurBlock.pReleaseFunc);
      BlockInfoBufTX.FinishedReading();
      pCurByteInBlock, LastSentIsBlock := None, false;
    }

    /** GetByteToSend from the point where no block is being read. */
    method TakeByte() returns (ok: bool, p: byte)
      requires Rings() && Abs().Shape() && Abs().InProgress() == 0
      modifies this`pCurByteInBlock, this`Log, BufferTX`BeingRead
      modifies BufferTX`Queue, BlockInfoBufTX`BeingRead, BlockInfoBufTX`Queue
      ensures Rings() && (Abs(), if ok then Some(p) else None) == NextByte(old(Abs()))
    {
      var n := BufferTX.LeftToRead();
      if n == 0 {
        return false, 0;
      }
      var b := BufferTX.Read_();
      if b != ESC_code {
        p := b;
      } else {
        var pCurBlock := BlockInfoBufTX.GetSlotToRead();
        if pCurBlock.Size == 0 {
          BlockInfoBufTX.FinishedReading();
          p := ESC_code;
        } else {
          pCurByteInBlock := Some(0);
          p := pCurBlock.Ptr[0];
        }
      }
      Log := Log + [Byte(p)];
      ok := true;
    }

    /** The part of GetByteToSend that runs while a block is being read. */
    method ContinueBlock() returns (more: bool, p: byte)
      requires Rings() && Abs().Shape() && pCurByteInBlock.Some?
      modifies this`pCurByteInBlock, this`LastSentIsBlock, this`Log
      modifies BlockInfoBufTX`BeingRead, BlockInfoBufTX`Queue
      ensures Rings() && more == (old(pCurByteInBlock).value + 1 != old(Abs()).b[0].Size)
      ensures if more then (Abs(), Some(p)) == GetByte(old(Abs())) else Abs() == Finish(old(Abs()))
    {
      var pCurBlock := BlockInfoBufTX.GetSlotToRead();
      var next := pCurByteInBlock.value + 1;
      if next == pCurBlock.Size {
        FinishBlock();
        return false, 0;
      }
      pCurByteInBlock := Some(next);
      p := pCurBlock.Ptr[next];
      Log := Log + [Byte(p)];
      more := true;
    }

    method GetByteToSend() returns (ok: bool, p: byte)
      requires Valid() && !LastSentIsBlock
      modifies this`pCurByteInBlock, this`LastSentIsBlock, this`Log
      modifies BufferTX`BeingRead, BufferTX`Queue, BlockInfoBufTX`BeingRead, BlockInfoBufTX`Queue
      ensures Valid() && (Abs(), if ok then Some(p) else None) == GetByte(old(Abs()))
    {
      ghost var s := Abs();
      GetByteKeeps(s);
      if pCurByteInBlock.Some? {
        ok, p := ContinueBlock();
        if ok {
          return;
        }
        FinishKeeps(s);
      }
      ok, p := TakeByte();
    }

    /** What GetBlockToSend does with a marker: the entry is a literal byte, or a block. */
    method TakeEntry() returns (p: seq<byte>)
      requires Rings() && BlockInfoBufTX.Queue != [] && BlockInfoBufTX.Queue[0].Live()
      modifies this`LastSentIsBlock, BlockInfoBufTX`BeingRead, BlockInfoBufTX`Queue
      ensures Rings()
      ensures var e := old(BlockInfoBufTX.Queue)[0];
              if e.Size == 0
              then
                && p == [ESC_code] && BlockInfoBufTX.Queue == old(BlockInfoBufTX.Queue)[1..]
                && LastSentIsBlock == old(LastSentIsBlock)
              else p == e.Ptr && BlockInfoBufTX.Queue == old(BlockInfoBufTX.Queue) && LastSentIsBlock
    {
      var pCurBlock := BlockInfoBufTX.GetSlotToRead();
      if pCurBlock.Size == 0 {
        p := [ESC_code];
        BlockInfoBufTX.FinishedReading();
      } else {
        p := pCurBlock.Ptr;
        LastSentIsBlock := true;
      }
    }

    /** GetBlockToSend after the previous block, if any, was finished. */
    method TakeBlock() returns (ok: bool, p: seq<byte>)
      requires Rings() && Abs().Shape() && Abs().InProgress() == 0
      modifies this`LastSentIsBlock, this`Log, BufferTX`BeingRead
      modifies BufferTX`Queue, BlockInfoBufTX`BeingRead, BlockInfoBufTX`Queue
      ensures Rings() && (Abs(), if ok then Some(p) else None) == NextBlock(old(Abs()))
    {
      var n := BufferTX.LeftToRead();
      if n == 0 {
        return false, [];
      }
      var b := BufferTX.Read_();
      p := [b];
      if b == ESC_code {
        var queued := BlockInfoBufTX.LeftToRead();
        assert queued != 0; // AVP_ASSERT: a marker always finds its block
        p := TakeEntry();
      }
      OneByte(b);
      Log := Log + Bytes(p);
      ok := true;
    }

    method GetBlockToSend() returns (ok: bool, p: seq<byte>)
      requires Valid() && pCurByteInBlock.None?
      modifies this`pCurByteInBlock, this`LastSentIsBlock, this`Log
      modifies BufferTX`BeingRead, BufferTX`Queue, BlockInfoBufTX`BeingRead, BlockInfoBufTX`Queue
      ensures Valid() && (Abs(), if ok then Some(p) else None) == GetBlock(old(Abs()))
    {
      ghost var s := Abs();
      GetBlockKeeps(s);
      if LastSentIsBlock {
        FinishKeeps(s);
        FinishBlock();
      }
      ok, p := TakeBlock();
    }

    // ---------------------------------------------------------------- the writers

    /** The update of the block ring; a literal leaves the slot's old address and callback in place. */
    method StoreBlock(data: seq<byte>, pReleaseFunc: Option<Callback>) returns (ghost e: BlockInfo)
      requires Rings() && FreeBlocks() > 0
      modifies this`Owed, BlockInfoBufTX`BeingWritten, BlockInfoBufTX`History
      modifies BlockInfoBufTX`Queue, BlockInfoBufTX.Buffer
      ensures Rings() && Abs() == PutBlock(old(Abs()), e)
      ensures e.Live() && e.Data() == data && EntryItem(ESC_code, e) == ItemOf(data, pReleaseFunc)
      ensures data == [] ==> e == old(BlockInfoBufTX.Buffer[BlockInfoBufTX.BeingWritten]).(Size := 0)
    {
      var pCurBlock := BlockInfoBufTX.Buffer[BlockInfoBufTX.BeingWritten].(Size := |data|);
      if pCurBlock.Size != 0 {
        pCurBlock := pCurBlock.(Ptr := data, pReleaseFunc := pReleaseFunc);
      }
      BlockInfoBufTX.FillSlot(pCurBlock);
      BlockInfoBufTX.FinishedWriting();
      Owed := true;
      e := pCurBlock;
    }

    /** The update of the byte ring. */
    method StoreMarker()
      requires Rings() && FreeBytes() > 0 && BlockInfoBufTX.Queue != []
      modifies this`Owed, this`Items
      modifies BufferTX`BeingWritten, BufferTX`History, BufferTX`Queue, BufferTX.Buffer
      ensures Rings() && Abs() == PutMarker(old(Abs()))
    {
      BufferTX.Write_(ESC_code);
      Items := Items + [EntryItem(ESC_code, BlockInfoBufTX.Queue[|BlockInfoBufTX.Queue| - 1])];
      Owed := false;
    }

    ghost function ItemOf(data: seq<byte>, f: Option<Callback>): Item { EntryFor(ESC_code, data, f) }

    method Count(data: seq<byte>)
      modifies this`RunningCS, this`BytesTransmitted
      ensures Tallied() == old(Tallied()).Add(data)
    {
      var cs := SumLoop(data);
      RunningCS := (RunningCS + cs) % 256;
      BytesTransmitted := (BytesTransmitted + |data|) % 0x10000;
    }

    /** Count, for an item that was accepted after the others. */
    method CountItem(data: seq<byte>, ghost items: seq<Item>, ghost x: Item)
      requires Valid() && CountedItem(ESC_code, x) == data
      modifies this`RunningCS, this`BytesTransmitted
      ensures Valid() && Abs() == old(Abs())
      ensures Tallied() == old(Tallied()).Add(data)
      ensures old(Tallied()) == TallyOf(ESC_code, items) ==> Tallied() == TallyOf(ESC_code, items + [x])
    {
      ghost var t := Tallied();
      Count(data);
      TallyFollows(ESC_code, items, x, t, Tallied());
    }

    ghost function Tallied(): Tally
      reads this`RunningCS, this`BytesTransmitted
    {
      Tally(RunningCS, BytesTransmitted)
    }

    /** Both counters are those of everything accepted since construction. */
    ghost predicate Tallies()
      reads this`RunningCS, this`BytesTransmitted, this`Items
    {
      Tallied() == TallyOf(ESC_code, Items)
    }

    /** Both ring updates, with nothing in between. */
    method StoreEntry(data: seq<byte>, pReleaseFunc: Option<Callback>) returns (ghost e: BlockInfo)
      requires Rings() && FreeBlocks() > 0 && FreeBytes() > 0
      modifies this`Owed, this`Items
      modifies BufferTX`BeingWritten, BufferTX`History, BufferTX`Queue, BufferTX.Buffer
      modifies BlockInfoBufTX`BeingWritten, BlockInfoBufTX`History, BlockInfoBufTX`Queue, BlockInfoBufTX.Buffer
      ensures Rings() && Abs() == PutEntry(old(Abs()), e)
      ensures e.Live() && EntryItem(ESC_code, e) == ItemOf(data, pReleaseFunc)
    {
      e := StoreBlock(data, pReleaseFunc);
      StoreMarker();
    }

    method AddEntry(data: seq<byte>, pReleaseFunc: Option<Callback>) returns (ghost e: BlockInfo)
      requires Valid() && !Owed && FreeBlocks() > 0 && FreeBytes() > 0
      modifies this`Owed, this`Items
      modifies BufferTX`BeingWritten, BufferTX`History, BufferTX`Queue, BufferTX.Buffer
      modifies BlockInfoBufTX`BeingWritten, BlockInfoBufTX`History, BlockInfoBufTX`Queue, BlockInfoBufTX.Buffer
      ensures Valid() && Abs() == PutEntry(old(Abs()), e)
      ensures EntryItem(ESC_code, e) == ItemOf(data, pReleaseFunc) && Items == old(Items) + [ItemOf(data, pReleaseFunc)]
    {
      ghost var s := Abs();
      e := StoreEntry(data, pReleaseFunc);
      PutEntryKeeps(s, e);
      EntryPromised(s, e);
    }

    method AddCounted(data: seq<byte>, pReleaseFunc: Option<Callback>) returns (ghost e: BlockInfo)
      requires Valid() && !Owed && FreeBlocks() > 0 && FreeBytes() > 0
      modifies this`Owed, this`Items, this`RunningCS, this`BytesTransmitted
      modifies BufferTX`BeingWritten, BufferTX`History, BufferTX`Queue, BufferTX.Buffer
      modifies BlockInfoBufTX`BeingWritten, BlockInfoBufTX`History, BlockInfoBufTX`Queue, BlockInfoBufTX.Buffer
      ensures Valid() && Abs() == PutEntry(old(Abs()), e)
      ensures EntryItem(ESC_code, e) == ItemOf(data, pReleaseFunc)
      ensures Tallied() == old(Tallied()).Add(data) && (old(Tallies()) ==> Tallies())
    {
      ghost var items := Items;
      e := AddEntry(data, pReleaseFunc);
      CountItem(data, items, ItemOf(data, pReleaseFunc));
    }

    /** Without a check of the byte ring; an empty block stands for a literal ESC_code byte. */
    method write_unbuffered_(data: seq<byte>, pReleaseFunc: Option<Callback>) returns (ok: bool, ghost e: BlockInfo)
      requires Valid() && !Owed && FreeBytes() > 0
      modifies this`Owed, this`Items, this`RunningCS, this`BytesTransmitted
      modifies BufferTX`BeingWritten, BufferTX`History, BufferTX`Queue, BufferTX.Buffer
      modifies BlockInfoBufTX`BeingWritten, BlockInfoBufTX`History, BlockInfoBufTX`Queue, BlockInfoBufTX.Buffer
      ensures Valid() && ok == (old(FreeBlocks()) > 0)
      ensures !ok ==> Abs() == old(Abs()) && Tallied() == old(Tallied())
      ensures ok ==> EntryItem(ESC_code, e) == ItemOf(data, pReleaseFunc) && Abs() == PutEntry(old(Abs()), e)
      ensures ok ==> Tallied() == old(Tallied()).Add(data)
      ensures old(Tallies()) ==> Tallies()
    {
      var n := BlockInfoBufTX.LeftToWrite();
      if n == 0 {
        e := BlockInfo([], 0, None);
        return false, e;
      }
      e := AddCounted(data, pReleaseFunc);
      ok := true;
    }

    method StoreByte(d: byte)
      requires Rings() && FreeBytes() > 0
      modifies this`Items, BufferTX`BeingWritten, BufferTX`History, BufferTX`Queue, BufferTX.Buffer
      ensures Rings() && Abs() == PutByte(old(Abs()), d)
    {
      BufferTX.Write_(d);
      Items := Items + [Single(d)];
    }

    method AddByte(d: byte)
      requires Valid() && !Owed && FreeBytes() > 0 && d != ESC_code
      modifies this`Items, BufferTX`BeingWritten, BufferTX`History, BufferTX`Queue, BufferTX.Buffer
      ensures Valid() && Accepted(old(Abs()), Abs(), [d]) && Items == old(Items) + [Single(d)]
    {
      PutByteKeeps(Abs(), d);
      ByteAccepted(Abs(), d);
      StoreByte(d);
    }

    /** A literal ESC_code byte. */
    method AddLiteral() returns (ok: bool)
      requires Valid() && !Owed && FreeBytes() > 0
      modifies this`Owed, this`Items, this`RunningCS, this`BytesTransmitted
      modifies BufferTX`BeingWritten, BufferTX`History, BufferTX`Queue, BufferTX.Buffer
      modifies BlockInfoBufTX`BeingWritten, BlockInfoBufTX`History, BlockInfoBufTX`Queue, BlockInfoBufTX.Buffer
      ensures Valid() && ok == (old(FreeBlocks()) > 0)
      ensures ok ==> Accepted(old(Abs()), Abs(), [ESC_code]) && Tallied() == old(Tallied()).Add([])
      ensures !ok ==> Abs() == old(Abs()) && Tallied() == old(Tallied())
      ensures old(Tallies()) ==> Tallies()
    {
      ghost var s, e := Abs(), BlockInfo([], 0, None);
      ok, e := write_unbuffered_([], None);
      if ok {
        LiteralAccepted(s, e);
      }
    }

    method write_byte_(d: byte) returns (ok: bool)
      requires Valid() && !Owed && FreeBytes() > 0
      modifies this`Owed, this`Items, this`RunningCS, this`BytesTransmitted
      modifies BufferTX`BeingWritten, BufferTX`History, BufferTX`Queue, BufferTX.Buffer
      modifies BlockInfoBufTX`BeingWritten, BlockInfoBufTX`History, BlockInfoBufTX`Queue, BlockInfoBufTX.Buffer
      ensures Valid() && ok == (d != ESC_code || old(FreeBlocks()) > 0)
      ensures ok ==> Accepted(old(Abs()), Abs(), [d])
      ensures !ok ==> Abs() == old(Abs())
      ensures ok ==> Tallied() == old(Tallied()).Add(CountedItem(ESC_code, Single(d)))
      ensures !ok ==> Tallied() == old(Tallied())
      ensures old(Tallies()) ==> Tallies()
    {
      if d == ESC_code {
        ok := AddLiteral();
        return;
      }
      ghost var items := Items;
      AddByte(d);
      CountItem([d], items, Single(d));
      ok := true;
    }

    method write_byte(d: byte) returns (ok: bool)
      requires Valid() && !Owed
      modifies this`Owed, this`Items, this`RunningCS, this`BytesTransmitted
      modifies BufferTX`BeingWritten, BufferTX`History, BufferTX`Queue, BufferTX.Buffer
      modifies BlockInfoBufTX`BeingWritten, BlockInfoBufTX`History, BlockInfoBufTX`Queue, BlockInfoBufTX.Buffer
      ensures Valid() && ok == (old(FreeBytes()) > 0 && (d != ESC_code || old(FreeBlocks()) > 0))
      ensures old(Tallies()) ==> Tallies()
      ensures ok ==> Accepted(old(Abs()), Abs(), [d])
      ensures !ok ==> Abs() == old(Abs())
    {
      var n := BufferTX.LeftToWrite();
      if n == 0 {
        return false;
      }
      ok := write_byte_(d);
    }

    /** The unbuffered write with its check of the byte ring. */
    method write_unbuffered(data: seq<byte>, pReleaseFunc: Option<Callback>) returns (ok: bool)
      requires Valid() && !Owed
      modifies this`Owed, this`Items, this`RunningCS, this`BytesTransmitted
      modifies BufferTX`BeingWritten, BufferTX`History, BufferTX`Queue, BufferTX.Buffer
      modifies BlockInfoBufTX`BeingWritten, BlockInfoBufTX`History, BlockInfoBufTX`Queue, BlockInfoBufTX.Buffer
      ensures Valid() && !Owed && Log == old(Log)
      ensures ok == (data == [] || (old(FreeBytes()) > 0 && old(FreeBlocks()) > 0))
      ensures Items == old(Items) + if ok && data != [] then [Block(data, pReleaseFunc)] else []
      ensures ok && data != [] ==> FreeBytes() == old(FreeBytes()) - 1 && FreeBlocks() == old(FreeBlocks()) - 1
      ensures data == [] || !ok ==> Abs() == old(Abs())
      ensures old(Tallies()) ==> Tallies()
    {
      if data == [] {
        return true;
      }
      var n := BufferTX.LeftToWrite();
      if n == 0 {
        return false;
      }
      ghost var e;
      ok, e := write_unbuffered_(data, pReleaseFunc);
    }

    /** One turn of the loop below. */
    method WriteNext(data: seq<byte>, i: nat, ghost s0: State) returns (ok: bool)
      requires Valid() && !Owed && i < |data| && |data| - i <= FreeBytes() && Accepted(s0, Abs(), data[..i])
      modifies this`Owed, this`Items, this`RunningCS, this`BytesTransmitted
      modifies BufferTX`BeingWritten, BufferTX`History, BufferTX`Queue, BufferTX.Buffer
      modifies BlockInfoBufTX`BeingWritten, BlockInfoBufTX`History, BlockInfoBufTX`Queue, BlockInfoBufTX.Buffer
      ensures Valid() && Accepted(s0, Abs(), data[..if ok then i + 1 else i])
      ensures !ok ==> data[i] == ESC_code && FreeBlocks() == 0
      ensures old(Tallies()) ==> Tallies()
    {
      ghost var s := Abs();
      ok := write_byte_(data[i]);
      if ok {
        AcceptedNext(s0, s, Abs(), data, i);
      }
    }

    /** The loop of write: it stops at the first literal ESC_code that finds no block slot. */
    method WriteBytes(data: seq<byte>) returns (ok: bool, ghost k: nat)
      requires Valid() && !Owed && |data| <= FreeBytes()
      modifies this`Owed, this`Items, this`RunningCS, this`BytesTransmitted
      modifies BufferTX`BeingWritten, BufferTX`History, BufferTX`Queue, BufferTX.Buffer
      modifies BlockInfoBufTX`BeingWritten, BlockInfoBufTX`History, BlockInfoBufTX`Queue, BlockInfoBufTX.Buffer
      ensures Valid() && k <= |data| && Accepted(old(Abs()), Abs(), data[..k])
      ensures ok ==> k == |data|
      ensures !ok ==> k < |data| && data[k] == ESC_code && FreeBlocks() == 0
      ensures old(Tallies()) ==> Tallies()
    {
      k := 0;
      ghost var s0 := Abs();
      NothingAccepted(s0);
      var i := 0;
      while i < |data|
        invariant Valid() && i == k <= |data| && |data| - i <= FreeBytes()
        invariant Accepted(s0, Abs(), data[..i])
        invariant old(Tallies()) ==> Tallies()
      {
        var sent := WriteNext(data, i, s0);
        if !sent {
          return false, k;
        }
        i, k := i + 1, k + 1;
      }
      ok := true;
    }

    /**
     The buffered write. All of it fits or none is tried, except that a literal ESC_code also
     needs a block slot: then what precedes the one without a slot has been accepted.
     */
    method write(data: seq<byte>) returns (ok: bool, ghost k: nat)
      requires Valid() && !Owed
      modifies this`Owed, this`Items, this`RunningCS, this`BytesTransmitted
      modifies BufferTX`BeingWritten, BufferTX`History, BufferTX`Queue, BufferTX.Buffer
      modifies BlockInfoBufTX`BeingWritten, BlockInfoBufTX`History, BlockInfoBufTX`Queue, BlockInfoBufTX.Buffer
      ensures Valid() && k <= |data| && Accepted(old(Abs()), Abs(), data[..k])
      ensures old(Tallies()) ==> Tallies()
      ensures ok <==> |data| <= old(FreeBytes()) && Markers(ESC_code, data) <= old(FreeBlocks())
      ensures ok ==> k == |data|
      ensures !ok && |data| > old(FreeBytes()) ==> k == 0
      ensures !ok && |data| <= old(FreeBytes()) ==>
                k < |data| && data[k] == ESC_code && Markers(ESC_code, data[..k]) == old(FreeBlocks())
    {
      k := 0;
      ok := true;
      if |data| > 0 {
        var n := BufferTX.LeftToWrite();
        if |data| > n {
          ok := false;
        } else {
          ok, k := WriteBytes(data);
          MarkersFrom(ESC_code, data, k);
          return;
        }
      }
      NothingAccepted(Abs());
    }
  }

  lemma NothingCounted(esc: byte)
    ensures TallyOf(esc, []) == Tally(0, 0)
  {
  }

  lemma EntryPromised(s: State, e: BlockInfo)
    ensures PutEntry(s, e).items == s.items + [EntryItem(s.esc, e)]
  {
  }

  /** What an entry for `data` stands for. */
  function EntryFor(esc: byte, data: seq<byte>, f: Option<Callback>): Item {
    if data == [] then Single(esc) else Block(data, f)
  }

  function Singles(data: seq<byte>): seq<Item> { seq(|data|, i requires 0 <= i < |data| => Single(data[i])) }

  /** `data` was promised, one cell of the byte ring each and a block slot for each literal `esc`. */
  ghost predicate Accepted(s: State, t: State, data: seq<byte>) {
    && t.items == s.items + Singles(data)
    && t.log == s.log && !t.owed && t.cur == s.cur && t.sent == s.sent && t.esc == s.esc
    && |t.q| == |s.q| + |data|
    && |t.b| == |s.b| + Markers(s.esc, data)
  }

  lemma ByteAccepted(s: State, d: byte)
    requires d != s.esc && !s.owed
    ensures Accepted(s, PutByte(s, d), [d])
  {
    assert [d][1..] == [];
    assert Singles([d]) == [Single(d)];
  }

  lemma LiteralAccepted(s: State, e: BlockInfo)
    requires EntryItem(s.esc, e) == Single(s.esc)
    ensures Accepted(s, PutEntry(s, e), [s.esc])
  {
    assert [s.esc][1..] == [];
    assert Singles([s.esc]) == [Single(s.esc)];
  }

  lemma NothingAccepted(s: State)
    requires !s.owed
    ensures Accepted(s, s, [])
  {
    assert Singles([]) == [];
  }

  lemma AcceptedMore(s: State, t: State, u: State, data: seq<byte>, d: byte)
    requires Accepted(s, t, data) && Accepted(t, u, [d])
    ensures Accepted(s, u, data + [d])
  {
    MarkersAppend(s.esc, data, d);
    MarkersAppend(s.esc, [], d);
    assert [] + [d] == [d];
    assert Singles(data + [d]) == Singles(data) + Singles([d]);
  }

  lemma AcceptedNext(s: State, t: State, u: State, data: seq<byte>, i: nat)
    requires i < |data| && Accepted(s, t, data[..i]) && Accepted(t, u, [data[i]])
    ensures Accepted(s, u, data[..i + 1])
  {
    AcceptedMore(s, t, u, data[..i], data[i]);
    assert data[..i] + [data[i]] == data[..i + 1];
  }

  lemma {:induction false} MarkersSplit(esc: byte, p: seq<byte>, q: seq<byte>)
    ensures Markers(esc, p + q) == Markers(esc, p) + Markers(esc, q)
  {
    if p == [] {
      assert p + q == q;
    } else {
      assert (p + q)[1..] == p[1..] + q;
      MarkersSplit(esc, p[1..], q);
    }
  }

  lemma MarkersFrom(esc: byte, data: seq<byte>, k: nat)
    requires k <= |data|
    ensures Markers(esc, data) >= Markers(esc, data[..k]) + (if k < |data| && data[k] == esc then 1 else 0)
    ensures k == |data| ==> Markers(esc, data) == Markers(esc, data[..k])
  {
    MarkersSplit(esc, data[..k], data[k..]);
    assert data[..k] + data[k..] == data;
  }
}
