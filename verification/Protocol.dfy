/**
 Protocol.hpp: the sending functions, over a port. Each is one stretch of code without the
 transmit interrupt in between; an interrupt only adds room in the rings.
 */
module Protocols {
  import opened Words
  import opened Checksum
  import opened PortSpec
  import opened Ports
  import opened ProtocolItems
  import Framing

  class Protocol {
    const port: Port

    constructor (port: Port)
      ensures this.port == port
    {
      this.port := port;
    }

    ghost predicate Ready()
      reads port, port.BufferTX, port.BufferTX.Buffer, port.BlockInfoBufTX, port.BlockInfoBufTX.Buffer
    {
      port.Valid() && !port.Owed && port.Tallies()
    }

    ghost function Now(): Room
      reads port`Items, port.BufferTX`Queue, port.BlockInfoBufTX`Queue
    {
      Room(port.Items, port.FreeBytes(), port.FreeBlocks())
    }

    ghost function Esc(): byte { port.ESC_code }

    // ---------------------------------------------------------------- the port's functions

    method PutByte(b: byte) returns (ok: bool)
      requires Ready()
      modifies port`Owed, port`Items, port`RunningCS, port`BytesTransmitted
      modifies port.BufferTX`BeingWritten, port.BufferTX`History, port.BufferTX`Queue, port.BufferTX.Buffer
      modifies port.BlockInfoBufTX`BeingWritten, port.BlockInfoBufTX`History
      modifies port.BlockInfoBufTX`Queue, port.BlockInfoBufTX.Buffer
      ensures Ready() && Promised(Esc(), old(Now()), Now(), Singles([b])) && ok == Fits(Esc(), old(Now()), Singles([b]))
    {
      ghost var s := Now();
      SlotsOfSingles(Esc(), [b]);
      MarkersAppend(Esc(), [], b);
      assert [] + [b] == [b];
      ok := port.write_byte(b);
      AcceptedIsPromised(Esc(), s, Now(), [b], if ok then [b] else []);
    }

    method PutBytes(d: seq<byte>) returns (ok: bool)
      requires Ready()
      modifies port`Owed, port`Items, port`RunningCS, port`BytesTransmitted
      modifies port.BufferTX`BeingWritten, port.BufferTX`History, port.BufferTX`Queue, port.BufferTX.Buffer
      modifies port.BlockInfoBufTX`BeingWritten, port.BlockInfoBufTX`History
      modifies port.BlockInfoBufTX`Queue, port.BlockInfoBufTX.Buffer
      ensures Ready() && Promised(Esc(), old(Now()), Now(), Singles(d)) && ok == Fits(Esc(), old(Now()), Singles(d))
    {
      ghost var s, k := Now(), 0;
      SlotsOfSingles(Esc(), d);
      ok, k := port.write(d);
      AcceptedIsPromised(Esc(), s, Now(), d, d[..k]);
    }

    method PutBlock(p: Part) returns (ok: bool)
      requires Ready() && !p.Buffered
      modifies port`Owed, port`Items, port`RunningCS, port`BytesTransmitted
      modifies port.BufferTX`BeingWritten, port.BufferTX`History, port.BufferTX`Queue, port.BufferTX.Buffer
      modifies port.BlockInfoBufTX`BeingWritten, port.BlockInfoBufTX`History
      modifies port.BlockInfoBufTX`Queue, port.BlockInfoBufTX.Buffer
      ensures Ready() && Promised(Esc(), old(Now()), Now(), DataItems(p)) && ok == Fits(Esc(), old(Now()), DataItems(p))
    {
      ghost var s := Now();
      ok := port.write_unbuffered(p.src, p.pFunc);
      BlockIsPromised(Esc(), s, Now(), p, ok);
    }

    method Put(p: Part) returns (ok: bool)
      requires Ready()
      modifies port`Owed, port`Items, port`RunningCS, port`BytesTransmitted
      modifies port.BufferTX`BeingWritten, port.BufferTX`History, port.BufferTX`Queue, port.BufferTX.Buffer
      modifies port.BlockInfoBufTX`BeingWritten, port.BlockInfoBufTX`History
      modifies port.BlockInfoBufTX`Queue, port.BlockInfoBufTX.Buffer
      ensures Ready() && Promised(Esc(), old(Now()), Now(), DataItems(p)) && ok == Fits(Esc(), old(Now()), DataItems(p))
    {
      if p.Buffered {
        ok := PutBytes(p.src);
      } else {
        ok := PutBlock(p);
      }
    }

    // ---------------------------------------------------------------- messages

    /** A byte and some data. */
    method PutFront(code: byte, p: Part) returns (ok: bool)
      requires Ready()
      modifies port`Owed, port`Items, port`RunningCS, port`BytesTransmitted
      modifies port.BufferTX`BeingWritten, port.BufferTX`History, port.BufferTX`Queue, port.BufferTX.Buffer
      modifies port.BlockInfoBufTX`BeingWritten, port.BlockInfoBufTX`History
      modifies port.BlockInfoBufTX`Queue, port.BlockInfoBufTX.Buffer
      ensures Ready() && Promised(Esc(), old(Now()), Now(), Singles([code]) + DataItems(p))
      ensures ok == Fits(Esc(), old(Now()), Singles([code]) + DataItems(p))
    {
      ghost var s := Now();
      ok := PutByte(code);
      if ok {
        ghost var t := Now();
        ok := Put(p);
        PromisedThen(Esc(), s, t, Now(), Singles([code]), DataItems(p));
      } else {
        PromisedPart(Esc(), s, Now(), Singles([code]), DataItems(p));
      }
    }

    /** Some data and its checksum. */
    method PutEnd(p: Part, cs: byte) returns (ok: bool)
      requires Ready()
      modifies port`Owed, port`Items, port`RunningCS, port`BytesTransmitted
      modifies port.BufferTX`BeingWritten, port.BufferTX`History, port.BufferTX`Queue, port.BufferTX.Buffer
      modifies port.BlockInfoBufTX`BeingWritten, port.BlockInfoBufTX`History
      modifies port.BlockInfoBufTX`Queue, port.BlockInfoBufTX.Buffer
      ensures Ready() && Promised(Esc(), old(Now()), Now(), DataItems(p) + Singles([cs]))
      ensures ok == Fits(Esc(), old(Now()), DataItems(p) + Singles([cs]))
    {
      ghost var s := Now();
      ok := Put(p);
      if ok {
        ghost var t := Now();
        ok := PutByte(cs);
        PromisedThen(Esc(), s, t, Now(), DataItems(p), Singles([cs]));
      } else {
        PromisedPart(Esc(), s, Now(), DataItems(p), Singles([cs]));
      }
    }

    /** A byte, some data, and a byte: the form of every text block. */
    method PutFramed(code: byte, p: Part, cs: byte) returns (ok: bool)
      requires Ready()
      modifies port`Owed, port`Items, port`RunningCS, port`BytesTransmitted
      modifies port.BufferTX`BeingWritten, port.BufferTX`History, port.BufferTX`Queue, port.BufferTX.Buffer
      modifies port.BlockInfoBufTX`BeingWritten, port.BlockInfoBufTX`History
      modifies port.BlockInfoBufTX`Queue, port.BlockInfoBufTX.Buffer
      ensures Ready() && Promised(Esc(), old(Now()), Now(), Singles([code]) + DataItems(p) + Singles([cs]))
      ensures ok == Fits(Esc(), old(Now()), Singles([code]) + DataItems(p) + Singles([cs]))
    {
      ghost var s, front := Now(), Singles([code]) + DataItems(p);
      ok := PutFront(code, p);
      if ok {
        ghost var t := Now();
        ok := PutByte(cs);
        PromisedThen(Esc(), s, t, Now(), front, Singles([cs]));
      } else {
        PromisedPart(Esc(), s, Now(), front, Singles([cs]));
      }
    }

    /** One info block: size, text, checksum. */
    method info_message_(t: seq<byte>, NonVolat: bool) returns (ok: bool)
      requires Ready() && |t| <= Framing.INT8_MAX
      modifies port`Owed, port`Items, port`RunningCS, port`BytesTransmitted
      modifies port.BufferTX`BeingWritten, port.BufferTX`History, port.BufferTX`Queue, port.BufferTX.Buffer
      modifies port.BlockInfoBufTX`BeingWritten, port.BlockInfoBufTX`History
      modifies port.BlockInfoBufTX`Queue, port.BlockInfoBufTX.Buffer
      ensures Ready() && Promised(Esc(), old(Now()), Now(), InfoBlockItems(t, NonVolat))
      ensures ok == Fits(Esc(), old(Now()), InfoBlockItems(t, NonVolat))
    {
      var cs := SumLoop(t);
      ok := PutFramed(|t|, Text(t, NonVolat), cs);
    }

    /** A text of any size, in chunks of 127 bytes; it stops at the first chunk without room. */
    method info_message(t: seq<byte>, NonVolat: bool) returns (ok: bool)
      requires Ready()
      modifies port`Owed, port`Items, port`RunningCS, port`BytesTransmitted
      modifies port.BufferTX`BeingWritten, port.BufferTX`History, port.BufferTX`Queue, port.BufferTX.Buffer
      modifies port.BlockInfoBufTX`BeingWritten, port.BlockInfoBufTX`History
      modifies port.BlockInfoBufTX`Queue, port.BlockInfoBufTX.Buffer
      ensures Ready() && Promised(Esc(), old(Now()), Now(), InfoItems(t, NonVolat))
      ensures ok == Fits(Esc(), old(Now()), InfoItems(t, NonVolat))
    {
      ghost var s, done := Now(), [];
      PromisedNothing(Esc(), s);
      var Src := t;
      while |Src| > Framing.INT8_MAX
        invariant Ready() && Promised(Esc(), s, Now(), done) && Fits(Esc(), s, done)
        invariant done + InfoItems(Src, NonVolat) == InfoItems(t, NonVolat)
        decreases |Src|
      {
        ghost var now, chunk := Now(), InfoBlockItems(Src[..Framing.INT8_MAX], NonVolat);
        ghost var rest := InfoItems(Src[Framing.INT8_MAX..], NonVolat);
        var sent := info_message_(Src[..Framing.INT8_MAX], NonVolat);
        PromisedThen(Esc(), s, now, Now(), done, chunk);
        Assoc(done, chunk, rest);
        if !sent {
          PromisedPart(Esc(), s, Now(), done + chunk, rest);
          return false;
        }
        done := done + chunk;
        Src := Src[Framing.INT8_MAX..];
      }
      ghost var now := Now();
      ok := info_message_(Src, NonVolat);
      PromisedThen(Esc(), s, now, Now(), done, InfoBlockItems(Src, NonVolat));
    }

    /** A byte, some data, more data, and a byte. */
    method PutPadded(code: byte, p: Part, q: Part, cs: byte) returns (alive: bool)
      requires Ready()
      modifies port`Owed, port`Items, port`RunningCS, port`BytesTransmitted
      modifies port.BufferTX`BeingWritten, port.BufferTX`History, port.BufferTX`Queue, port.BufferTX.Buffer
      modifies port.BlockInfoBufTX`BeingWritten, port.BlockInfoBufTX`History
      modifies port.BlockInfoBufTX`Queue, port.BlockInfoBufTX.Buffer
      ensures Ready() && Promised(Esc(), old(Now()), Now(), PaddedItems(code, p, q, cs))
      ensures alive == Fits(Esc(), old(Now()), PaddedItems(code, p, q, cs))
    {
      ghost var s, front, end := Now(), Singles([code]) + DataItems(p), DataItems(q) + Singles([cs]);
      Assoc(front, DataItems(q), Singles([cs]));
      alive := PutFront(code, p);
      if alive {
        ghost var t := Now();
        alive := PutEnd(q, cs);
        PromisedThen(Esc(), s, t, Now(), front, end);
      } else {
        PromisedPart(Esc(), s, Now(), front, end);
      }
    }

    /** error_message_ of a text shorter than 3 bytes: what is read from Src and from Pad. */
    method PutShort(body: seq<byte>, pad: seq<byte>, NonVolat: bool) returns (alive: bool)
      requires Ready() && |body| <= Framing.INT8_MAX
      modifies port`Owed, port`Items, port`RunningCS, port`BytesTransmitted
      modifies port.BufferTX`BeingWritten, port.BufferTX`History, port.BufferTX`Queue, port.BufferTX.Buffer
      modifies port.BlockInfoBufTX`BeingWritten, port.BlockInfoBufTX`History
      modifies port.BlockInfoBufTX`Queue, port.BlockInfoBufTX.Buffer
      ensures Ready() && Promised(Esc(), old(Now()), Now(), ShortItems(body, pad, NonVolat))
      ensures alive == Fits(Esc(), old(Now()), ShortItems(body, pad, NonVolat))
    {
      var bodyCS := SumLoop(body);
      var padCS := SumLoop(pad);
      var code, cs := Framing.Minus(|body|), Framing.AddByte(bodyCS, padCS);
      alive := PutPadded(code, Text(body, NonVolat), Text(pad, true), cs);
    }

    method PutText(t: seq<byte>, NonVolat: bool) returns (alive: bool)
      requires Ready() && |t| <= Framing.INT8_MAX
      modifies port`Owed, port`Items, port`RunningCS, port`BytesTransmitted
      modifies port.BufferTX`BeingWritten, port.BufferTX`History, port.BufferTX`Queue, port.BufferTX.Buffer
      modifies port.BlockInfoBufTX`BeingWritten, port.BlockInfoBufTX`History
      modifies port.BlockInfoBufTX`Queue, port.BlockInfoBufTX.Buffer
      ensures Ready() && Promised(Esc(), old(Now()), Now(), TextBlockItems(t, NonVolat))
      ensures alive == Fits(Esc(), old(Now()), TextBlockItems(t, NonVolat))
    {
      var cs := SumLoop(t);
      var code := Framing.Minus(|t|);
      alive := PutFramed(code, Text(t, NonVolat), cs);
    }

    /** An error block; the program stops (`alive` is false) when there is no room for it. */
    method error_message_(t: seq<byte>, m: Framing.Beyond, NonVolat: bool) returns (alive: bool)
      requires Ready() && Framing.Readable(t, m) && |t| <= Framing.INT8_MAX
      modifies port`Owed, port`Items, port`RunningCS, port`BytesTransmitted
      modifies port.BufferTX`BeingWritten, port.BufferTX`History, port.BufferTX`Queue, port.BufferTX.Buffer
      modifies port.BlockInfoBufTX`BeingWritten, port.BlockInfoBufTX`History
      modifies port.BlockInfoBufTX`Queue, port.BlockInfoBufTX.Buffer
      ensures Ready() && Promised(Esc(), old(Now()), Now(), ErrorBlockItems(t, m, NonVolat))
      ensures alive == Fits(Esc(), old(Now()), ErrorBlockItems(t, m, NonVolat))
    {
      if |t| < Framing.NUM_ERR_CODES {
        alive := PutShort((t + m.text)[..Framing.NUM_ERR_CODES], Framing.Pads(Framing.NUM_ERR_CODES - |t|, m),
                          NonVolat);
      } else {
        alive := PutText(t, NonVolat);
      }
    }

    /**
     An error text of any size. It goes out whole exactly when all of it fits; a first block
     without room stops the program, and later ones without room are lost in silence.
     */
    method return_error_message(t: seq<byte>, m: Framing.Beyond, NonVolat: bool) returns (alive: bool)
      requires Ready() && Framing.Readable(t, m)
      modifies port`Owed, port`Items, port`RunningCS, port`BytesTransmitted
      modifies port.BufferTX`BeingWritten, port.BufferTX`History, port.BufferTX`Queue, port.BufferTX.Buffer
      modifies port.BlockInfoBufTX`BeingWritten, port.BlockInfoBufTX`History
      modifies port.BlockInfoBufTX`Queue, port.BlockInfoBufTX.Buffer
      ensures Ready() && Promised(Esc(), old(Now()), Now(), ErrorItems(t, m, NonVolat))
      ensures alive == Fits(Esc(), old(Now()),
                            if |t| > Framing.INT8_MAX then TextBlockItems(t[..Framing.INT8_MAX], NonVolat)
                            else ErrorBlockItems(t, m, NonVolat))
    {
      if |t| > Framing.INT8_MAX {
        ghost var s := Now();
        ghost var head := TextBlockItems(t[..Framing.INT8_MAX], NonVolat);
        ghost var tail := InfoItems(t[Framing.INT8_MAX..], NonVolat);
        alive := error_message_(t[..Framing.INT8_MAX], m, NonVolat);
        if alive {
          ghost var u := Now();
          var _ := info_message(t[Framing.INT8_MAX..], NonVolat);
          PromisedThen(Esc(), s, u, Now(), head, tail);
        } else {
          PromisedPart(Esc(), s, Now(), head, tail);
        }
      } else {
        alive := error_message_(t, m, NonVolat);
      }
    }

    /** The code twice; the second serves as checksum. */
    method return_error_code(Code: int) returns (ok: bool)
      requires Ready() && -128 <= Code < Framing.NUM_ERR_CODES
      modifies port`Owed, port`Items, port`RunningCS, port`BytesTransmitted
      modifies port.BufferTX`BeingWritten, port.BufferTX`History, port.BufferTX`Queue, port.BufferTX.Buffer
      modifies port.BlockInfoBufTX`BeingWritten, port.BlockInfoBufTX`History
      modifies port.BlockInfoBufTX`Queue, port.BlockInfoBufTX.Buffer
      ensures Ready() && Promised(Esc(), old(Now()), Now(), Singles(Framing.CodeBytes(Code)))
      ensures ok == Fits(Esc(), old(Now()), Singles(Framing.CodeBytes(Code)))
    {
      ghost var s, one := Now(), Singles([Framing.Minus(Code)]);
      assert Singles(Framing.CodeBytes(Code)) == one + one;
      ok := PutByte(Framing.Minus(Code));
      if ok {
        ghost var t := Now();
        ok := PutByte(Framing.Minus(Code));
        PromisedThen(Esc(), s, t, Now(), one, one);
      } else {
        PromisedPart(Esc(), s, Now(), one, one);
      }
    }

    // ---------------------------------------------------------------- replies

    /** The success code and the size. */
    method PutHeader(size: nat) returns (ok: bool)
      requires Ready() && size < 0x10000
      modifies port`Owed, port`Items, port`RunningCS, port`BytesTransmitted
      modifies port.BufferTX`BeingWritten, port.BufferTX`History, port.BufferTX`Queue, port.BufferTX.Buffer
      modifies port.BlockInfoBufTX`BeingWritten, port.BlockInfoBufTX`History
      modifies port.BlockInfoBufTX`Queue, port.BlockInfoBufTX.Buffer
      ensures Ready() && Promised(Esc(), old(Now()), Now(), HeaderItems(size))
      ensures ok == Fits(Esc(), old(Now()), HeaderItems(size))
    {
      ghost var s := Now();
      ok := PutByte(0);
      if ok {
        ghost var t := Now();
        ok := PutBytes(Framing.Word16(size));
        PromisedThen(Esc(), s, t, Now(), Singles([0]), Singles(Framing.Word16(size)));
      } else {
        PromisedPart(Esc(), s, Now(), Singles([0]), Singles(Framing.Word16(size)));
      }
    }

    /** The first pass of ReturnMultiByPtrs over its arguments. */
    method TotalBytes(parts: seq<Part>) returns (total: nat)
      ensures total == Framing.PartsSize(Datas(parts))
    {
      total := 0;
      for i := 0 to |parts|
        invariant total == Framing.PartsSize(Datas(parts[..i]))
      {
        assert Datas(parts[..i + 1])[..i] == Datas(parts[..i]);
        total := (total + |parts[i].src|) % 0x10000;
      }
      assert parts[..|parts|] == parts;
    }

    /** One turn of the second pass. */
    method PutPart(parts: seq<Part>, i: nat, sum: byte, ghost s: Room) returns (ok: bool, cs: byte)
      requires Ready() && i < |parts| && sum == SumTo(parts, i)
      requires Promised(Esc(), s, Now(), ItemsTo(parts, i)) && Fits(Esc(), s, ItemsTo(parts, i))
      modifies port`Owed, port`Items, port`RunningCS, port`BytesTransmitted
      modifies port.BufferTX`BeingWritten, port.BufferTX`History, port.BufferTX`Queue, port.BufferTX.Buffer
      modifies port.BlockInfoBufTX`BeingWritten, port.BlockInfoBufTX`History
      modifies port.BlockInfoBufTX`Queue, port.BlockInfoBufTX.Buffer
      ensures Ready() && Promised(Esc(), s, Now(), ItemsTo(parts, i + 1)) && ok == Fits(Esc(), s, ItemsTo(parts, i + 1))
      ensures cs == SumTo(parts, i + 1)
    {
      ghost var t := Now();
      ok := Put(parts[i]);
      PromisedThen(Esc(), s, t, Now(), ItemsTo(parts, i), DataItems(parts[i]));
      var partCS := SumLoop(parts[i].src);
      cs := Framing.AddByte(sum, partCS);
    }

    /** The second pass. */
    method PutParts(parts: seq<Part>) returns (ok: bool, cs: byte)
      requires Ready()
      modifies port`Owed, port`Items, port`RunningCS, port`BytesTransmitted
      modifies port.BufferTX`BeingWritten, port.BufferTX`History, port.BufferTX`Queue, port.BufferTX.Buffer
      modifies port.BlockInfoBufTX`BeingWritten, port.BlockInfoBufTX`History
      modifies port.BlockInfoBufTX`Queue, port.BlockInfoBufTX.Buffer
      ensures Ready() && Promised(Esc(), old(Now()), Now(), PartItems(parts))
      ensures ok == Fits(Esc(), old(Now()), PartItems(parts))
      ensures ok ==> cs == Framing.PartsSum(Datas(parts))
    {
      ghost var s := Now();
      PromisedNothing(Esc(), s);
      cs := 0;
      var i := 0;
      ok := true;
      while ok && i < |parts|
        invariant Ready() && i <= |parts|
        invariant Promised(Esc(), s, Now(), ItemsTo(parts, i)) && ok == Fits(Esc(), s, ItemsTo(parts, i))
        invariant cs == SumTo(parts, i)
      {
        ok, cs := PutPart(parts, i, cs, s);
        i := i + 1;
      }
      if ok {
        FirstParts(parts, i);
      } else {
        PartsStop(Esc(), s, Now(), parts, i);
      }
    }

    method ReturnMultiByPtrs(parts: seq<Part>) returns (ok: bool)
      requires Ready()
      modifies port`Owed, port`Items, port`RunningCS, port`BytesTransmitted
      modifies port.BufferTX`BeingWritten, port.BufferTX`History, port.BufferTX`Queue, port.BufferTX.Buffer
      modifies port.BlockInfoBufTX`BeingWritten, port.BlockInfoBufTX`History
      modifies port.BlockInfoBufTX`Queue, port.BlockInfoBufTX.Buffer
      ensures Ready() && Promised(Esc(), old(Now()), Now(), ReplyItems(parts))
      ensures ok == Fits(Esc(), old(Now()), ReplyItems(parts))
    {
      ghost var s := Now();
      var total_bytes := TotalBytes(parts);
      ghost var a, b, c := HeaderItems(total_bytes), PartItems(parts), Singles([Framing.PartsSum(Datas(parts))]);
      var cs := 0;
      ok := PutHeader(total_bytes);
      ghost var t := Now();
      if ok {
        ok, cs := PutParts(parts);
        PromisedThen(Esc(), s, t, Now(), a, b);
      } else {
        PromisedPart(Esc(), s, Now(), a, b);
      }
      if ok {
        t := Now();
        ok := PutByte(cs);
        PromisedThen(Esc(), s, t, Now(), a + b, c);
      } else {
        PromisedPart(Esc(), s, Now(), a + b, c);
      }
    }

    /** ReturnBytesBuffered and, with Buffered false, ReturnBytesUnbuffered. */
    method ReturnBytes(p: Part) returns (ok: bool)
      requires Ready()
      modifies port`Owed, port`Items, port`RunningCS, port`BytesTransmitted
      modifies port.BufferTX`BeingWritten, port.BufferTX`History, port.BufferTX`Queue, port.BufferTX.Buffer
      modifies port.BlockInfoBufTX`BeingWritten, port.BlockInfoBufTX`History
      modifies port.BlockInfoBufTX`Queue, port.BlockInfoBufTX.Buffer
      ensures Ready() && Promised(Esc(), old(Now()), Now(), ReplyItems([p]))
      ensures ok == Fits(Esc(), old(Now()), ReplyItems([p]))
    {
      OnePart(p);
      ghost var s, front, end := Now(), HeaderItems(|p.src| % 0x10000), DataItems(p) + Singles([Sum(p.src)]);
      Assoc(front, DataItems(p), Singles([Sum(p.src)]));
      ok := PutHeader(|p.src| % 0x10000);
      if ok {
        var cs := SumLoop(p.src);
        ghost var t := Now();
        ok := PutEnd(p, cs);
        PromisedThen(Esc(), s, t, Now(), front, end);
      } else {
        PromisedPart(Esc(), s, Now(), front, end);
      }
    }

    /** Four zeros, which are an empty reply; without room for them the program stops. */
    method ReturnOK() returns (alive: bool)
      requires Ready()
      modifies port`Owed, port`Items, port`RunningCS, port`BytesTransmitted
      modifies port.BufferTX`BeingWritten, port.BufferTX`History, port.BufferTX`Queue, port.BufferTX.Buffer
      modifies port.BlockInfoBufTX`BeingWritten, port.BlockInfoBufTX`History
      modifies port.BlockInfoBufTX`Queue, port.BlockInfoBufTX.Buffer
      ensures Ready() && Promised(Esc(), old(Now()), Now(), Singles(Framing.ReplyBytes([])))
      ensures alive == Fits(Esc(), old(Now()), Singles(Framing.ReplyBytes([])))
    {
      FourZeros();
      alive := PutBytes([0, 0, 0, 0]);
    }
  }

  lemma FourZeros()
    ensures Framing.ReplyBytes([]) == [0, 0, 0, 0]
  {
  }

  lemma BlockIsPromised(esc: byte, s: Room, t: Room, p: Part, ok: bool)
    requires !p.Buffered && ok == (p.src == [] || (s.bytes > 0 && s.blocks > 0))
    requires t.items == s.items + if ok && p.src != [] then [Block(p.src, p.pFunc)] else []
    requires if ok && p.src != [] then t.bytes == s.bytes - 1 && t.blocks == s.blocks - 1
             else t.bytes == s.bytes && t.blocks == s.blocks
    requires s.bytes >= 0 && s.blocks >= 0
    ensures Promised(esc, s, t, DataItems(p)) && ok == Fits(esc, s, DataItems(p))
  {
    if p.src != [] {
      SlotsOfBlock(esc, p);
    }
    assert Gained(esc, s, t, if ok then DataItems(p) else []);
  }

  /** What the port accepted, as a promise. */
  lemma AcceptedIsPromised(esc: byte, s: Room, t: Room, d: seq<byte>, got: seq<byte>)
    requires got <= d && t.items == s.items + Singles(got)
    requires t.bytes == s.bytes - |got| && t.blocks == s.blocks - Markers(esc, got)
    requires |d| <= s.bytes && Markers(esc, d) <= s.blocks ==> got == d
    ensures Promised(esc, s, t, Singles(d))
  {
    SlotsOfSingles(esc, d);
    SlotsOfSingles(esc, got);
    assert Gained(esc, s, t, Singles(got));
    assert Singles(got) <= Singles(d);
  }
}
