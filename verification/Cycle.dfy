/**
 Protocol.hpp: `cycle` for one received byte, over the parser and the port.
 */
module Cycles {
  import opened Options
  import opened Words
  import opened ParserSpec
  import opened CommandChains
  import opened CommandLists
  import opened CycleSpec
  import opened ProtocolItems
  import opened Protocols
  import PortCounters
  import PortSpec
  import Ports
  import Framing

  const NOTHING := Framing.Beyond([], 0)

  /** What a handler does: the writes it makes, buffered or not, and the raw bytes it asks for. */
  datatype Program = Program(parts: seq<Part>, raw: nat)

  type Programs = Call -> Program

  /** What of it shows on the line. */
  function Seen(h: Programs): Handlers {
    (call: Call) => Reaction(Framing.Flat(Datas(h(call).parts)), h(call).raw)
  }

  /** The answer to a byte, as asked of the port. */
  function AnswerItems(h: Programs, r: ParseError, call: Option<Call>): seq<PortSpec.Item> {
    match r
    case NOOP => Ports.Singles(Framing.ReplyBytes([]))
    case NO_ERROR => if call.Some? then PartItems(h(call.value).parts) else []
    case BAD_CHECKSUM => Ports.Singles(Framing.CodeBytes(1))
    case _ => TextBlockItems(ErrorText(r), true)
  }

  lemma AnswerLine(h: Programs, r: ParseError, call: Option<Call>)
    ensures PortCounters.Line(AnswerItems(h, r, call)) == Answer(Seen(h), r, call)
  {
    match r
    case NOOP => LineOfSingles(Framing.ReplyBytes([]));
    case NO_ERROR => if call.Some? { PartsLine(h(call.value).parts); }
    case BAD_CHECKSUM => LineOfSingles(Framing.CodeBytes(1));
    case _ => TextBlockLine(ErrorText(r), true);
  }

  class Endpoint {
    const parser: CommandChain
    const proto: Protocol
    var BytesLeftToRead: nat
    /** The raw bytes stored through DestPtr. */
    var Stored: seq<byte>

    constructor (parser: CommandChain, proto: Protocol)
      requires parser.Valid() && proto.Ready() && parser.InputBytes != proto.port.BufferTX.Buffer
      ensures Valid() && this.parser == parser && this.proto == proto && BytesLeftToRead == 0 && Stored == []
    {
      this.parser, this.proto := parser, proto;
      BytesLeftToRead, Stored := 0, [];
    }

    ghost predicate Valid()
      reads this, parser, parser.list, parser.list.Spine, parser.InputBytes
      reads proto.port, proto.port.BufferTX, proto.port.BufferTX.Buffer
      reads proto.port.BlockInfoBufTX, proto.port.BlockInfoBufTX.Buffer
    {
      parser.Valid() && proto.Ready() && parser.InputBytes != proto.port.BufferTX.Buffer
    }

    ghost function Abs(): Device
      reads this, parser, parser.list, parser.InputBytes, proto.port`Items
      requires parser.pInputByte <= parser.InputBytes.Length
    {
      Device(parser.Abs(), BytesLeftToRead, Stored, PortCounters.Line(proto.port.Items))
    }

    twostate lemma PortKept()
      requires old(proto.Ready())
      requires unchanged(proto.port, proto.port.BufferTX, proto.port.BufferTX.Buffer)
      requires unchanged(proto.port.BlockInfoBufTX, proto.port.BlockInfoBufTX.Buffer)
      ensures proto.Ready() && proto.Now() == old(proto.Now())
    {
    }

    twostate lemma ParserKept()
      requires old(parser.Valid())
      requires unchanged(parser, parser.InputBytes, parser.list, old(parser.list.Spine))
      ensures parser.Valid() && parser.Abs() == old(parser.Abs())
    {
    }

    /** Links are none of the port's objects. */
    lemma Apart()
      ensures forall l: Link :: l in parser.list.Spine ==>
                && l as object != proto.port
                && l as object != proto.port.BufferTX && l as object != proto.port.BlockInfoBufTX
                && l as object != proto.port.BufferTX.Buffer && l as object != proto.port.BlockInfoBufTX.Buffer
    {
    }

    /** ParseByte with the handler's request for raw bytes, and the flush after an error. */
    method Parse(h: Programs, NewByte: byte) returns (r: ParseError, call: Option<Call>)
      requires parser.Valid()
      modifies this`BytesLeftToRead, parser, parser.InputBytes, parser.list, parser.list.Spine
      ensures parser.Valid() && Parsed(parser.Abs(), r, call) == Take(parser.Conf(), old(parser.Abs()), NewByte)
      ensures BytesLeftToRead == if call.Some? then h(call.value).raw else old(BytesLeftToRead)
      ensures Stored == old(Stored)
    {
      r, call := parser.ParseByte(NewByte);
      if r.IsError() {
        parser.Flush();
      }
      if call.Some? {
        BytesLeftToRead := h(call.value).raw;
      }
    }

    /** What is sent for a byte; the program stops (`alive` is false) when an asserted answer has no room. */
    method Respond(h: Programs, r: ParseError, call: Option<Call>) returns (alive: bool)
      requires proto.Ready()
      modifies proto.port`Owed, proto.port`Items, proto.port`RunningCS, proto.port`BytesTransmitted
      modifies proto.port.BufferTX`BeingWritten, proto.port.BufferTX`History
      modifies proto.port.BufferTX`Queue, proto.port.BufferTX.Buffer
      modifies proto.port.BlockInfoBufTX`BeingWritten, proto.port.BlockInfoBufTX`History
      modifies proto.port.BlockInfoBufTX`Queue, proto.port.BlockInfoBufTX.Buffer
      ensures proto.Ready() && Promised(proto.Esc(), old(proto.Now()), proto.Now(), AnswerItems(h, r, call))
      ensures alive == (r == BAD_CHECKSUM || ProtocolItems.Fits(proto.Esc(), old(proto.Now()), AnswerItems(h, r, call)))
    {
      match r
      case NOOP => alive := proto.ReturnOK();
      case NO_ERROR =>
        var cs;
        alive, cs := proto.PutParts(if call.Some? then h(call.value).parts else []);
      case BAD_CHECKSUM =>
        var _ := proto.return_error_code(1);
        alive := true;
      case _ =>
        alive := proto.return_error_message(ErrorText(r), NOTHING, true);
    }

    /** Parse, which leaves the port alone. */
    method Receive(h: Programs, NewByte: byte) returns (r: ParseError, call: Option<Call>)
      requires Valid()
      modifies this`BytesLeftToRead, parser, parser.InputBytes, parser.list, parser.list.Spine
      ensures Valid() && proto.Now() == old(proto.Now())
      ensures Parsed(parser.Abs(), r, call) == Take(parser.Conf(), old(parser.Abs()), NewByte)
      ensures BytesLeftToRead == if call.Some? then h(call.value).raw else old(BytesLeftToRead)
      ensures Stored == old(Stored)
    {
      r, call := Parse(h, NewByte);
      PortKept();
    }

    /** Respond, which leaves the parser alone. */
    method Reply(h: Programs, r: ParseError, call: Option<Call>) returns (alive: bool)
      requires Valid()
      modifies proto.port`Owed, proto.port`Items, proto.port`RunningCS, proto.port`BytesTransmitted
      modifies proto.port.BufferTX`BeingWritten, proto.port.BufferTX`History
      modifies proto.port.BufferTX`Queue, proto.port.BufferTX.Buffer
      modifies proto.port.BlockInfoBufTX`BeingWritten, proto.port.BlockInfoBufTX`History
      modifies proto.port.BlockInfoBufTX`Queue, proto.port.BlockInfoBufTX.Buffer
      ensures Valid() && parser.Abs() == old(parser.Abs())
      ensures Stored == old(Stored) && BytesLeftToRead == old(BytesLeftToRead)
      ensures Promised(proto.Esc(), old(proto.Now()), proto.Now(), AnswerItems(h, r, call))
      ensures alive == (r == BAD_CHECKSUM || ProtocolItems.Fits(proto.Esc(), old(proto.Now()), AnswerItems(h, r, call)))
    {
      Apart();
      alive := Respond(h, r, call);
      assert unchanged(parser) && unchanged(parser.InputBytes) && unchanged(parser.list);
      assert unchanged(old(parser.list.Spine));
      ParserKept();
    }

    /** A byte that is not raw data: parse it, answer it. */
    method Handle(h: Programs, NewByte: byte) returns (alive: bool)
      requires Valid() && BytesLeftToRead == 0
      modifies this, parser, parser.InputBytes, parser.list, parser.list.Spine
      modifies proto.port`Owed, proto.port`Items, proto.port`RunningCS, proto.port`BytesTransmitted
      modifies proto.port.BufferTX`BeingWritten, proto.port.BufferTX`History
      modifies proto.port.BufferTX`Queue, proto.port.BufferTX.Buffer
      modifies proto.port.BlockInfoBufTX`BeingWritten, proto.port.BlockInfoBufTX`History
      modifies proto.port.BlockInfoBufTX`Queue, proto.port.BlockInfoBufTX.Buffer
      ensures Valid()
      ensures Stored == old(Stored)
      ensures var x := Take(parser.Conf(), old(parser.Abs()), NewByte);
              && parser.Abs() == x.p && BytesLeftToRead == Asked(Seen(h), x.call)
              && Promised(proto.Esc(), old(proto.Now()), proto.Now(), AnswerItems(h, x.r, x.call))
              && (ProtocolItems.Fits(proto.Esc(), old(proto.Now()), AnswerItems(h, x.r, x.call)) ==> alive)
    {
      var r, call := Receive(h, NewByte);
      alive := Reply(h, r, call);
    }

    /** One received byte. */
    method cycle(h: Programs, NewByte: byte) returns (alive: bool)
      requires Valid()
      modifies this, parser, parser.InputBytes, parser.list, parser.list.Spine
      modifies proto.port`Owed, proto.port`Items, proto.port`RunningCS, proto.port`BytesTransmitted
      modifies proto.port.BufferTX`BeingWritten, proto.port.BufferTX`History
      modifies proto.port.BufferTX`Queue, proto.port.BufferTX.Buffer
      modifies proto.port.BlockInfoBufTX`BeingWritten, proto.port.BlockInfoBufTX`History
      modifies proto.port.BlockInfoBufTX`Queue, proto.port.BlockInfoBufTX.Buffer
      ensures Valid()
      ensures Abs().(out := []) == Cycle(parser.Conf(), Seen(h), old(Abs()), NewByte).(out := [])
      ensures old(BytesLeftToRead) > 0 ==>
                && Stored == old(Stored) + [NewByte] && BytesLeftToRead == old(BytesLeftToRead) - 1
                && parser.Abs() == old(parser.Abs()) && proto.Now() == old(proto.Now())
      ensures old(BytesLeftToRead) == 0 ==>
                var call := Take(parser.Conf(), old(parser.Abs()), NewByte).call;
                Stored == old(Stored) && BytesLeftToRead == if call.Some? then h(call.value).raw else 0
      ensures RoomForAnswer(h, old(Abs()), NewByte, old(proto.Now())) ==>
                alive && Abs() == Cycle(parser.Conf(), Seen(h), old(Abs()), NewByte)
    {
      if BytesLeftToRead > 0 {
        Stored := Stored + [NewByte];
        BytesLeftToRead := BytesLeftToRead - 1;
        alive := true;
      } else {
        ghost var s, x := proto.Now(), Take(parser.Conf(), parser.Abs(), NewByte);
        alive := Handle(h, NewByte);
        AnswerOnLine(proto.Esc(), s, proto.Now(), h, x.r, x.call);
      }
    }

    /** `cycle` when the receiver reported an error: purge what was received and tell the host. */
    method ReceiverFailed(ErrStr: seq<byte>)
      requires Valid()
      modifies parser`pInputByte
      modifies proto.port`Owed, proto.port`Items, proto.port`RunningCS, proto.port`BytesTransmitted
      modifies proto.port.BufferTX`BeingWritten, proto.port.BufferTX`History
      modifies proto.port.BufferTX`Queue, proto.port.BufferTX.Buffer
      modifies proto.port.BlockInfoBufTX`BeingWritten, proto.port.BlockInfoBufTX`History
      modifies proto.port.BlockInfoBufTX`Queue, proto.port.BlockInfoBufTX.Buffer
      ensures Valid() && parser.Abs() == Flush(old(parser.Abs()))
      ensures Promised(proto.Esc(), old(proto.Now()), proto.Now(), InfoItems(ErrStr, true))
    {
      Purge();
      Inform(ErrStr);
    }

    method Purge()
      requires Valid()
      modifies parser`pInputByte
      ensures Valid() && parser.Abs() == Flush(old(parser.Abs())) && proto.Now() == old(proto.Now())
    {
      parser.Flush();
      PortKept();
    }

    method Inform(ErrStr: seq<byte>)
      requires Valid()
      modifies proto.port`Owed, proto.port`Items, proto.port`RunningCS, proto.port`BytesTransmitted
      modifies proto.port.BufferTX`BeingWritten, proto.port.BufferTX`History
      modifies proto.port.BufferTX`Queue, proto.port.BufferTX.Buffer
      modifies proto.port.BlockInfoBufTX`BeingWritten, proto.port.BlockInfoBufTX`History
      modifies proto.port.BlockInfoBufTX`Queue, proto.port.BlockInfoBufTX.Buffer
      ensures Valid() && parser.Abs() == old(parser.Abs())
      ensures Promised(proto.Esc(), old(proto.Now()), proto.Now(), InfoItems(ErrStr, true))
    {
      var _ := proto.info_message(ErrStr, true);
      ParserKept();
    }

    /** The rings have room for what the byte calls for. */
    ghost predicate RoomForAnswer(h: Programs, d: Device, b: byte, room: Room)
      requires Sound(parser.Conf(), d.p)
    {
      d.left > 0 ||
      var x := Take(parser.Conf(), d.p, b);
      ProtocolItems.Fits(proto.Esc(), room, AnswerItems(h, x.r, x.call))
    }
  }

  lemma AnswerOnLine(esc: byte, s: Room, t: Room, h: Programs, r: ParseError, call: Option<Call>)
    requires Promised(esc, s, t, AnswerItems(h, r, call))
    ensures ProtocolItems.Fits(esc, s, AnswerItems(h, r, call)) ==>
              PortCounters.Line(t.items) == PortCounters.Line(s.items) + Answer(Seen(h), r, call)
  {
    LineConcat(s.items, AnswerItems(h, r, call));
    AnswerLine(h, r, call);
  }
}
