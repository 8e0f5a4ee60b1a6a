/**
 From the sending functions of Protocol.hpp over the port and the line to the host's decoder.
 */
module EndToEnd {
  import opened Options
  import opened Words
  import opened PortSpec
  import opened PortCounters
  import opened Ports
  import opened ProtocolItems
  import opened Protocols
  import Framing

  /** One call of a sending function. */
  datatype Sending =
    | SendInfo(t: seq<byte>, NonVolat: bool)
    | SendError(t: seq<byte>, m: Framing.Beyond, NonVolat: bool)
    | SendCode(Code: int)
    | SendReply(parts: seq<Part>)

  predicate Callable(x: Sending) {
    match x
    case SendError(t, m, _) => Framing.Readable(t, m)
    case SendCode(Code) => -128 <= Code < Framing.NUM_ERR_CODES
    case _ => true
  }

  function ItemsOf(x: Sending): seq<Item>
    requires Callable(x)
  {
    match x
    case SendInfo(t, NonVolat) => InfoItems(t, NonVolat)
    case SendError(t, m, NonVolat) => ErrorItems(t, m, NonVolat)
    case SendCode(Code) => Singles(Framing.CodeBytes(Code))
    case SendReply(parts) => ReplyItems(parts)
  }

  function EmissionOf(x: Sending): Framing.Emission {
    match x
    case SendInfo(t, _) => Framing.EmitInfo(t)
    case SendError(t, m, _) => Framing.EmitError(t, m)
    case SendCode(Code) => Framing.EmitCode(Code)
    case SendReply(parts) => Framing.EmitReply(Framing.Flat(Datas(parts)))
  }

  predicate AllCallable(xs: seq<Sending>) { forall i :: 0 <= i < |xs| ==> Callable(xs[i]) }

  function AllItems(xs: seq<Sending>): seq<Item>
    requires AllCallable(xs)
  {
    if xs == [] then [] else AllItems(xs[..|xs| - 1]) + ItemsOf(xs[|xs| - 1])
  }

  function Emissions(xs: seq<Sending>): seq<Framing.Emission> {
    seq(|xs|, i requires 0 <= i < |xs| => EmissionOf(xs[i]))
  }

  // ---------------------------------------------------------------- on the line

  lemma SendingLine(x: Sending)
    requires Callable(x)
    ensures Framing.Possible(EmissionOf(x)) && Line(ItemsOf(x)) == Framing.Emit(EmissionOf(x))
  {
    match x
    case SendInfo(t, NonVolat) => InfoLine(t, NonVolat);
    case SendError(t, m, NonVolat) => ErrorLine(t, m, NonVolat);
    case SendCode(Code) => LineOfSingles(Framing.CodeBytes(Code));
    case SendReply(parts) => ReplyLine(parts);
  }

  lemma {:induction false} AllBytesMore(es: seq<Framing.Emission>, e: Framing.Emission)
    requires Framing.Possible(e) && Framing.AllPossible(es)
    ensures Framing.AllPossible(es + [e])
    ensures Framing.AllBytes(es + [e]) == Framing.AllBytes(es) + Framing.Emit(e)
  {
    if es == [] {
      assert [] + [e] == [e] && [e][1..] == [];
    } else {
      assert (es + [e])[1..] == es[1..] + [e];
      AllBytesMore(es[1..], e);
      Framing.Assoc(Framing.Emit(es[0]), Framing.AllBytes(es[1..]), Framing.Emit(e));
    }
  }

  /** What the calls put on the line is what their emissions are. */
  ghost predicate OnLineAs(xs: seq<Sending>) {
    AllCallable(xs) && Framing.AllPossible(Emissions(xs)) && Line(AllItems(xs)) == Framing.AllBytes(Emissions(xs))
  }

  lemma LastEmission(xs: seq<Sending>)
    requires xs != []
    ensures Emissions(xs) == Emissions(xs[..|xs| - 1]) + [EmissionOf(xs[|xs| - 1])]
  {
  }

  lemma OneMoreOnLine(xs: seq<Sending>)
    requires xs != [] && AllCallable(xs) && OnLineAs(xs[..|xs| - 1])
    ensures OnLineAs(xs)
  {
    var rest, x := xs[..|xs| - 1], xs[|xs| - 1];
    SendingLine(x);
    LineConcat(AllItems(rest), ItemsOf(x));
    LastEmission(xs);
    AllBytesMore(Emissions(rest), EmissionOf(x));
  }

  lemma {:induction false} AllOnLine(xs: seq<Sending>)
    requires AllCallable(xs)
    ensures OnLineAs(xs)
  {
    if xs != [] {
      AllOnLine(xs[..|xs| - 1]);
      OneMoreOnLine(xs);
    }
  }

  /**
   Whenever the port has nothing left to send, however its interrupts fell, the host decodes
   from the line exactly the messages of the calls.
   */
  lemma HostDecodes(s: State, xs: seq<Sending>)
    requires s.Inv() && s.Pending() == [] && AllCallable(xs) && s.items == AllItems(xs)
    requires Framing.AllCarried(Emissions(xs))
    ensures Framing.Decode(OnLine(s.log)) == (Framing.AllMessages(Emissions(xs)), [])
  {
    assert s.log + [] == s.log;
    LineIsOnLine(s.items);
    AllOnLine(xs);
    Framing.StreamDecodes(Emissions(xs));
  }

  // ---------------------------------------------------------------- sending and draining

  /** Promising `want`, all of it. */
  lemma FitsInParts(esc: byte, s: Room, t: Room, a: seq<Item>, b: seq<Item>)
    requires Gained(esc, s, t, a) && Fits(esc, s, a + b)
    ensures Fits(esc, t, b)
  {
    SlotsConcat(esc, a, b);
  }

  lemma GainedMore(esc: byte, s: Room, t: Room, u: Room, a: seq<Item>, b: seq<Item>)
    requires Gained(esc, s, t, a) && Promised(esc, t, u, b) && Fits(esc, t, b)
    ensures Gained(esc, s, u, a + b)
  {
    var got :| got <= b && Gained(esc, t, u, got) && (Fits(esc, t, b) ==> got == b);
    SlotsConcat(esc, a, b);
    AssocItems(s.items, a, b);
  }

  lemma AssocItems(a: seq<Item>, b: seq<Item>, c: seq<Item>)
    ensures (a + b) + c == a + (b + c)
  {
  }

  lemma FitsToo(esc: byte, s: Room, a: seq<Item>, b: seq<Item>)
    requires Fits(esc, s, a + b)
    ensures Fits(esc, s, a)
  {
    SlotsConcat(esc, a, b);
  }

  method Send(proto: Protocol, x: Sending)
    requires proto.Ready() && Callable(x)
    modifies proto.port`Owed, proto.port`Items, proto.port`RunningCS, proto.port`BytesTransmitted
    modifies proto.port.BufferTX`BeingWritten, proto.port.BufferTX`History
    modifies proto.port.BufferTX`Queue, proto.port.BufferTX.Buffer
    modifies proto.port.BlockInfoBufTX`BeingWritten, proto.port.BlockInfoBufTX`History
    modifies proto.port.BlockInfoBufTX`Queue, proto.port.BlockInfoBufTX.Buffer
    ensures proto.Ready() && Promised(proto.Esc(), old(proto.Now()), proto.Now(), ItemsOf(x))
  {
    match x
    case SendInfo(t, NonVolat) => var _ := proto.info_message(t, NonVolat);
    case SendError(t, m, NonVolat) => var _ := proto.return_error_message(t, m, NonVolat);
    case SendCode(Code) => var _ := proto.return_error_code(Code);
    case SendReply(parts) => var _ := proto.ReturnMultiByPtrs(parts);
  }

  method SendAll(proto: Protocol, xs: seq<Sending>)
    requires proto.Ready() && AllCallable(xs) && Fits(proto.Esc(), proto.Now(), AllItems(xs))
    modifies proto.port`Owed, proto.port`Items, proto.port`RunningCS, proto.port`BytesTransmitted
    modifies proto.port.BufferTX`BeingWritten, proto.port.BufferTX`History
    modifies proto.port.BufferTX`Queue, proto.port.BufferTX.Buffer
    modifies proto.port.BlockInfoBufTX`BeingWritten, proto.port.BlockInfoBufTX`History
    modifies proto.port.BlockInfoBufTX`Queue, proto.port.BlockInfoBufTX.Buffer
    ensures proto.Ready() && Gained(proto.Esc(), old(proto.Now()), proto.Now(), AllItems(xs))
  {
    ghost var s := proto.Now();
    NothingGained(proto.Esc(), s, xs);
    for i := 0 to |xs|
      invariant proto.Ready() && Gained(proto.Esc(), s, proto.Now(), AllItems(xs[..i]))
    {
      SendNext(proto, xs, i, s);
    }
    assert xs[..|xs|] == xs;
  }

  lemma NothingGained(esc: byte, s: Room, xs: seq<Sending>)
    ensures Gained(esc, s, s, AllItems(xs[..0]))
  {
    assert AllItems(xs[..0]) == [];
  }

  method SendNext(proto: Protocol, xs: seq<Sending>, i: nat, ghost s: Room)
    requires proto.Ready() && i < |xs| && AllCallable(xs) && Fits(proto.Esc(), s, AllItems(xs))
    requires Gained(proto.Esc(), s, proto.Now(), AllItems(xs[..i]))
    modifies proto.port`Owed, proto.port`Items, proto.port`RunningCS, proto.port`BytesTransmitted
    modifies proto.port.BufferTX`BeingWritten, proto.port.BufferTX`History
    modifies proto.port.BufferTX`Queue, proto.port.BufferTX.Buffer
    modifies proto.port.BlockInfoBufTX`BeingWritten, proto.port.BlockInfoBufTX`History
    modifies proto.port.BlockInfoBufTX`Queue, proto.port.BlockInfoBufTX.Buffer
    ensures proto.Ready() && Gained(proto.Esc(), s, proto.Now(), AllItems(xs[..i + 1]))
  {
    ghost var t := proto.Now();
    NextFits(proto.Esc(), s, t, xs, i);
    Send(proto, xs[i]);
    NextGained(proto.Esc(), s, t, proto.Now(), xs, i);
  }

  lemma NextGained(esc: byte, s: Room, t: Room, u: Room, xs: seq<Sending>, i: nat)
    requires i < |xs| && AllCallable(xs) && Fits(esc, s, AllItems(xs)) && Gained(esc, s, t, AllItems(xs[..i]))
    requires Promised(esc, t, u, ItemsOf(xs[i]))
    ensures Gained(esc, s, u, AllItems(xs[..i + 1]))
  {
    NextFits(esc, s, t, xs, i);
    GainedMore(esc, s, t, u, AllItems(xs[..i]), ItemsOf(xs[i]));
  }

  /** What is left fits, so the next call does. */
  lemma NextFits(esc: byte, s: Room, t: Room, xs: seq<Sending>, i: nat)
    requires i < |xs| && AllCallable(xs) && Fits(esc, s, AllItems(xs)) && Gained(esc, s, t, AllItems(xs[..i]))
    ensures AllItems(xs[..i + 1]) == AllItems(xs[..i]) + ItemsOf(xs[i])
    ensures Fits(esc, t, ItemsOf(xs[i]))
  {
    assert xs[..i + 1][..i] == xs[..i];
    FitsBefore(esc, s, xs, i + 1);
    FitsInParts(esc, s, t, AllItems(xs[..i]), ItemsOf(xs[i]));
  }

  lemma {:induction false} FitsBefore(esc: byte, s: Room, xs: seq<Sending>, i: nat)
    requires i <= |xs| && AllCallable(xs) && Fits(esc, s, AllItems(xs))
    ensures Fits(esc, s, AllItems(xs[..i]))
    decreases |xs|
  {
    if i == |xs| {
      assert xs[..i] == xs;
    } else {
      FitsToo(esc, s, AllItems(xs[..|xs| - 1]), ItemsOf(xs[|xs| - 1]));
      FitsBefore(esc, s, xs[..|xs| - 1], i);
      assert xs[..|xs| - 1][..i] == xs[..i];
    }
  }

  /** The transmit interrupt, until it has no more to send. */
  method Drain(port: Port)
    requires port.Valid() && !port.LastSentIsBlock
    modifies port`pCurByteInBlock, port`LastSentIsBlock, port`Log
    modifies port.BufferTX`BeingRead, port.BufferTX`Queue
    modifies port.BlockInfoBufTX`BeingRead, port.BlockInfoBufTX`Queue
    ensures port.Valid() && port.Abs().Pending() == [] && port.Items == old(port.Items)
  {
    var more := true;
    while more
      invariant port.Valid() && !port.LastSentIsBlock && port.Items == old(port.Items)
      invariant !more ==> port.Abs().Pending() == []
      decreases more, |port.Abs().Pending()|
    {
      more := DrainOne(port);
    }
  }

  method DrainOne(port: Port) returns (more: bool)
    requires port.Valid() && !port.LastSentIsBlock
    modifies port`pCurByteInBlock, port`LastSentIsBlock, port`Log
    modifies port.BufferTX`BeingRead, port.BufferTX`Queue
    modifies port.BlockInfoBufTX`BeingRead, port.BlockInfoBufTX`Queue
    ensures port.Valid() && !port.LastSentIsBlock && port.Items == old(port.Items)
    ensures if more then |port.Abs().Pending()| < |old(port.Abs()).Pending()| else port.Abs().Pending() == []
  {
    GetByteShrinks(port.Abs());
    var p;
    more, p := port.GetByteToSend();
  }

  lemma GetByteShrinks(s: State)
    requires s.Inv() && !s.sent
    ensures var (t, c) := GetByte(s);
            && t.Inv() && !t.sent && t.items == s.items
            && if c.Some? then |t.Pending()| < |s.Pending()| else t.Pending() == []
  {
    GetByteKeeps(s);
    SettledLine(s);
    var (t, c) := GetByte(s);
    if c.Some? {
      Advance(Settled(s), t, [c.value]);
    }
  }

  /** Calls that fit, on a fresh port, and the interrupt: the host decodes exactly their messages. */
  method Deliver(proto: Protocol, xs: seq<Sending>)
    requires proto.Ready() && AllCallable(xs) && Fits(proto.Esc(), proto.Now(), AllItems(xs))
    requires proto.port.Items == [] && !proto.port.LastSentIsBlock
    requires Framing.AllCarried(Emissions(xs))
    modifies proto.port, proto.port.BufferTX, proto.port.BufferTX.Buffer
    modifies proto.port.BlockInfoBufTX, proto.port.BlockInfoBufTX.Buffer
    ensures Framing.Decode(OnLine(proto.port.Log)) == (Framing.AllMessages(Emissions(xs)), [])
  {
    SendAll(proto, xs);
    Drain(proto.port);
    HostDecodes(proto.port.Abs(), xs);
  }
}
