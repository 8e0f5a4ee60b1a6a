/**
 Protocol.hpp: what `cycle` does with a received byte, and resynchronisation by zero bytes.
 */
module CycleSpec {
  import opened Options
  import opened Words
  import opened Checksum
  import opened Recency
  import opened CommandLists
  import opened ParserSpec
  import Framing

  /** What a handler does: bytes it sends, and how many raw bytes it asks for (setup_to_read_bytes). */
  datatype Reaction = Reaction(sent: seq<byte>, raw: nat)

  type Handlers = Call -> Reaction

  /** `left` is BytesLeftToRead, `raw` the bytes stored through DestPtr, `out` what was sent. */
  datatype Device = Device(p: Parser, left: nat, raw: seq<byte>, out: seq<byte>)

  function Text(s: string): (t: seq<byte>)
    ensures |t| == |s| && forall i :: 0 <= i < |s| ==> t[i] == s[i] as int % 256
  {
    seq(|s|, i requires 0 <= i < |s| => s[i] as int % 256)
  }

  /** The two error texts. */
  function ErrorText(r: ParseError): (t: seq<byte>)
    requires r.WRONG_ID? || r.WRONG_PARAM_SIZE?
    ensures Framing.NUM_ERR_CODES <= |t| <= Framing.INT8_MAX
  {
    Text(if r.WRONG_ID? then "Command is not defined!\n" else "Too many parameter bytes!\n")
  }

  /** The answer to a byte. */
  function Answer(h: Handlers, r: ParseError, call: Option<Call>): seq<byte> {
    match r
    case NOOP => Framing.ReplyBytes([])
    case NO_ERROR => if call.Some? then h(call.value).sent else []
    case BAD_CHECKSUM => Framing.CodeBytes(1)
    case _ => Framing.TextBlock(ErrorText(r))
  }

  function Asked(h: Handlers, call: Option<Call>): nat {
    if call.Some? then h(call.value).raw else 0
  }

  /** One received byte. PurgeRX shows only in the parser being flushed and in which bytes follow. */
  function Cycle(k: Config, h: Handlers, d: Device, b: byte): (e: Device)
    requires Sound(k, d.p)
    ensures Sound(k, e.p)
  {
    TakeKeeps(k, d.p, b);
    if d.left > 0 then d.(left := d.left - 1, raw := d.raw + [b])
    else
      var x := Take(k, d.p, b);
      Device(x.p, Asked(h, x.call), d.raw, d.out + Answer(h, x.r, x.call))
  }

  /** n zero bytes. */
  function Zeros(n: nat): seq<byte> { seq(n, _ => 0) }

  function RunZeros(k: Config, h: Handlers, d: Device, n: nat): (e: Device)
    requires Sound(k, d.p)
    ensures Sound(k, e.p)
    decreases n, k
  {
    if n == 0 then d else RunZeros(k, h, Cycle(k, h, d, 0), n - 1)
  }

  predicate Idle(d: Device) { d.left == 0 && d.p.input == [] }

  // ---------------------------------------------------------------- how a packet ends on zeros

  datatype Ending = Ending(r: ParseError, call: Option<Call>)

  /** A packet whose command is known: zeros add nothing to its sum, and the last one is its checksum. */
  function EndOf(k: Config, c: Command, input: seq<byte>, n: byte): Ending
    requires k.idSize <= |input| <= k.idSize + n
  {
    if Sum(input) == 0 then Ending(NO_ERROR, Some(Call(c.pFunc, (input + Zeros(k.idSize + n - |input|))[k.idSize..])))
    else Ending(BAD_CHECKSUM, None)
  }

  /** A packet whose ID is complete and nothing more. */
  function EndOfCommand(k: Config, c: Command, id: seq<byte>): Ending
    requires |id| == k.idSize
  {
    if ParamNumOf(c, 0) > k.maxParams then Ending(WRONG_PARAM_SIZE, None) else EndOf(k, c, id, ParamNumOf(c, 0))
  }

  ghost function EndOnZeros(k: Config, p: Parser): Ending
    requires Sound(k, p) && p.input != []
  {
    if |p.input| > k.idSize then EndOf(k, p.pCur.value, p.input, p.ParamNum)
    else
      var id := p.input + Zeros(k.idSize - |p.input|);
      var i := IndexOf(p.table, id);
      if i == |p.table| then Ending(WRONG_ID, None) else EndOfCommand(k, p.table[i], id)
  }

  lemma {:induction false} SumWithZero(s: seq<byte>)
    ensures Sum(s + [0]) == Sum(s)
  {
    assert (s + [0])[..|s|] == s;
  }

  /** A zero that neither ends the packet nor changes how it will end, or that ends it so. */
  ghost predicate OneZero(k: Config, p: Parser)
    requires Sound(k, p) && p.input != []
  {
    var x := Take(k, p, 0);
    TakeKeeps(k, p, 0);
    if x.p.input == [] then Ending(x.r, x.call) == EndOnZeros(k, p)
    else x.p.input == p.input + [0] && x.r == NO_ERROR && x.call == None && EndOnZeros(k, x.p) == EndOnZeros(k, p)
  }

  lemma InsideId(k: Config, p: Parser)
    requires Sound(k, p) && 0 < |p.input| && |p.input| + 1 < k.idSize
    ensures OneZero(k, p)
  {
    TakeKeeps(k, p, 0);
    var m := k.idSize - |p.input|;
    assert (p.input + [0]) + Zeros(m - 1) == p.input + Zeros(m);
  }

  lemma AtId(k: Config, p: Parser)
    requires Sound(k, p) && 0 < |p.input| && |p.input| + 1 == k.idSize
    ensures OneZero(k, p)
  {
    TakeKeeps(k, p, 0);
    var id := p.input + [0];
    assert p.input + Zeros(1) == id && id + Zeros(0) == id;
    var i := IndexOf(p.table, id);
    if i < |p.table| {
      TableMoves(p.table, i);
      FoundIs(Take(k, p, 0).p.table, p.table[i]);
    }
  }

  lemma AtLength(k: Config, p: Parser)
    requires Sound(k, p) && |p.input| == k.idSize
    ensures OneZero(k, p)
  {
    TakeKeeps(k, p, 0);
    var c := p.pCur.value;
    assert p.input[..k.idSize] == p.input == p.input + Zeros(0);
    FoundIs(p.table, c);
    EndStep(k, c, p.input, ParamNumOf(c, 0));
  }

  lemma AtParameter(k: Config, p: Parser)
    requires Sound(k, p) && |p.input| > k.idSize
    ensures OneZero(k, p)
  {
    TakeKeeps(k, p, 0);
    EndStep(k, p.pCur.value, p.input, p.ParamNum);
  }

  /** The checksum byte is in. */
  function EndNow(c: Command, whole: seq<byte>, idSize: nat, n: nat): Ending
    requires idSize <= n <= |whole|
  {
    if Sum(whole[..n]) == 0 then Ending(NO_ERROR, Some(Call(c.pFunc, whole[idSize..n]))) else Ending(BAD_CHECKSUM, None)
  }

  lemma EndStep(k: Config, c: Command, input: seq<byte>, n: byte)
    requires k.idSize <= |input| <= k.idSize + n
    ensures |input| < k.idSize + n ==> EndOf(k, c, input + [0], n) == EndOf(k, c, input, n)
    ensures |input| == k.idSize + n ==> EndOf(k, c, input, n) == EndNow(c, input + [0], k.idSize, k.idSize + n)
  {
    SumWithZero(input);
    var m := k.idSize + n - |input|;
    if m > 0 {
      assert (input + [0]) + Zeros(m - 1) == input + Zeros(m);
    } else {
      assert (input + [0])[..k.idSize + n] == input == input + Zeros(0);
    }
  }

  lemma ZeroStep(k: Config, p: Parser)
    requires Sound(k, p) && p.input != []
    ensures OneZero(k, p)
  {
    if |p.input| + 1 < k.idSize {
      InsideId(k, p);
    } else if |p.input| + 1 == k.idSize {
      AtId(k, p);
    } else if |p.input| == k.idSize {
      AtLength(k, p);
    } else {
      AtParameter(k, p);
    }
  }

  // ---------------------------------------------------------------- resynchronisation

  lemma RunZerosFirst(k: Config, h: Handlers, d: Device, n: nat)
    requires Sound(k, d.p) && n > 0
    ensures RunZeros(k, h, d, n) == RunZeros(k, h, Cycle(k, h, d, 0), n - 1)
  {
  }

  lemma {:induction false} RunZerosThen(k: Config, h: Handlers, d: Device, n: nat, m: nat)
    requires Sound(k, d.p)
    ensures RunZeros(k, h, d, n + m) == RunZeros(k, h, RunZeros(k, h, d, n), m)
    decreases n
  {
    if n > 0 {
      RunZerosFirst(k, h, d, n);
      RunZerosFirst(k, h, d, n + m);
      RunZerosThen(k, h, Cycle(k, h, d, 0), n - 1, m);
    }
  }

  /** Any bytes, one after the other. */
  function RunBytes(k: Config, h: Handlers, d: Device, bytes: seq<byte>): (e: Device)
    requires Sound(k, d.p)
    ensures Sound(k, e.p)
    decreases |bytes|
  {
    if bytes == [] then d else RunBytes(k, h, Cycle(k, h, d, bytes[0]), bytes[1..])
  }

  /** Raw bytes are stored as they are, counted down, and touch neither the parser nor the output. */
  lemma {:induction false} RawBytesAreStored(k: Config, h: Handlers, d: Device, bytes: seq<byte>)
    requires Sound(k, d.p) && |bytes| <= d.left
    ensures RunBytes(k, h, d, bytes) == d.(left := d.left - |bytes|, raw := d.raw + bytes)
    decreases |bytes|
  {
    if bytes == [] {
      assert d.raw + [] == d.raw;
    } else {
      OneRawByte(k, h, d, bytes[0]);
      RawBytesAreStored(k, h, d.(left := d.left - 1, raw := d.raw + [bytes[0]]), bytes[1..]);
      assert (d.raw + [bytes[0]]) + bytes[1..] == d.raw + bytes;
    }
  }

  lemma OneRawByte(k: Config, h: Handlers, d: Device, b: byte)
    requires Sound(k, d.p) && d.left > 0
    ensures Cycle(k, h, d, b) == d.(left := d.left - 1, raw := d.raw + [b])
  {
  }

  /** The zeros of resynchronisation are such bytes. */
  lemma {:induction false} ZerosAreBytes(k: Config, h: Handlers, d: Device, n: nat)
    requires Sound(k, d.p)
    ensures RunZeros(k, h, d, n) == RunBytes(k, h, d, Zeros(n))
    decreases n
  {
    if n > 0 {
      RunZerosFirst(k, h, d, n);
      ZerosAreBytes(k, h, Cycle(k, h, d, 0), n - 1);
      assert Zeros(n)[0] == 0 && Zeros(n)[1..] == Zeros(n - 1);
    }
  }

  lemma RawZeros(k: Config, h: Handlers, d: Device)
    requires Sound(k, d.p)
    ensures RunZeros(k, h, d, d.left) == d.(left := 0, raw := d.raw + Zeros(d.left))
  {
    ZerosAreBytes(k, h, d, d.left);
    RawBytesAreStored(k, h, d, Zeros(d.left));
  }

  // ---------------------------------------------------------------- what the host is told

  /** An unknown ID. */
  lemma UnknownIdIsTold(k: Config, h: Handlers, d: Device, b: byte)
    requires Sound(k, d.p) && d.left == 0 && (d.p.input != [] || b != 0)
    requires |d.p.input| + 1 == k.idSize && Unknown(d.p.table, d.p.input + [b])
    ensures var t := Text("Command is not defined!\n");
            Cycle(k, h, d, b).out == d.out + ([232] + t + [Sum(t)]) && Cycle(k, h, d, b).p.input == []
  {
    VerdictIs(k, d.p, b);
  }

  /** A length, given or fixed, that does not fit. */
  lemma WrongSizeIsTold(k: Config, h: Handlers, d: Device, b: byte)
    requires Sound(k, d.p) && d.left == 0 && |d.p.input| == k.idSize
    requires LengthAfter(d.p.pCur.value, b) > k.maxParams
    ensures var t := Text("Too many parameter bytes!\n");
            Cycle(k, h, d, b).out == d.out + ([230] + t + [Sum(t)]) && Cycle(k, h, d, b).p.input == []
  {
    VerdictIs(k, d.p, b);
  }

  /** A checksum that does not match. */
  lemma BadChecksumIsTold(k: Config, h: Handlers, d: Device, b: byte)
    requires Sound(k, d.p) && d.left == 0 && |d.p.input| >= k.idSize
    requires EndsPacket(k, d.p, b) && Total(d.p.input) % 256 != b
    ensures Cycle(k, h, d, b).out == d.out + [255, 255] && Cycle(k, h, d, b).p.input == []
  {
    VerdictIs(k, d.p, b);
  }

  /** Once a started packet has ended: its handler ran, or an error was reported, once. */
  ghost predicate Ended(k: Config, h: Handlers, d: Device, e: Device)
    requires Sound(k, d.p) && d.p.input != []
  {
    var end := EndOnZeros(k, d.p);
    && e.p.input == [] && e.left == Asked(h, end.call) && e.raw == d.raw
    && e.out == d.out + Answer(h, end.r, end.call)
  }

  /** A started packet ends after at most the zeros that still fit into the input buffer. */
  lemma {:induction false} PacketEndsOnZeros(k: Config, h: Handlers, d: Device) returns (t: nat)
    requires Sound(k, d.p) && d.left == 0 && d.p.input != []
    ensures t <= k.idSize + k.maxParams + 1 - |d.p.input|
    ensures Ended(k, h, d, RunZeros(k, h, d, t))
    decreases k.idSize + k.maxParams + 1 - |d.p.input|
  {
    var e := Cycle(k, h, d, 0);
    TakeKeeps(k, d.p, 0);
    ZeroStep(k, d.p);
    if e.p.input == [] {
      t := 1;
      assert RunZeros(k, h, e, 0) == e;
    } else {
      TakeKeeps(k, e.p, 0);
      assert e == d.(p := e.p);
      t := PacketEndsOnZeros(k, h, e);
      t := t + 1;
    }
  }

  lemma IdleOnce(k: Config, h: Handlers, d: Device)
    requires Sound(k, d.p) && Idle(d)
    ensures Cycle(k, h, d, 0) == d.(out := d.out + Framing.ReplyBytes([]))
  {
  }

  lemma OneNoopMore(out: seq<byte>, m: nat)
    requires m > 0
    ensures (out + Framing.ReplyBytes([])) + Framing.AllBytes(Noops(m - 1)) == out + Framing.AllBytes(Noops(m))
  {
    assert Noops(m)[1..] == Noops(m - 1);
  }

  /** An idle device answers every zero with an empty reply. */
  lemma {:induction false} IdleAnswers(k: Config, h: Handlers, d: Device, m: nat)
    requires Sound(k, d.p) && Idle(d)
    ensures RunZeros(k, h, d, m) == d.(out := d.out + Framing.AllBytes(Noops(m)))
    decreases m
  {
    if m > 0 {
      IdleOnce(k, h, d);
      RunZerosFirst(k, h, d, m);
      IdleAnswers(k, h, d.(out := d.out + Framing.ReplyBytes([])), m - 1);
      OneNoopMore(d.out, m);
    } else {
      assert d.out + [] == d.out;
    }
  }

  function Noops(m: nat): seq<Framing.Emission> { seq(m, _ => Framing.EmitReply([])) }

  /** From any state with no packet started. */
  lemma BetweenPackets(k: Config, h: Handlers, d: Device, n: nat)
    requires Sound(k, d.p) && d.p.input == [] && n >= d.left
    ensures Idle(RunZeros(k, h, d, n))
  {
    RawZeros(k, h, d);
    IdleAnswers(k, h, RunZeros(k, h, d, d.left), n - d.left);
    RunZerosThen(k, h, d, d.left, n - d.left);
  }

  lemma PacketPasses(k: Config, h: Handlers, d: Device, most: nat) returns (t: nat)
    requires Sound(k, d.p) && d.left == 0 && d.p.input != []
    requires forall c :: h(c).raw <= most
    ensures t <= k.idSize + k.maxParams
    ensures RunZeros(k, h, d, t).p.input == [] && RunZeros(k, h, d, t).left <= most
  {
    t := PacketEndsOnZeros(k, h, d);
    AskedAtMost(h, EndOnZeros(k, d.p).call, most);
  }

  /** ... or inside a packet; its handler may ask for raw bytes. */
  lemma InsidePacket(k: Config, h: Handlers, d: Device, most: nat, n: nat)
    requires Sound(k, d.p) && d.left == 0 && d.p.input != []
    requires forall c :: h(c).raw <= most
    requires n >= k.idSize + k.maxParams + most
    ensures Idle(RunZeros(k, h, d, n))
  {
    var t := PacketPasses(k, h, d, most);
    OnceBetweenPackets(k, h, d, t, n);
  }

  lemma OnceBetweenPackets(k: Config, h: Handlers, d: Device, t: nat, n: nat)
    requires Sound(k, d.p) && t <= n
    requires RunZeros(k, h, d, t).p.input == [] && RunZeros(k, h, d, t).left <= n - t
    ensures Idle(RunZeros(k, h, d, n))
  {
    BetweenPackets(k, h, RunZeros(k, h, d, t), n - t);
    RunZerosThen(k, h, d, t, n - t);
  }

  lemma AskedAtMost(h: Handlers, call: Option<Call>, most: nat)
    requires forall c :: h(c).raw <= most
    ensures Asked(h, call) <= most
  {
  }

  lemma AfterRawBytes(k: Config, h: Handlers, d: Device, most: nat, n: nat)
    requires Sound(k, d.p) && d.left == 0 && forall c :: h(c).raw <= most
    requires n >= k.idSize + k.maxParams + most
    ensures Idle(RunZeros(k, h, d, n))
  {
    if d.p.input == [] {
      BetweenPackets(k, h, d, n);
    } else {
      InsidePacket(k, h, d, most, n);
    }
  }

  lemma ComesToRest(k: Config, h: Handlers, d: Device, most: nat, n: nat)
    requires Sound(k, d.p) && forall c :: h(c).raw <= most
    requires n >= d.left + k.idSize + k.maxParams + most
    ensures Idle(RunZeros(k, h, d, n))
  {
    RawZeros(k, h, d);
    AfterRawBytes(k, h, RunZeros(k, h, d, d.left), most, n - d.left);
    RunZerosThen(k, h, d, d.left, n - d.left);
  }

  /**
   Resynchronisation: from any reachable state, once the raw bytes are in, at most as many
   zeros as an ID and the largest parameters have bytes, and the raw bytes a handler may ask
   for, bring the device to rest; and from then on every zero is answered by four zeros, which
   the host decodes as empty replies.
   */
  lemma Resynchronises(k: Config, h: Handlers, d: Device, most: nat, n: nat, m: nat)
    requires Sound(k, d.p) && forall c :: h(c).raw <= most
    requires n >= d.left + k.idSize + k.maxParams + most
    ensures Idle(RunZeros(k, h, d, n))
    ensures RunZeros(k, h, d, n + m)
              == RunZeros(k, h, d, n).(out := RunZeros(k, h, d, n).out + Framing.AllBytes(Noops(m)))
    ensures Framing.Decode(Framing.AllBytes(Noops(m))) == (Framing.AllMessages(Noops(m)), [])
  {
    ComesToRest(k, h, d, most, n);
    RunZerosThen(k, h, d, n, m);
    IdleAnswers(k, h, RunZeros(k, h, d, n), m);
    Framing.StreamDecodes(Noops(m));
  }

  /**
   The packet that was interrupted is not always reported as a bad checksum: zeros complete it
   to a valid one, and its handler runs, exactly when what had arrived adds up to 0.
   */
  lemma RunsHandlerIff(k: Config, h: Handlers, d: Device) returns (t: nat)
    requires Sound(k, d.p) && d.left == 0 && |d.p.input| > k.idSize
    ensures t <= k.maxParams && Ended(k, h, d, RunZeros(k, h, d, t))
    ensures var c := d.p.pCur.value;
            var whole := d.p.input + Zeros(k.idSize + d.p.ParamNum - |d.p.input|);
            RunZeros(k, h, d, t).out == d.out + if Sum(d.p.input) == 0 then h(Call(c.pFunc, whole[k.idSize..])).sent
                                                else Framing.CodeBytes(1)
  {
    t := PacketEndsOnZeros(k, h, d);
    AnswerToEnd(h, d.p.pCur.value, d.p.input, d.p.ParamNum, k);
  }

  lemma AnswerToEnd(h: Handlers, c: Command, input: seq<byte>, n: byte, k: Config)
    requires k.idSize < |input| <= k.idSize + n
    ensures var end, whole := EndOf(k, c, input, n), input + Zeros(k.idSize + n - |input|);
            Answer(h, end.r, end.call)
            == if Sum(input) == 0 then h(Call(c.pFunc, whole[k.idSize..])).sent else Framing.CodeBytes(1)
  {
  }

  /** A device with one command, ID 1 and three parameter bytes, that has received 1 and 255. */
  function Interrupted(h: Handlers): Device {
    var c := Command([1], 7, 3);
    Device(Parser([c], [1, 255], Some(c), 3), 0, [], [])
  }

  /** It is reached from rest, and three zeros make the handler run. */
  lemma InterruptedRuns(h: Handlers)
    ensures var k, c := Config(1, 3), Command([1], 7, 3);
            var rest := Parser([c], [], None, 0);
            && Sound(k, rest) && Take(k, Take(k, rest, 1).p, 255).p == Interrupted(h).p
            && Sound(k, Interrupted(h).p) && Sum(Interrupted(h).p.input) == 0
            && EndOnZeros(k, Interrupted(h).p) == Ending(NO_ERROR, Some(Call(7, [255, 0, 0])))
  {
    var k, c := Config(1, 3), Command([1], 7, 3);
    var rest := Parser([c], [], None, 0);
    OneCommandIsSound(k, rest, c);
    OneCommandFound(c);
    TakeKeeps(k, rest, 1);
    var p := Take(k, rest, 1).p;
    assert p == Parser([c], [1], Some(c), 0);
    TakeKeeps(k, p, 255);
    assert [1] + [255] == [1, 255];
    SumOfInterrupted();
    assert [1, 255] + Zeros(2) == [1, 255, 0, 0];
    assert [1, 255, 0, 0][1..] == [255, 0, 0];
  }

  lemma OneCommandIsSound(k: Config, rest: Parser, c: Command)
    requires rest.table == [c] && rest.input == [] && GoodCommand(c, k.idSize, k.maxParams)
    ensures Sound(k, rest)
  {
  }

  lemma OneCommandFound(c: Command)
    ensures IndexOf([c], c.ID) == 0 && MoveToFront([c], 0) == [c]
  {
  }

  lemma SumOfInterrupted()
    ensures Sum([1, 255]) == 0
  {
    TotalOne(1);
    TotalOne(255);
    TotalConcat([1], [255]);
    assert [1] + [255] == [1, 255];
  }
}
