/**
 CommandChain.hpp: ParseByte, one received byte at a time, as a function on values.
 */
module ParserSpec {
  import opened Options
  import opened Words
  import opened Checksum
  import opened Recency
  import opened CommandLists

  datatype ParseError = NO_ERROR | NOOP | WRONG_ID | BAD_CHECKSUM | WRONG_PARAM_SIZE {
    predicate IsError() { WRONG_ID? || BAD_CHECKSUM? || WRONG_PARAM_SIZE? }
  }

  /** A handler called with its parameter bytes, the length byte included when there is one. */
  datatype Call = Call(pFunc: nat, params: seq<byte>)

  datatype Config = Config(idSize: nat, maxParams: byte)

  /** `input` is what lies in InputBytes before pInputByte. */
  datatype Parser = Parser(table: seq<Command>, input: seq<byte>, pCur: Option<Command>, ParamNum: byte)

  datatype Parsed = Parsed(p: Parser, r: ParseError, call: Option<Call>)

  /** `NewByte + 1` in a uint8_t. */
  function ParamNumOf(c: Command, b: byte): byte {
    if c.NumParamBytes == VAR_PARAM_NUM then (b + 1) % 256 else c.NumParamBytes
  }

  function Flush(p: Parser): Parser { p.(input := []) }

  /** Between packets, inside an ID, or inside the rest of a packet of a known command. */
  ghost predicate Sound(k: Config, p: Parser) {
    && k.idSize > 0
    && Distinct(IDs(p.table))
    && (forall c :: c in p.table ==> GoodCommand(c, k.idSize, k.maxParams))
    && (p.input != [] ==> p.input[0] != 0)
    && (|p.input| >= k.idSize ==> p.pCur.Some? && p.pCur.value in p.table && p.pCur.value.ID == p.input[..k.idSize])
    && (|p.input| > k.idSize ==>
          && p.ParamNum == ParamNumOf(p.pCur.value, p.input[k.idSize]) <= k.maxParams
          && |p.input| <= k.idSize + p.ParamNum)
  }

  function ParseByte(k: Config, p: Parser, b: byte): Parsed
    requires |p.input| >= k.idSize ==> p.pCur.Some?
    requires k.idSize > 0
  {
    if p.input == [] && b == 0 then Parsed(p, NOOP, None)
    else
      var input := p.input + [b];
      if |input| == k.idSize then
        var i := IndexOf(p.table, input);
        if i == |p.table| then Parsed(p.(input := input, pCur := None), WRONG_ID, None)
        else Parsed(p.(input := input, pCur := Some(p.table[i]), table := MoveToFront(p.table, i)), NO_ERROR, None)
      else if |input| < k.idSize then Parsed(p.(input := input), NO_ERROR, None)
      else Parameter(k, p.(input := input), b)
  }

  /** A byte after the ID; the first of them settles how many there will be. */
  function Parameter(k: Config, p: Parser, b: byte): Parsed
    requires |p.input| > k.idSize && p.pCur.Some?
  {
    var q := if |p.input| == k.idSize + 1 then p.(ParamNum := ParamNumOf(p.pCur.value, b)) else p;
    if |p.input| == k.idSize + 1 && q.ParamNum > k.maxParams then Parsed(q, WRONG_PARAM_SIZE, None)
    else if |p.input| == k.idSize + q.ParamNum + 1 then Complete(k, q)
    else Parsed(q, NO_ERROR, None)
  }

  /** A whole packet is in: its checksum decides. */
  function Complete(k: Config, q: Parser): Parsed
    requires |q.input| == k.idSize + q.ParamNum + 1 && q.pCur.Some?
  {
    var n := k.idSize + q.ParamNum;
    if Sum(q.input[..n]) == q.input[n]
    then Parsed(Flush(q), NO_ERROR, Some(Call(q.pCur.value.pFunc, q.input[k.idSize..n])))
    else Parsed(q, BAD_CHECKSUM, None)
  }

  /** What Protocol::cycle makes of a byte: after an error the input is flushed. */
  function Take(k: Config, p: Parser, b: byte): Parsed
    requires |p.input| >= k.idSize ==> p.pCur.Some?
    requires k.idSize > 0
  {
    var x := ParseByte(k, p, b);
    if x.r.IsError() then x.(p := Flush(x.p)) else x
  }

  // ---------------------------------------------------------------- the table

  lemma TableMoves(t: seq<Command>, i: nat)
    requires i < |t| && Distinct(IDs(t))
    ensures Distinct(IDs(MoveToFront(t, i)))
    ensures forall c :: c in MoveToFront(t, i) <==> c in t
  {
    var u := MoveToFront(t, i);
    forall a, b | 0 <= a < b < |u|
      ensures IDs(u)[a] != IDs(u)[b]
    {
      var x, y := Source(i, a), Source(i, b);
      assert u[a] == t[x] && u[b] == t[y];
      assert IDs(t)[x] != IDs(t)[y];
    }
    assert t == t[..i] + [t[i]] + t[i + 1..];
  }

  /** Where the element now at position a stood before position i was moved to the front. */
  function Source(i: nat, a: nat): nat { if a == 0 then i else if a <= i then a - 1 else a }

  lemma FoundIs(t: seq<Command>, c: Command)
    requires Distinct(IDs(t)) && c in t
    ensures IndexOf(t, c.ID) < |t| && t[IndexOf(t, c.ID)] == c
  {
    var j :| 0 <= j < |t| && t[j] == c;
    forall a | 0 <= a < j
      ensures t[a].ID != c.ID
    {
      assert IDs(t)[a] != IDs(t)[j];
    }
    FirstIsIndex(t, c.ID, j);
  }

  /** Registering one more command keeps the parser sound, and a started packet its command. */
  lemma AddedKeeps(k: Config, p: Parser, c: Command)
    requires Sound(k, p)
    ensures Sound(k, p.(table := Added(p.table, c, k.idSize, k.maxParams)))
  {
    var t, i := p.table, IndexOf(p.table, c.ID);
    if i < |t| {
      TableMoves(t, i);
    } else if GoodCommand(c, k.idSize, k.maxParams) {
      assert IDs([c] + t) == [c.ID] + IDs(t);
      DistinctCons(c.ID, IDs(t));
    }
  }

  lemma AbsentIff(t: seq<Command>, h: seq<ID>, id: ID, idSize: nat, maxParams: byte)
    requires InOrder(t, h, idSize, maxParams)
    ensures id in h <==> id in IDs(t)
  {
    RecentMembers(h);
  }

  // ---------------------------------------------------------------- every byte

  /**
   Any byte keeps the parser sound once errors are flushed, and never lands outside
   InputBytes: idSize + maxParams + 1 cells.
   */
  lemma TakeKeeps(k: Config, p: Parser, b: byte)
    requires Sound(k, p)
    ensures |p.input| < k.idSize + k.maxParams + 1
    ensures Sound(k, Take(k, p, b).p)
    ensures forall c :: c in Take(k, p, b).p.table <==> c in p.table
  {
    var x := ParseByte(k, p, b);
    var input := p.input + [b];
    if |input| == k.idSize {
      var i := IndexOf(p.table, input);
      if i < |p.table| {
        TableMoves(p.table, i);
        assert input[..k.idSize] == input;
      }
    } else if |input| > k.idSize {
      assert input[..k.idSize] == p.input[..k.idSize];
    }
  }

  // ---------------------------------------------------------------- every verdict

  /** How many parameters follow an ID when b is the byte after it. */
  function LengthAfter(c: Command, b: byte): nat {
    if c.NumParamBytes == 255 then (if b == 255 then 0 else b + 1) else c.NumParamBytes
  }

  /** b is the checksum byte of the packet. */
  ghost predicate EndsPacket(k: Config, p: Parser, b: byte)
    requires Sound(k, p)
  {
    && |p.input| >= k.idSize
    && var n := LengthAfter(p.pCur.value, (p.input + [b])[k.idSize]);
       n <= k.maxParams && |p.input| == k.idSize + n
  }

  lemma LengthIs(c: Command, b: byte)
    ensures ParamNumOf(c, b) == LengthAfter(c, b)
  {
  }

  /** No command has this ID. */
  predicate Unknown(table: seq<Command>, id: seq<byte>) { forall c :: c in table ==> c.ID != id }

  lemma UnknownIff(t: seq<Command>, id: seq<byte>)
    ensures IndexOf(t, id) == |t| <==> Unknown(t, id)
  {
    if IndexOf(t, id) == |t| {
      forall c | c in t
        ensures c.ID != id
      {
        var j :| 0 <= j < |t| && t[j] == c;
      }
    } else {
      assert t[IndexOf(t, id)] in t;
    }
  }

  /** A NOOP is a zero between packets. */
  lemma NoopIff(p: Parser, b: byte)
    ensures p.input + [b] == [0] <==> p.input == [] && b == 0
  {
    if p.input + [b] == [0] {
      assert |p.input + [b]| == 1;
      assert (p.input + [b])[0] == b;
    }
  }

  /** Up to the ID there are NOOPs and unknown IDs. */
  lemma VerdictOnId(k: Config, p: Parser, b: byte)
    requires Sound(k, p) && |p.input| < k.idSize
    ensures var x, whole := ParseByte(k, p, b), p.input + [b];
            && x.call == None
            && x.r == if whole == [0] then NOOP
                      else if |whole| == k.idSize && Unknown(p.table, whole) then WRONG_ID
                      else NO_ERROR
  {
    NoopIff(p, b);
    UnknownIff(p.table, p.input + [b]);
  }

  /** Behind it there are wrong sizes and wrong checksums. */
  lemma VerdictBehindId(k: Config, p: Parser, b: byte)
    requires Sound(k, p) && |p.input| >= k.idSize
    ensures var x := ParseByte(k, p, b);
            && x.r == (if |p.input| == k.idSize && LengthAfter(p.pCur.value, b) > k.maxParams then WRONG_PARAM_SIZE
                       else if EndsPacket(k, p, b) && Total(p.input) % 256 != b then BAD_CHECKSUM
                       else NO_ERROR)
            && (x.call.Some? <==> EndsPacket(k, p, b) && Total(p.input) % 256 == b)
  {
    var whole := p.input + [b];
    LengthIs(p.pCur.value, whole[k.idSize]);
    assert whole[..|p.input|] == p.input;
  }

  /** What ParseByte returns, and when it runs a handler. */
  lemma VerdictIs(k: Config, p: Parser, b: byte)
    requires Sound(k, p)
    ensures var x, whole := ParseByte(k, p, b), p.input + [b];
            && (x.r == NOOP <==> whole == [0])
            && (x.r == WRONG_ID <==> whole != [0] && |whole| == k.idSize && Unknown(p.table, whole))
            && (x.r == WRONG_PARAM_SIZE <==> |whole| == k.idSize + 1 && LengthAfter(p.pCur.value, b) > k.maxParams)
            && (x.r == BAD_CHECKSUM <==> EndsPacket(k, p, b) && Total(p.input) % 256 != b)
            && (x.call.Some? <==> EndsPacket(k, p, b) && Total(p.input) % 256 == b)
  {
    NoopIff(p, b);
    if |p.input| < k.idSize {
      VerdictOnId(k, p, b);
    } else {
      VerdictBehindId(k, p, b);
    }
  }

  // ---------------------------------------------------------------- the documented encoding

  /** Parameters as a command expects them: a variable number is preceded by its length byte. */
  predicate GoodParams(k: Config, c: Command, params: seq<byte>) {
    if c.NumParamBytes == VAR_PARAM_NUM then params != [] && |params| == params[0] + 1 <= k.maxParams
    else |params| == c.NumParamBytes
  }

  /** ID, parameters, checksum of both. */
  function Packet(c: Command, params: seq<byte>): seq<byte> {
    c.ID + params + [Sum(c.ID + params)]
  }

  /** What a host sends: commands, and NOOPs between them. */
  datatype Sending = Noop | Send(c: Command, params: seq<byte>)

  function ItemBytes(item: Sending): seq<byte> {
    match item case Noop => [0] case Send(c, params) => Packet(c, params)
  }

  function ItemCalls(item: Sending): seq<Call> {
    match item case Noop => [] case Send(c, params) => [Call(c.pFunc, params)]
  }

  function Bytes(items: seq<Sending>): seq<byte> {
    if items == [] then []
    else ItemBytes(items[0]) + Bytes(items[1..])
  }

  function Calls(items: seq<Sending>): seq<Call> {
    if items == [] then []
    else ItemCalls(items[0]) + Calls(items[1..])
  }

  function Noops(items: seq<Sending>): nat {
    if items == [] then 0 else (if items[0].Noop? then 1 else 0) + Noops(items[1..])
  }

  /** The outcome of a run: the parser, the calls made, the NOOPs answered, and whether an error was reported. */
  datatype Ran = Ran(p: Parser, calls: seq<Call>, noops: nat, failed: bool)

  function Feed(k: Config, s: Ran, bytes: seq<byte>): Ran
    requires k.idSize > 0
    requires |s.p.input| >= k.idSize ==> s.p.pCur.Some?
    decreases |bytes|
  {
    if bytes == [] then s
    else Feed(k, Absorb(s, Take(k, s.p, bytes[0])), bytes[1..])
  }

  function Absorb(s: Ran, x: Parsed): Ran {
    Ran(x.p, s.calls + (if x.call.Some? then [x.call.value] else []),
        s.noops + (if x.r.NOOP? then 1 else 0), s.failed || x.r.IsError())
  }

  // ---------------------------------------------------------------- one packet

  /** After the first t bytes of the packet of c. */
  ghost predicate Inside(k: Config, p: Parser, c: Command, params: seq<byte>, t: nat) {
    && Sound(k, p) && c in p.table && GoodParams(k, c, params)
    && t < |Packet(c, params)|
    && p.input == Packet(c, params)[..t]
    && (t >= k.idSize ==> p.pCur == Some(c))
  }

  /** The parser has taken byte t of the packet of c and reported nothing. */
  ghost predicate Stepped(k: Config, p: Parser, x: Parsed, c: Command, b: byte, t: nat) {
    && x.r == NO_ERROR && x.call == None && x.p.input == p.input + [b]
    && (t + 1 >= k.idSize ==> x.p.pCur == Some(c))
  }

  /** The byte that completes the ID finds the command. */
  lemma IdCompletes(k: Config, p: Parser, c: Command, params: seq<byte>)
    requires k.idSize > 0 && Inside(k, p, c, params, k.idSize - 1)
    ensures var b := Packet(c, params)[k.idSize - 1]; Stepped(k, p, Take(k, p, b), c, b, k.idSize - 1)
  {
    FoundIs(p.table, c);
    assert p.input + [Packet(c, params)[k.idSize - 1]] == c.ID;
  }

  /** A byte after the ID, with more to come. */
  lemma ParameterTaken(k: Config, p: Parser, c: Command, params: seq<byte>, t: nat)
    requires Inside(k, p, c, params, t) && k.idSize <= t && t + 1 < |Packet(c, params)|
    ensures var b := Packet(c, params)[t]; Stepped(k, p, Take(k, p, b), c, b, t)
  {
    assert GoodCommand(c, k.idSize, k.maxParams);
    LengthIsKnown(k, c, params);
    if t > k.idSize {
      ParamNumIs(k, p, c, params, t);
    }
  }

  lemma ParamNumIs(k: Config, p: Parser, c: Command, params: seq<byte>, t: nat)
    requires Inside(k, p, c, params, t) && k.idSize < t
    ensures p.ParamNum == ParamNumOf(c, Packet(c, params)[k.idSize])
  {
  }

  /** The byte after the ID tells the length, which is that of the parameters. */
  lemma LengthIsKnown(k: Config, c: Command, params: seq<byte>)
    requires GoodCommand(c, k.idSize, k.maxParams) && GoodParams(k, c, params)
    ensures ParamNumOf(c, Packet(c, params)[k.idSize]) == |params| <= k.maxParams
  {
    assert Packet(c, params)[k.idSize] == (params + [Sum(c.ID + params)])[0];
  }

  /** Any byte but the last takes the parser one further and reports nothing. */
  lemma InsideNext(k: Config, p: Parser, c: Command, params: seq<byte>, t: nat)
    requires Inside(k, p, c, params, t) && t + 1 < |Packet(c, params)|
    ensures var x := Take(k, p, Packet(c, params)[t]);
            Inside(k, x.p, c, params, t + 1) && x.r == NO_ERROR && x.call == None
  {
    var b := Packet(c, params)[t];
    TakeKeeps(k, p, b);
    assert p.input + [b] == Packet(c, params)[..t + 1];
    if t + 1 == k.idSize {
      IdCompletes(k, p, c, params);
    } else if t >= k.idSize {
      ParameterTaken(k, p, c, params, t);
    }
    assert Stepped(k, p, Take(k, p, b), c, b, t);
  }

  /** The last byte is the checksum; the handler runs and the parser is idle again. */
  lemma PacketEnds(k: Config, p: Parser, c: Command, params: seq<byte>, t: nat)
    requires Inside(k, p, c, params, t) && t + 1 == |Packet(c, params)|
    ensures var x := Take(k, p, Packet(c, params)[t]);
            x.p.input == [] && x.r == NO_ERROR && x.call == Some(Call(c.pFunc, params))
  {
    var b, whole := Packet(c, params)[t], Packet(c, params);
    LengthIsKnown(k, c, params);
    assert p.input + [b] == whole;
    assert whole[..t] == c.ID + params && whole[k.idSize..t] == params;
  }

  /** The rest of a packet, from byte t on. */
  lemma {:induction false} FeedRest(k: Config, s: Ran, c: Command, params: seq<byte>, t: nat)
    requires Inside(k, s.p, c, params, t)
    ensures var f := Feed(k, s, Packet(c, params)[t..]);
            && Sound(k, f.p) && f.p.input == [] && (forall d :: d in f.p.table <==> d in s.p.table)
            && f.calls == s.calls + [Call(c.pFunc, params)] && f.noops == s.noops && f.failed == s.failed
    decreases |Packet(c, params)| - t
  {
    var whole := Packet(c, params);
    var x := Take(k, s.p, whole[t]);
    TakeKeeps(k, s.p, whole[t]);
    assert whole[t..][1..] == whole[t + 1..];
    if t + 1 == |whole| {
      PacketEnds(k, s.p, c, params, t);
    } else {
      InsideNext(k, s.p, c, params, t);
      assert s.calls + [] == s.calls;
      FeedRest(k, Absorb(s, x), c, params, t + 1);
    }
  }

  lemma {:induction false} FeedConcat(k: Config, s: Ran, p: seq<byte>, q: seq<byte>)
    requires Sound(k, s.p)
    ensures Sound(k, Feed(k, s, p).p) && Feed(k, s, p + q) == Feed(k, Feed(k, s, p), q)
    decreases |p|
  {
    if p == [] {
      assert p + q == q;
    } else {
      TakeKeeps(k, s.p, p[0]);
      assert (p + q)[1..] == p[1..] + q;
      FeedConcat(k, Absorb(s, Take(k, s.p, p[0])), p[1..], q);
    }
  }

  /** The commands of a sending are registered and their parameters fit. */
  ghost predicate Sendable(k: Config, table: seq<Command>, items: seq<Sending>) {
    forall i :: 0 <= i < |items| ==> Fits(k, table, items[i])
  }

  predicate Fits(k: Config, table: seq<Command>, item: Sending) {
    item.Send? ==> item.c in table && GoodParams(k, item.c, item.params)
  }

  lemma SendableRest(k: Config, t: seq<Command>, u: seq<Command>, items: seq<Sending>)
    requires Sendable(k, t, items) && items != [] && forall c :: c in u <==> c in t
    ensures Sendable(k, u, items[1..])
  {
  }

  /** One item, from an idle parser to an idle parser. */
  lemma FeedItem(k: Config, s: Ran, item: Sending)
    requires Sound(k, s.p) && s.p.input == [] && Fits(k, s.p.table, item)
    ensures var f := Feed(k, s, ItemBytes(item));
            && Sound(k, f.p) && f.p.input == [] && (forall d :: d in f.p.table <==> d in s.p.table)
            && f.calls == s.calls + ItemCalls(item) && f.noops == s.noops + (if item.Noop? then 1 else 0)
            && f.failed == s.failed
  {
    assert s.calls + [] == s.calls;
    match item
    case Noop =>
      assert Feed(k, s, [0]) == Absorb(s, Take(k, s.p, 0));
    case Send(c, params) =>
      assert Packet(c, params)[..0] == [] && Packet(c, params)[0..] == Packet(c, params);
      FeedRest(k, s, c, params, 0);
  }

  /** From an idle parser to an idle parser: just these handlers, NOOPs, and no error. */
  ghost predicate Handled(k: Config, s: Ran, f: Ran, items: seq<Sending>) {
    && Sound(k, f.p) && f.p.input == [] && (forall d :: d in f.p.table <==> d in s.p.table)
    && f.calls == s.calls + Calls(items) && f.noops == s.noops + Noops(items) && f.failed == s.failed
  }

  lemma HandledThen(k: Config, s: Ran, f: Ran, g: Ran, items: seq<Sending>)
    requires items != [] && Handled(k, s, f, [items[0]]) && Handled(k, f, g, items[1..])
    ensures Handled(k, s, g, items)
  {
    CallsOfOne(items[0]);
    assert s.calls + ItemCalls(items[0]) + Calls(items[1..]) == s.calls + (ItemCalls(items[0]) + Calls(items[1..]));
  }

  lemma CallsOfOne(item: Sending)
    ensures Calls([item]) == ItemCalls(item) && Noops([item]) == if item.Noop? then 1 else 0
    ensures Bytes([item]) == ItemBytes(item)
  {
    assert [item][1..] == [];
  }

  /**
   Round trip: the documented encoding of any commands, with NOOPs between them, runs exactly
   those handlers with exactly those parameters, in order; each NOOP is answered; no error is
   reported; and the parser is idle at the end.
   */
  lemma {:induction false} RoundTrip(k: Config, s: Ran, items: seq<Sending>)
    requires Sound(k, s.p) && s.p.input == [] && Sendable(k, s.p.table, items)
    ensures Handled(k, s, Feed(k, s, Bytes(items)), items)
    decreases |items|
  {
    if items == [] {
      assert s.calls + [] == s.calls;
    } else {
      var f := Feed(k, s, ItemBytes(items[0]));
      FeedItem(k, s, items[0]);
      CallsOfOne(items[0]);
      RoundTripRest(k, s, f, items);
      HandledThen(k, s, f, Feed(k, f, Bytes(items[1..])), items);
      FeedConcat(k, s, ItemBytes(items[0]), Bytes(items[1..]));
    }
  }

  lemma RoundTripRest(k: Config, s: Ran, f: Ran, items: seq<Sending>)
    requires items != [] && Sendable(k, s.p.table, items) && Handled(k, s, f, [items[0]])
    ensures Handled(k, f, Feed(k, f, Bytes(items[1..])), items[1..])
    decreases |items|, 0
  {
    SendableRest(k, s.p.table, f.p.table, items);
    RoundTrip(k, f, items[1..]);
  }

  // ---------------------------------------------------------------- nothing else runs a handler

  /** c with these parameters, or c with a length byte of 255, which is taken for the checksum. */
  predicate Executable(k: Config, c: Command, params: seq<byte>, whole: seq<byte>) {
    && |c.ID| == k.idSize && whole == Packet(c, params)
    && (GoodParams(k, c, params) || (c.NumParamBytes == VAR_PARAM_NUM && params == [] && whole[k.idSize] == 255))
  }

  /** A handler runs on the checksum byte, and with all that follows the ID. */
  lemma RunsOnChecksum(k: Config, p: Parser, b: byte)
    requires Sound(k, p)
    ensures var x := Take(k, p, b);
            x.call.Some? ==>
              && |p.input| >= k.idSize && b == Sum(p.input)
              && x.call.value == Call(p.pCur.value.pFunc, p.input[k.idSize..])
              && |p.input| == k.idSize + ParamNumOf(p.pCur.value, (p.input + [b])[k.idSize]) <= k.idSize + k.maxParams
  {
    var whole := p.input + [b];
    assert whole[..|p.input|] == p.input;
    if |p.input| >= k.idSize {
      assert whole[k.idSize..|p.input|] == p.input[k.idSize..];
    }
  }

  /** A byte makes a handler run only when it completes a valid packet of a registered command. */
  lemma OnlyPackets(k: Config, p: Parser, b: byte)
    requires Sound(k, p)
    ensures var x := Take(k, p, b);
            x.call.Some? ==>
              && p.pCur.Some? && p.pCur.value in p.table && x.call.value.pFunc == p.pCur.value.pFunc
              && Executable(k, p.pCur.value, x.call.value.params, p.input + [b])
  {
    RunsOnChecksum(k, p, b);
    if Take(k, p, b).call.Some? {
      PacketIs(p.pCur.value, p.input, b, k.idSize);
      ParamsFit(k, p.pCur.value, p.input[k.idSize..], p.input + [b]);
    }
  }

  lemma PacketIs(c: Command, input: seq<byte>, b: byte, idSize: nat)
    requires idSize <= |input| && input[..idSize] == c.ID && b == Sum(input)
    ensures |c.ID| == idSize && input + [b] == Packet(c, input[idSize..])
  {
    assert input == c.ID + input[idSize..];
  }

  lemma ParamsFit(k: Config, c: Command, params: seq<byte>, whole: seq<byte>)
    requires |c.ID| == k.idSize && whole == Packet(c, params)
    requires |params| == ParamNumOf(c, whole[k.idSize]) <= k.maxParams
    ensures Executable(k, c, params, whole)
  {
    if c.NumParamBytes == VAR_PARAM_NUM && params != [] {
      assert whole[k.idSize] == (params + [Sum(c.ID + params)])[0] == params[0];
    }
  }

  /** t is the end of s. */
  predicate Ends(t: seq<byte>, s: seq<byte>) { |t| <= |s| && s[|s| - |t|..] == t }

  lemma TakeIsRecent(k: Config, p: Parser, b: byte, before: seq<byte>)
    requires Sound(k, p) && Ends(p.input, before)
    ensures Ends(Take(k, p, b).p.input, before + [b])
  {
  }

  lemma FirstByte(before: seq<byte>, bytes: seq<byte>)
    requires bytes != []
    ensures before + [bytes[0]] + bytes[1..] == before + bytes
  {
  }

  /** What the parser holds is always the latest bytes, so the packet that ran was on the line as it is. */
  lemma {:induction false} InputIsRecent(k: Config, s: Ran, bytes: seq<byte>, before: seq<byte>)
    requires Sound(k, s.p) && Ends(s.p.input, before)
    ensures Ends(Feed(k, s, bytes).p.input, before + bytes)
    decreases |bytes|
  {
    if bytes == [] {
      assert before + bytes == before;
    } else {
      var t := Absorb(s, Take(k, s.p, bytes[0]));
      TakeKeeps(k, s.p, bytes[0]);
      TakeIsRecent(k, s.p, bytes[0], before);
      InputIsRecent(k, t, bytes[1..], before + [bytes[0]]);
      assert Feed(k, s, bytes) == Feed(k, t, bytes[1..]);
      FirstByte(before, bytes);
    }
  }

  /** Whatever was received: a handler that runs on a byte was sent for, by the bytes up to it. */
  lemma EveryCallWasSent(k: Config, s: Ran, bytes: seq<byte>, b: byte)
    requires Sound(k, s.p) && s.p.input == []
    ensures Sound(k, Feed(k, s, bytes).p)
    ensures var x := Take(k, Feed(k, s, bytes).p, b);
            x.call.Some? ==> exists c :: c in Feed(k, s, bytes).p.table && x.call.value.pFunc == c.pFunc
                                      && SentFor(k, c, x.call.value.params, bytes + [b])
  {
    FeedConcat(k, s, bytes, []);
    InputIsRecent(k, s, bytes, []);
    assert [] + bytes == bytes;
    var p := Feed(k, s, bytes).p;
    OnlyPackets(k, p, b);
    if Take(k, p, b).call.Some? {
      EndsMore(p.input, bytes, b);
      assert SentFor(k, p.pCur.value, Take(k, p, b).call.value.params, bytes + [b]);
    }
  }

  lemma EndsMore(t: seq<byte>, s: seq<byte>, b: byte)
    requires Ends(t, s)
    ensures Ends(t + [b], s + [b])
  {
  }

  predicate SentFor(k: Config, c: Command, params: seq<byte>, line: seq<byte>) {
    Executable(k, c, params, Packet(c, params)) && Ends(Packet(c, params), line)
  }

  // ---------------------------------------------------------------- every call of a run

  /** Where on the line a packet starts, and whose it is. */
  datatype Place = Place(at: nat, c: Command)

  function PlaceEnd(place: Place, call: Call): nat { place.at + |Packet(place.c, call.params)| }

  /** The call was sent for by the packet there. */
  predicate PlacedAt(k: Config, table: seq<Command>, line: seq<byte>, place: Place, call: Call) {
    && place.c in table && call.pFunc == place.c.pFunc
    && Executable(k, place.c, call.params, Packet(place.c, call.params))
    && PlaceEnd(place, call) <= |line| && line[place.at..PlaceEnd(place, call)] == Packet(place.c, call.params)
  }

  /** Every call was sent for by a packet of its own; the packets do not overlap and are in the same order. */
  ghost predicate FromPackets(k: Config, table: seq<Command>, line: seq<byte>, places: seq<Place>, calls: seq<Call>) {
    && |places| == |calls|
    && (forall i :: 0 <= i < |places| ==> PlacedAt(k, table, line, places[i], calls[i]))
    && (forall i, j :: 0 <= i < j < |places| ==> PlaceEnd(places[i], calls[i]) <= places[j].at)
  }

  /** All of them lie before what the parser holds, which is the end of the line. */
  ghost predicate Accounted(k: Config, table: seq<Command>, s: Ran, line: seq<byte>, places: seq<Place>) {
    && Sound(k, s.p) && (forall c :: c in s.p.table <==> c in table)
    && FromPackets(k, table, line, places, s.calls)
    && Ends(s.p.input, line)
    && forall i :: 0 <= i < |places| ==> PlaceEnd(places[i], s.calls[i]) <= |line| - |s.p.input|
  }

  lemma PlacedMore(k: Config, table: seq<Command>, line: seq<byte>, b: byte, place: Place, call: Call)
    requires PlacedAt(k, table, line, place, call)
    ensures PlacedAt(k, table, line + [b], place, call)
  {
    assert (line + [b])[place.at..PlaceEnd(place, call)] == line[place.at..PlaceEnd(place, call)];
  }

  lemma FromPacketsMore(k: Config, table: seq<Command>, line: seq<byte>, b: byte, places: seq<Place>, calls: seq<Call>)
    requires FromPackets(k, table, line, places, calls)
    ensures FromPackets(k, table, line + [b], places, calls)
  {
    forall i | 0 <= i < |places|
      ensures PlacedAt(k, table, line + [b], places[i], calls[i])
    {
      PlacedMore(k, table, line, b, places[i], calls[i]);
    }
  }

  /** The packet that the byte completes is the end of the line. */
  lemma CallPlaced(k: Config, table: seq<Command>, s: Ran, line: seq<byte>, places: seq<Place>, b: byte)
    requires Accounted(k, table, s, line, places) && Take(k, s.p, b).call.Some?
    ensures var place := Place(|line| - |s.p.input|, s.p.pCur.value);
            PlacedAt(k, table, line + [b], place, Take(k, s.p, b).call.value)
            && PlaceEnd(place, Take(k, s.p, b).call.value) == |line| + 1
    ensures s.p.pCur.Some? && Take(k, s.p, b).p.input == []
  {
    OnlyPackets(k, s.p, b);
    EndsMore(s.p.input, line, b);
  }

  /** One more byte. */
  lemma AccountedNext(k: Config, table: seq<Command>, s: Ran, line: seq<byte>, places: seq<Place>, b: byte)
    returns (places': seq<Place>)
    requires Accounted(k, table, s, line, places)
    ensures Accounted(k, table, Absorb(s, Take(k, s.p, b)), line + [b], places')
  {
    TakeKeeps(k, s.p, b);
    TakeIsRecent(k, s.p, b, line);
    FromPacketsMore(k, table, line, b, places, s.calls);
    if Take(k, s.p, b).call.Some? {
      CallPlaced(k, table, s, line, places, b);
      places' := places + [Place(|line| - |s.p.input|, s.p.pCur.value)];
    } else {
      places' := places;
      assert s.calls + [] == s.calls;
    }
  }

  /** Whatever was received, all calls of a run come from packets on the line, disjoint and in order. */
  lemma {:induction false} CallsFromPackets(k: Config, s: Ran, bytes: seq<byte>) returns (places: seq<Place>)
    requires Sound(k, s.p) && s.p.input == [] && s.calls == []
    ensures Sound(k, Feed(k, s, bytes).p) && Accounted(k, s.p.table, Feed(k, s, bytes), bytes, places)
    decreases |bytes|
  {
    if bytes == [] {
      places := [];
    } else {
      var before, b := bytes[..|bytes| - 1], bytes[|bytes| - 1];
      places := CallsFromPackets(k, s, before);
      FeedLast(k, s, before, b);
      assert before + [b] == bytes;
      places := AccountedFed(k, s.p.table, Feed(k, s, before), Feed(k, s, bytes), before, bytes, places, b);
    }
  }

  lemma AccountedFed(
      k: Config, table: seq<Command>, s: Ran, t: Ran, line: seq<byte>, longer: seq<byte>, places: seq<Place>, b: byte)
    returns (places': seq<Place>)
    requires Accounted(k, table, s, line, places) && t == Absorb(s, Take(k, s.p, b)) && longer == line + [b]
    ensures Sound(k, t.p) && Accounted(k, table, t, longer, places')
  {
    places' := AccountedNext(k, table, s, line, places, b);
  }

  lemma FeedLast(k: Config, s: Ran, bytes: seq<byte>, b: byte)
    requires Sound(k, s.p) && Sound(k, Feed(k, s, bytes).p)
    ensures Feed(k, s, bytes + [b]) == Absorb(Feed(k, s, bytes), Take(k, Feed(k, s, bytes).p, b))
  {
    FeedConcat(k, s, bytes, [b]);
    assert [b][1..] == [];
  }

  /**
   A length byte of 255 wraps to no parameters at all: the length byte itself is taken for the
   checksum, and the handler runs exactly when the ID adds up to 255.
   */
  lemma LengthByte255(k: Config, p: Parser, c: Command)
    requires Sound(k, p) && c in p.table && c.NumParamBytes == VAR_PARAM_NUM
    requires p.input == c.ID && p.pCur == Some(c)
    ensures var x := ParseByte(k, p, 255);
            if Sum(c.ID) == 255 then x.call == Some(Call(c.pFunc, [])) && x.r == NO_ERROR && x.p.input == []
            else x.call == None && x.r == BAD_CHECKSUM
  {
    var input := p.input + [255];
    assert input[..k.idSize + 0] == c.ID && input[k.idSize..k.idSize + 0] == [];
  }
}
