/**
 The protocol between the writers of Port.hpp and its transmit interrupt, as a state machine:
 a queue of bytes in which `esc` stands for the next entry of a queue of blocks.
 */
module PortSpec {
  import opened Options
  import opened Words

  type Callback = nat

  /** Size == 0 marks a literal `esc` byte; the other two fields are then left over from before. */
  datatype BlockInfo = BlockInfo(Ptr: seq<byte>, Size: nat, pReleaseFunc: Option<Callback>) {
    predicate Live() { Size == 0 || Size == |Ptr| }

    function Data(): seq<byte> { if Size == 0 then [] else Ptr }
  }

  /** What an observer of the line and of the callbacks sees. */
  datatype Event = Byte(b: byte) | Release(f: Callback)

  /** What a writer was promised. */
  datatype Item = Single(d: byte) | Block(data: seq<byte>, release: Option<Callback>)

  function Bytes(data: seq<byte>): seq<Event> { seq(|data|, i requires 0 <= i < |data| => Byte(data[i])) }

  function Releases(f: Option<Callback>): seq<Event> { if f.Some? then [Release(f.value)] else [] }

  /** A block's bytes, then its callback, once. */
  function ItemEvents(x: Item): seq<Event> {
    match x
    case Single(d) => [Byte(d)]
    case Block(data, f) => Bytes(data) + Releases(f)
  }

  function Events(items: seq<Item>): seq<Event> {
    if items == [] then [] else Events(items[..|items| - 1]) + ItemEvents(items[|items| - 1])
  }

  /** What an entry of the block queue stands for. */
  function EntryItem(esc: byte, e: BlockInfo): Item {
    if e.Size == 0 then Single(esc) else Block(e.Ptr, e.pReleaseFunc)
  }

  function Markers(esc: byte, q: seq<byte>): nat {
    if q == [] then 0 else (if q[0] == esc then 1 else 0) + Markers(esc, q[1..])
  }

  function Expand(esc: byte, q: seq<byte>, b: seq<BlockInfo>): seq<Event>
    requires Markers(esc, q) <= |b|
  {
    if q == [] then []
    else if q[0] != esc then [Byte(q[0])] + Expand(esc, q[1..], b)
    else ItemEvents(EntryItem(esc, b[0])) + Expand(esc, q[1..], b[1..])
  }

  /**
   `cur` is pCurByteInBlock as an offset, `sent` is LastSentIsBlock, and `owed` says that the
   producer was interrupted between queueing a block and queueing its marker.
   */
  datatype State = State(
    esc: byte, q: seq<byte>, b: seq<BlockInfo>, cur: Option<nat>, sent: bool, owed: bool,
    items: seq<Item>, log: seq<Event>)
  {
    function InProgress(): nat { if cur.Some? || sent then 1 else 0 }

    ghost predicate Shape() {
      && |b| == Markers(esc, q) + InProgress() + (if owed then 1 else 0)
      && (forall i :: 0 <= i < |b| ==> b[i].Live())
      && !(cur.Some? && sent)
      && (InProgress() == 1 ==> b[0].Size > 0)
      && (cur.Some? ==> cur.value < b[0].Size)
    }

    /** The blocks still waiting for their marker to be reached. */
    function Waiting(): seq<BlockInfo>
      requires |b| >= InProgress()
    {
      if cur.Some? || sent then b[1..] else b
    }

    /** What remains of the block in progress. */
    ghost function Current(): seq<Event>
      requires Shape()
    {
      if cur.Some? then Bytes(b[0].Ptr[cur.value + 1..]) + Releases(b[0].pReleaseFunc)
      else if sent then Releases(b[0].pReleaseFunc)
      else []
    }

    /** Everything promised that is not on the line yet. */
    ghost function Pending(): seq<Event>
      requires Shape()
    {
      Current() + Expand(esc, q, Waiting())
    }

    ghost predicate Inv() {
      Shape() && log + Pending() == Events(items)
    }
  }

  // ---------------------------------------------------------------- the producer's updates

  function PutByte(s: State, d: byte): State {
    s.(q := s.q + [d], items := s.items + [Single(d)])
  }

  function PutBlock(s: State, e: BlockInfo): State {
    s.(b := s.b + [e], owed := true)
  }

  function PutMarker(s: State): State
    requires s.b != []
  {
    s.(q := s.q + [s.esc], owed := false, items := s.items + [EntryItem(s.esc, s.b[|s.b| - 1])])
  }

  // ---------------------------------------------------------------- the two consumers

  /** FinishedReading on the block queue, running the block's callback first. */
  function Finish(s: State): State
    requires s.b != []
  {
    s.(b := s.b[1..], cur := None, sent := false, log := s.log + Releases(s.b[0].pReleaseFunc))
  }

  /** GetByteToSend. */
  function GetByte(s: State): (State, Option<byte>)
    requires s.Shape() && !s.sent
  {
    if s.cur.Some? && s.cur.value + 1 != s.b[0].Size then
      var c := s.b[0].Ptr[s.cur.value + 1];
      (s.(cur := Some(s.cur.value + 1), log := s.log + [Byte(c)]), Some(c))
    else
      NextByte(if s.cur.Some? then Finish(s) else s)
  }

  /** GetByteToSend outside a block; the contract says a marker finds its block in the queue. */
  function NextByte(s: State): (State, Option<byte>)
    requires s.cur.None? && (s.q != [] && s.q[0] == s.esc ==> s.b != [] && s.b[0].Live())
  {
    if s.q == [] then (s, None)
    else if s.q[0] != s.esc then
      (s.(q := s.q[1..], log := s.log + [Byte(s.q[0])]), Some(s.q[0]))
    else if s.b[0].Size == 0 then
      (s.(q := s.q[1..], b := s.b[1..], log := s.log + [Byte(s.esc)]), Some(s.esc))
    else
      (s.(q := s.q[1..], cur := Some(0), log := s.log + [Byte(s.b[0].Ptr[0])]), Some(s.b[0].Ptr[0]))
  }

  /** GetBlockToSend; the bytes count as handed out when their address is. */
  function GetBlock(s: State): (State, Option<seq<byte>>)
    requires s.Shape() && s.cur.None?
  {
    NextBlock(if s.sent then Finish(s) else s)
  }

  function NextBlock(s: State): (State, Option<seq<byte>>)
    requires !s.sent && (s.q != [] && s.q[0] == s.esc ==> s.b != [] && s.b[0].Live())
  {
    if s.q == [] then (s, None)
    else if s.q[0] != s.esc then
      (s.(q := s.q[1..], log := s.log + [Byte(s.q[0])]), Some([s.q[0]]))
    else if s.b[0].Size == 0 then
      (s.(q := s.q[1..], b := s.b[1..], log := s.log + [Byte(s.esc)]), Some([s.esc]))
    else
      (s.(q := s.q[1..], sent := true, log := s.log + Bytes(s.b[0].Ptr)), Some(s.b[0].Ptr))
  }

  // ---------------------------------------------------------------- proofs

  lemma {:induction false} MarkersAppend(esc: byte, q: seq<byte>, d: byte)
    ensures Markers(esc, q + [d]) == Markers(esc, q) + (if d == esc then 1 else 0)
  {
    if q != [] {
      assert (q + [d])[1..] == q[1..] + [d];
      MarkersAppend(esc, q[1..], d);
    }
  }

  /** A block nobody points to yet changes nothing. */
  lemma {:induction false} ExpandMoreBlocks(esc: byte, q: seq<byte>, b: seq<BlockInfo>, e: BlockInfo)
    requires Markers(esc, q) <= |b|
    ensures Expand(esc, q, b + [e]) == Expand(esc, q, b)
  {
    if q != [] {
      if q[0] == esc {
        assert (b + [e])[1..] == b[1..] + [e];
        ExpandMoreBlocks(esc, q[1..], b[1..], e);
      } else {
        ExpandMoreBlocks(esc, q[1..], b, e);
      }
    }
  }

  lemma {:induction false} ExpandByte(esc: byte, q: seq<byte>, b: seq<BlockInfo>, d: byte)
    requires Markers(esc, q) <= |b| && d != esc
    ensures Markers(esc, q + [d]) <= |b|
    ensures Expand(esc, q + [d], b) == Expand(esc, q, b) + [Byte(d)]
  {
    MarkersAppend(esc, q, d);
    if q == [] {
      assert (q + [d])[1..] == [];
    } else {
      assert (q + [d])[1..] == q[1..] + [d];
      ExpandByte(esc, q[1..], if q[0] == esc then b[1..] else b, d);
    }
  }

  /** The marker that is appended stands for the newest block. */
  lemma {:induction false} ExpandMarker(esc: byte, q: seq<byte>, b: seq<BlockInfo>)
    requires Markers(esc, q) + 1 == |b|
    ensures Markers(esc, q + [esc]) == |b|
    ensures Expand(esc, q + [esc], b) == Expand(esc, q, b) + ItemEvents(EntryItem(esc, b[|b| - 1]))
  {
    MarkersAppend(esc, q, esc);
    if q == [] {
      assert (q + [esc])[1..] == [];
    } else {
      assert (q + [esc])[1..] == q[1..] + [esc];
      var x := ItemEvents(EntryItem(esc, b[|b| - 1]));
      if q[0] == esc {
        ExpandMarker(esc, q[1..], b[1..]);
        Assoc(ItemEvents(EntryItem(esc, b[0])), Expand(esc, q[1..], b[1..]), x);
      } else {
        ExpandMarker(esc, q[1..], b);
        Assoc([Byte(q[0])], Expand(esc, q[1..], b), x);
      }
    }
  }

  lemma EventsAppend(items: seq<Item>, x: Item)
    ensures Events(items + [x]) == Events(items) + ItemEvents(x)
  {
    assert (items + [x])[..|items|] == items;
  }

  lemma Assoc<T>(a: seq<T>, b: seq<T>, c: seq<T>)
    ensures (a + b) + c == a + (b + c)
  {
  }

  /** Promising x more at the end of the queue. */
  lemma PendingGrows(s: State, t: State, x: seq<Event>)
    requires s.Inv() && t.Shape() && t.log == s.log && t.Current() == s.Current()
    requires Expand(t.esc, t.q, t.Waiting()) == Expand(s.esc, s.q, s.Waiting()) + x
    requires Events(t.items) == Events(s.items) + x
    ensures t.Inv()
  {
    Assoc(s.Current(), Expand(s.esc, s.q, s.Waiting()), x);
    Assoc(s.log, s.Pending(), x);
  }

  lemma PutByteShape(s: State, d: byte)
    requires s.Shape() && d != s.esc
    ensures PutByte(s, d).Shape() && PutByte(s, d).Current() == s.Current()
    ensures PutByte(s, d).Waiting() == s.Waiting()
  {
    MarkersAppend(s.esc, s.q, d);
  }

  lemma PutByteKeeps(s: State, d: byte)
    requires s.Inv() && d != s.esc
    ensures PutByte(s, d).Inv()
  {
    PutByteShape(s, d);
    ExpandByte(s.esc, s.q, s.Waiting(), d);
    EventsAppend(s.items, Single(d));
    PendingGrows(s, PutByte(s, d), [Byte(d)]);
  }

  lemma PutBlockShape(s: State, e: BlockInfo)
    requires s.Shape() && !s.owed && e.Live()
    ensures PutBlock(s, e).Shape() && PutBlock(s, e).Current() == s.Current()
    ensures PutBlock(s, e).Waiting() == s.Waiting() + [e]
  {
  }

  lemma PutBlockKeeps(s: State, e: BlockInfo)
    requires s.Inv() && !s.owed && e.Live()
    ensures PutBlock(s, e).Inv()
  {
    PutBlockShape(s, e);
    ExpandMoreBlocks(s.esc, s.q, s.Waiting(), e);
  }

  lemma PutMarkerShape(s: State)
    requires s.Shape() && s.owed
    ensures PutMarker(s).Shape() && PutMarker(s).Current() == s.Current()
    ensures PutMarker(s).Waiting() == s.Waiting()
    ensures s.Waiting() != [] && s.Waiting()[|s.Waiting()| - 1] == s.b[|s.b| - 1]
  {
    MarkersAppend(s.esc, s.q, s.esc);
  }

  lemma PutMarkerKeeps(s: State)
    requires s.Inv() && s.owed
    ensures PutMarker(s).Inv()
  {
    var x := EntryItem(s.esc, s.b[|s.b| - 1]);
    PutMarkerShape(s);
    ExpandMarker(s.esc, s.q, s.Waiting());
    EventsAppend(s.items, x);
    PendingGrows(s, PutMarker(s), ItemEvents(x));
  }

  /** write_unbuffered_ as one step of the producer. */
  function PutEntry(s: State, e: BlockInfo): State {
    PutMarker(PutBlock(s, e))
  }

  lemma PutEntryKeeps(s: State, e: BlockInfo)
    requires s.Inv() && !s.owed && e.Live()
    ensures PutEntry(s, e).Inv()
  {
    PutBlockKeeps(s, e);
    PutMarkerKeeps(PutBlock(s, e));
  }

  /** Handing out the head of what is pending. */
  lemma HandOut(s: State, t: State, e: seq<Event>)
    requires s.Inv() && t.Shape() && t.items == s.items
    requires t.log == s.log + e && s.Pending() == e + t.Pending()
    ensures t.Inv()
  {
    Assoc(s.log, e, t.Pending());
  }

  lemma FinishShape(s: State)
    requires s.Shape() && s.InProgress() == 1
    ensures Finish(s).Shape() && Finish(s).InProgress() == 0 && Finish(s).Current() == []
    ensures Finish(s).Waiting() == s.Waiting()
  {
  }

  /** All bytes of the block are out: only its callback is left. */
  lemma OnlyCallbackLeft(s: State)
    requires s.Shape() && s.InProgress() == 1
    requires s.cur.Some? ==> s.cur.value + 1 == s.b[0].Size
    ensures s.Current() == Releases(s.b[0].pReleaseFunc)
  {
    if s.cur.Some? {
      assert s.b[0].Ptr[s.cur.value + 1..] == [];
      assert Bytes([]) == [];
    }
  }

  lemma FinishPending(s: State)
    requires s.Shape() && s.InProgress() == 1
    requires s.cur.Some? ==> s.cur.value + 1 == s.b[0].Size
    ensures Finish(s).Shape() && s.Pending() == Releases(s.b[0].pReleaseFunc) + Finish(s).Pending()
  {
    FinishShape(s);
    OnlyCallbackLeft(s);
  }

  lemma FinishKeeps(s: State)
    requires s.Inv() && s.InProgress() == 1
    requires s.cur.Some? ==> s.cur.value + 1 == s.b[0].Size
    ensures Finish(s).Inv() && Finish(s).InProgress() == 0
  {
    FinishPending(s);
    HandOut(s, Finish(s), Releases(s.b[0].pReleaseFunc));
  }

  lemma BytesHead(p: seq<byte>)
    requires p != []
    ensures Bytes(p) == [Byte(p[0])] + Bytes(p[1..])
  {
  }

  lemma OneByte(b: byte)
    ensures Bytes([b]) == [Byte(b)]
  {
  }

  /** Reading an ordinary byte hands it out. */
  lemma ByteNext(s: State)
    requires s.Shape() && s.InProgress() == 0 && s.q != [] && s.q[0] != s.esc
    ensures NextByte(s).0.Shape() && NextBlock(s).0.Shape()
    ensures s.Pending() == [Byte(s.q[0])] + NextByte(s).0.Pending()
    ensures s.Pending() == [Byte(s.q[0])] + NextBlock(s).0.Pending()
  {
  }

  /** Reading the marker of a literal hands out `esc`. */
  lemma LiteralNext(s: State)
    requires s.Shape() && s.InProgress() == 0 && s.q != [] && s.q[0] == s.esc && s.b[0].Size == 0
    ensures NextByte(s).0.Shape() && NextBlock(s).0.Shape()
    ensures s.Pending() == [Byte(s.esc)] + NextByte(s).0.Pending()
    ensures s.Pending() == [Byte(s.esc)] + NextBlock(s).0.Pending()
  {
  }

  /** Reading the marker of a block hands out its first byte and leaves the rest in progress. */
  lemma BlockStarts(s: State)
    requires s.Shape() && s.InProgress() == 0 && s.q != [] && s.q[0] == s.esc && s.b[0].Size != 0
    ensures NextByte(s).0.Shape()
    ensures s.Pending() == [Byte(s.b[0].Ptr[0])] + NextByte(s).0.Pending()
  {
    var t := NextByte(s).0;
    var first, rest := [Byte(s.b[0].Ptr[0])], Bytes(s.b[0].Ptr[1..]);
    BytesHead(s.b[0].Ptr);
    Assoc(first, rest, Releases(s.b[0].pReleaseFunc));
    Assoc(first, t.Current(), Expand(t.esc, t.q, t.Waiting()));
  }

  /** ... or, block-wise, all its bytes, and leaves the callback. */
  lemma WholeBlockNext(s: State)
    requires s.Shape() && s.InProgress() == 0 && s.q != [] && s.q[0] == s.esc && s.b[0].Size != 0
    ensures NextBlock(s).0.Shape()
    ensures s.Pending() == Bytes(s.b[0].Ptr) + NextBlock(s).0.Pending()
  {
    var t := NextBlock(s).0;
    Assoc(Bytes(s.b[0].Ptr), Releases(s.b[0].pReleaseFunc), Expand(t.esc, t.q, t.Waiting()));
  }

  /** The line after handing out `data`, or nothing when nothing is pending. */
  ghost predicate Handed(s: State, t: State, data: Option<seq<byte>>)
    requires s.Shape()
  {
    && t.Inv()
    && t.items == s.items
    && (data.None? <==> s.Pending() == [])
    && (if data.None? then t == s else data.value != [] && t.log == s.log + Bytes(data.value))
  }

  lemma NextByteKeeps(s: State)
    requires s.Inv() && s.InProgress() == 0
    ensures var (t, c) := NextByte(s);
            Handed(s, t, if c.Some? then Some([c.value]) else None)
  {
    if s.q != [] {
      var (t, c) := NextByte(s);
      if s.q[0] != s.esc {
        ByteNext(s);
      } else if s.b[0].Size == 0 {
        LiteralNext(s);
      } else {
        BlockStarts(s);
      }
      assert Bytes([c.value]) == [Byte(c.value)];
      HandOut(s, t, [Byte(c.value)]);
    }
  }

  lemma NextBlockKeeps(s: State)
    requires s.Inv() && s.InProgress() == 0
    ensures var (t, c) := NextBlock(s);
            Handed(s, t, c)
  {
    if s.q != [] {
      var (t, c) := NextBlock(s);
      assert Bytes([s.q[0]]) == [Byte(s.q[0])];
      if s.q[0] != s.esc {
        ByteNext(s);
      } else if s.b[0].Size == 0 {
        LiteralNext(s);
      } else {
        WholeBlockNext(s);
      }
      HandOut(s, t, Bytes(c.value));
    }
  }

  /** The state once the callback of a block that is over, if any, has run. */
  function Settled(s: State): State
    requires s.Shape()
  {
    if s.sent || (s.cur.Some? && s.cur.value + 1 == s.b[0].Size) then Finish(s) else s
  }

  lemma GetByteKeeps(s: State)
    requires s.Inv() && !s.sent
    ensures Settled(s).Inv() && !GetByte(s).0.sent
    ensures var (t, c) := GetByte(s);
            Handed(Settled(s), t, if c.Some? then Some([c.value]) else None)
  {
    if s.cur.Some? && s.cur.value + 1 != s.b[0].Size {
      BlockContinues(s);
    } else if s.cur.Some? {
      FinishKeeps(s);
      NextByteKeeps(Finish(s));
    } else {
      NextByteKeeps(s);
    }
  }

  lemma BlockContinuesShape(s: State)
    requires s.Shape() && s.cur.Some? && s.cur.value + 1 != s.b[0].Size
    ensures var (t, c) := GetByte(s);
            && t.Shape() && t.Waiting() == s.Waiting() && t.items == s.items && t.q == s.q
            && c.Some? && t.log == s.log + Bytes([c.value]) && s.Current() == Bytes([c.value]) + t.Current()
  {
    var (t, c) := GetByte(s);
    var p := s.b[0].Ptr[s.cur.value + 1..];
    OneByte(c.value);
    BytesHead(p);
    assert p[1..] == t.b[0].Ptr[t.cur.value + 1..];
    Assoc([Byte(p[0])], Bytes(p[1..]), Releases(s.b[0].pReleaseFunc));
  }

  lemma BlockContinues(s: State)
    requires s.Inv() && s.cur.Some? && s.cur.value + 1 != s.b[0].Size
    ensures Handed(s, GetByte(s).0, Some([GetByte(s).1.value]))
  {
    var (t, c) := GetByte(s);
    BlockContinuesShape(s);
    OneByte(c.value);
    Assoc(Bytes([c.value]), t.Current(), Expand(t.esc, t.q, t.Waiting()));
    HandOut(s, t, Bytes([c.value]));
  }

  lemma GetBlockKeeps(s: State)
    requires s.Inv() && s.cur.None?
    ensures Settled(s).Inv() && GetBlock(s).0.cur.None?
    ensures var (t, p) := GetBlock(s);
            Handed(Settled(s), t, p)
  {
    if s.sent {
      FinishKeeps(s);
      NextBlockKeeps(Finish(s));
    } else {
      NextBlockKeeps(s);
    }
  }

  // ---------------------------------------------------------------- every run

  /** One ring update of a producer, or one call of the transmit interrupt. */
  datatype Step = DoPutByte(d: byte) | DoPutBlock(e: BlockInfo) | DoPutMarker | DoGetByte | DoGetBlock

  /** The rules writers follow, and which consumer the port is built with (PortByteTX or PortBlockTX). */
  ghost predicate Enabled(s: State, step: Step, byteWise: bool) {
    match step
    case DoPutByte(d) => d != s.esc && !s.owed
    case DoPutBlock(e) => !s.owed && e.Live()
    case DoPutMarker => s.owed
    case DoGetByte => byteWise
    case DoGetBlock => !byteWise
  }

  /** A byte-wise port never sets LastSentIsBlock, a block-wise one never pCurByteInBlock. */
  ghost predicate Mode(s: State, byteWise: bool) {
    if byteWise then !s.sent else s.cur.None?
  }

  ghost function Apply(s: State, step: Step, byteWise: bool): State
    requires s.Inv() && Mode(s, byteWise) && Enabled(s, step, byteWise)
  {
    match step
    case DoPutByte(d) => PutByte(s, d)
    case DoPutBlock(e) => PutBlock(s, e)
    case DoPutMarker => PutMarker(s)
    case DoGetByte => GetByte(s).0
    case DoGetBlock => GetBlock(s).0
  }

  lemma StepKeeps(s: State, step: Step, byteWise: bool)
    requires s.Inv() && Mode(s, byteWise) && Enabled(s, step, byteWise)
    ensures Apply(s, step, byteWise).Inv() && Mode(Apply(s, step, byteWise), byteWise)
  {
    match step
    case DoPutByte(d) => PutByteKeeps(s, d);
    case DoPutBlock(e) => PutBlockKeeps(s, e);
    case DoPutMarker => PutMarkerKeeps(s);
    case DoGetByte => GetByteKeeps(s);
    case DoGetBlock => GetBlockKeeps(s);
  }

  ghost function Run(s: State, steps: seq<Step>, byteWise: bool): (r: Option<State>)
    requires s.Inv() && Mode(s, byteWise)
    ensures r.Some? ==> r.value.Inv() && Mode(r.value, byteWise)
    decreases |steps|
  {
    if steps == [] then Some(s)
    else if !Enabled(s, steps[0], byteWise) then None
    else
      StepKeeps(s, steps[0], byteWise);
      Run(Apply(s, steps[0], byteWise), steps[1..], byteWise)
  }

  function Initial(esc: byte): (s: State)
    ensures s.Inv() && s.Pending() == []
  {
    State(esc, [], [], None, false, false, [], [])
  }

  /**
   Every interleaving of producers and consumer: the line carries exactly what was promised,
   in order; a callback follows the last byte of its own block, once; and blocks queued
   equal markers queued, plus the one in progress, plus the one whose marker is owed.
   */
  lemma EveryRun(esc: byte, steps: seq<Step>, byteWise: bool)
    requires Run(Initial(esc), steps, byteWise).Some?
    ensures var t := Run(Initial(esc), steps, byteWise).value;
            && t.Shape() && t.log + t.Pending() == Events(t.items)
            && |t.b| == Markers(t.esc, t.q) + t.InProgress() + (if t.owed then 1 else 0)
            && (if byteWise then GetByte(t).1.None? ==> GetByte(t).0.log == Events(t.items)
                else GetBlock(t).1.None? ==> GetBlock(t).0.log == Events(t.items))
  {
    var t := Run(Initial(esc), steps, byteWise).value;
    if byteWise {
      GetByteKeeps(t);
    } else {
      GetBlockKeeps(t);
    }
  }

  // ---------------------------------------------------------------- the consumers agree

  /** The bytes a byte-wise port sends when it is asked until it has no more. */
  ghost function DrainBytes(s: State, fuel: nat): seq<byte>
    requires s.Inv() && !s.sent
    decreases fuel
  {
    GetByteKeeps(s);
    var (t, c) := GetByte(s);
    if c.None? || fuel == 0 then [] else [c.value] + DrainBytes(t, fuel - 1)
  }

  ghost function DrainBlocks(s: State, fuel: nat): seq<byte>
    requires s.Inv() && s.cur.None?
    decreases fuel
  {
    GetBlockKeeps(s);
    var (t, c) := GetBlock(s);
    if c.None? || fuel == 0 then [] else c.value + DrainBlocks(t, fuel - 1)
  }

  /** Only the bytes of an event sequence. */
  function OnLine(e: seq<Event>): seq<byte> {
    if e == [] then [] else (if e[0].Byte? then [e[0].b] else []) + OnLine(e[1..])
  }

  lemma {:induction false} OnLineConcat(a: seq<Event>, b: seq<Event>)
    ensures OnLine(a + b) == OnLine(a) + OnLine(b)
  {
    if a == [] {
      assert a + b == b;
    } else {
      assert (a + b)[0] == a[0] && (a + b)[1..] == a[1..] + b;
      OnLineConcat(a[1..], b);
      Assoc(if a[0].Byte? then [a[0].b] else [], OnLine(a[1..]), OnLine(b));
    }
  }

  lemma {:induction false} OnLineBytes(p: seq<byte>)
    ensures OnLine(Bytes(p)) == p
  {
    if p != [] {
      BytesHead(p);
      OnLineBytes(p[1..]);
      assert Bytes(p)[1..] == Bytes(p[1..]);
    }
  }

  lemma Advance(s: State, t: State, data: seq<byte>)
    requires s.Inv() && t.Inv() && t.items == s.items && t.log == s.log + Bytes(data)
    ensures |s.Pending()| == |data| + |t.Pending()|
    ensures OnLine(s.Pending()) == data + OnLine(t.Pending())
  {
    Assoc(s.log, Bytes(data), t.Pending());
    assert s.Pending() == (s.log + s.Pending())[|s.log|..] == (s.log + (Bytes(data) + t.Pending()))[|s.log|..];
    OnLineBytes(data);
    OnLineConcat(Bytes(data), t.Pending());
  }

  lemma SettledLine(s: State)
    requires s.Inv() && Settled(s).Inv()
    ensures OnLine(s.Pending()) == OnLine(Settled(s).Pending())
    ensures |Settled(s).Pending()| <= |s.Pending()|
  {
    var t := Settled(s);
    if t != s {
      var f := Releases(s.b[0].pReleaseFunc);
      Assoc(s.log, f, t.Pending());
      assert s.Pending() == (s.log + s.Pending())[|s.log|..] == (s.log + (f + t.Pending()))[|s.log|..];
      OnLineConcat(f, t.Pending());
      assert f != [] ==> f[1..] == [];
    }
  }

  lemma {:induction false} DrainBytesIs(s: State, fuel: nat)
    requires s.Inv() && !s.sent && fuel >= |s.Pending()|
    ensures DrainBytes(s, fuel) == OnLine(s.Pending())
    decreases fuel
  {
    GetByteKeeps(s);
    SettledLine(s);
    var (t, c) := GetByte(s);
    if c.Some? {
      Advance(Settled(s), t, [c.value]);
      DrainBytesIs(t, fuel - 1);
    }
  }

  lemma {:induction false} DrainBlocksIs(s: State, fuel: nat)
    requires s.Inv() && s.cur.None? && fuel >= |s.Pending()|
    ensures DrainBlocks(s, fuel) == OnLine(s.Pending())
    decreases fuel
  {
    GetBlockKeeps(s);
    SettledLine(s);
    var (t, c) := GetBlock(s);
    if c.Some? {
      Advance(Settled(s), t, c.value);
      DrainBlocksIs(t, fuel - 1);
    }
  }

  /** The two consumers put the same bytes on the line. */
  lemma ConsumersAgree(s: State, fuel: nat)
    requires s.Inv() && s.InProgress() == 0 && fuel >= |s.Pending()|
    ensures DrainBytes(s, fuel) == DrainBlocks(s, fuel) == OnLine(s.Pending())
  {
    DrainBytesIs(s, fuel);
    DrainBlocksIs(s, fuel);
  }
}
