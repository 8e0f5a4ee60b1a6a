/**
 ModbusRTU.hpp: the master. The bus and the clock are a finite trace of polls; a call that
 would outlast the trace is still waiting when it ends.
 */
module Modbus {
  import opened Options
  import opened Crc
  import opened CrcResults
  import opened ModbusSpec
  import Timing

  type Ticks = Timing.Time

  /**
   One call of Read: the true time of the clock reading before it, what it returned, and the
   true time of the reading after. The program sees times modulo 2^32.
   */
  datatype Poll = Poll(before: int, c: Option<bv8>, after: int)

  /** `Millis() - start` on the wrapping counter. */
  function Elapsed(now: Ticks, start: Ticks): Ticks { (now - start) % Timing.TICKS }

  /** Waits shorter than a whole turn of the clock are measured as they are, longer ones as no longer. */
  lemma ElapsedIs(now: int, start: int)
    requires start <= now
    ensures Elapsed(Timing.Wrapped(now), Timing.Wrapped(start)) <= now - start
    ensures now - start < Timing.TICKS ==> Elapsed(Timing.Wrapped(now), Timing.Wrapped(start)) == now - start
  {
    Timing.WrappedDifference(now, start);
  }

  function Delivered(polls: seq<Poll>): seq<bv8> {
    if polls == [] then []
    else Delivered(polls[..|polls| - 1]) + (match polls[|polls| - 1].c case Some(b) => [b] case None => [])
  }

  /** The time of the last byte, or of the sending. */
  function Since(polls: seq<Poll>, sentAt: int): int {
    if polls == [] then sentAt
    else if polls[|polls| - 1].c.Some? then polls[|polls| - 1].after
    else Since(polls[..|polls| - 1], sentAt)
  }

  function Now(polls: seq<Poll>, sentAt: int): int {
    if polls == [] then sentAt else polls[|polls| - 1].after
  }

  /** Poll p comes no more than `timeout` after the last byte before it. */
  predicate InTime(polls: seq<Poll>, p: Poll, sentAt: int, timeout: Ticks) {
    && Now(polls, sentAt) <= p.before <= p.after
    && (if p.c.Some? then p.before else p.after) - Since(polls, sentAt) <= timeout
  }

  /** Time goes on, and no more than `timeout` passes from the sending, or a byte, to the next byte. */
  predicate Timely(polls: seq<Poll>, sentAt: int, timeout: Ticks) {
    polls == [] || (
      && Timely(polls[..|polls| - 1], sentAt, timeout)
      && InTime(polls[..|polls| - 1], polls[|polls| - 1], sentAt, timeout))
  }

  lemma TimelySnoc(polls: seq<Poll>, p: Poll, sentAt: int, timeout: Ticks)
    ensures Timely(polls + [p], sentAt, timeout)
       <==> Timely(polls, sentAt, timeout) && InTime(polls, p, sentAt, timeout)
    ensures Since(polls + [p], sentAt) == if p.c.Some? then p.after else Since(polls, sentAt)
    ensures Now(polls + [p], sentAt) == p.after
  {
    assert (polls + [p])[..|polls|] == polls;
  }

  lemma {:induction false} TimelyPrefix(polls: seq<Poll>, n: nat, sentAt: int, timeout: Ticks)
    requires n <= |polls| && Timely(polls, sentAt, timeout)
    ensures Timely(polls[..n], sentAt, timeout)
  {
    if n < |polls| {
      TimelyPrefix(polls[..|polls| - 1], n, sentAt, timeout);
      assert polls[..|polls| - 1][..n] == polls[..n];
    } else {
      assert polls[..n] == polls;
    }
  }

  lemma {:induction false} SinceBeforeNow(polls: seq<Poll>, sentAt: int, timeout: Ticks)
    requires Timely(polls, sentAt, timeout)
    ensures Since(polls, sentAt) <= Now(polls, sentAt)
  {
    if polls != [] {
      SinceBeforeNow(polls[..|polls| - 1], sentAt, timeout);
    }
  }

  /** What the window loop waits for: before every poll, no more than the timeout since the last byte. */
  predicate HeaderWaits(polls: seq<Poll>, sentAt: int, timeout: Ticks) {
    polls == [] || (
      && HeaderWaits(polls[..|polls| - 1], sentAt, timeout)
      && WaitedBefore(polls[..|polls| - 1], polls[|polls| - 1], sentAt, timeout))
  }

  predicate WaitedBefore(polls: seq<Poll>, p: Poll, sentAt: int, timeout: Ticks) {
    Elapsed(Timing.Wrapped(p.before), Timing.Wrapped(Since(polls, sentAt))) <= timeout
  }

  /** What reading the body waits for: after every poll without a byte, likewise. */
  predicate BodyWaits(polls: seq<Poll>, from: int, timeout: Ticks) {
    polls == [] || (
      && BodyWaits(polls[..|polls| - 1], from, timeout)
      && WaitedAfter(polls[..|polls| - 1], polls[|polls| - 1], from, timeout))
  }

  predicate WaitedAfter(polls: seq<Poll>, p: Poll, from: int, timeout: Ticks) {
    p.c.None? ==> Elapsed(Timing.Wrapped(p.after), Timing.Wrapped(Since(polls, from))) <= timeout
  }

  lemma WaitsSnoc(polls: seq<Poll>, p: Poll, from: int, timeout: Ticks)
    ensures HeaderWaits(polls + [p], from, timeout)
       <==> HeaderWaits(polls, from, timeout) && WaitedBefore(polls, p, from, timeout)
    ensures BodyWaits(polls + [p], from, timeout)
       <==> BodyWaits(polls, from, timeout) && WaitedAfter(polls, p, from, timeout)
    ensures Since(polls + [p], from) == if p.c.Some? then p.after else Since(polls, from)
  {
    assert (polls + [p])[..|polls|] == polls;
  }

  /** In true time: a poll too late by less than a turn of the clock is not waited for. */
  lemma LatePollEndsTheWait(polls: seq<Poll>, p: Poll, sentAt: int, timeout: Ticks)
    requires timeout < p.before - Since(polls, sentAt) < Timing.TICKS
    ensures !HeaderWaits(polls + [p], sentAt, timeout)
  {
    WaitsSnoc(polls, p, sentAt, timeout);
    ElapsedIs(p.before, Since(polls, sentAt));
  }

  lemma LateEmptyPollEndsTheWait(polls: seq<Poll>, p: Poll, from: int, timeout: Ticks)
    requires p.c.None? && timeout < p.after - Since(polls, from) < Timing.TICKS
    ensures !BodyWaits(polls + [p], from, timeout)
  {
    WaitsSnoc(polls, p, from, timeout);
    ElapsedIs(p.after, Since(polls, from));
  }

  /** Some poll finds no byte; what comes after the first such poll. */
  predicate Quiet(polls: seq<Poll>) { exists i :: 0 <= i < |polls| && polls[i].c.None? }

  function Rest(polls: seq<Poll>): seq<Poll> {
    if polls == [] then [] else if polls[0].c.None? then polls[1..] else Rest(polls[1..])
  }

  /** Poll n is the first that finds no byte. */
  predicate FirstEmpty(polls: seq<Poll>, n: nat) {
    n < |polls| && polls[n].c.None? && forall i :: 0 <= i < n ==> polls[i].c.Some?
  }

  lemma {:induction false} RestAt(polls: seq<Poll>, n: nat)
    requires n <= |polls| && forall i :: 0 <= i < n ==> polls[i].c.Some?
    ensures n < |polls| && polls[n].c.None? ==> Quiet(polls) && Rest(polls) == polls[n + 1..]
    ensures n == |polls| ==> !Quiet(polls) && Rest(polls) == []
    decreases n
  {
    if n > 0 {
      RestAt(polls[1..], n - 1);
    }
  }

  datatype Reason = BadCount | ExceptionReply | NoReply | NoBody | CrcMismatch

  datatype Outcome = Success | Failure | Waiting

  datatype Verdict = GotHeader | GotException | TooLate | OutOfPolls

  class ModbusMaster {
    const TimeoutMs: Ticks
    var Error: Option<Reason>
    /** The bus: polls still to come, and everything written. */
    var Incoming: seq<Poll>
    var Sent: seq<bv8>

    constructor (timeout_ms: Ticks, bus: seq<Poll>)
      ensures TimeoutMs == timeout_ms && Incoming == bus && Error == None && Sent == []
    {
      TimeoutMs := timeout_ms;
      Incoming := bus;
      Error, Sent := None, [];
    }

    method Read() returns (p: Poll)
      requires Incoming != []
      modifies this`Incoming
      ensures [p] + Incoming == old(Incoming)
    {
      p := Incoming[0];
      Incoming := Incoming[1..];
    }

    /** Everything up to the first poll that finds no byte is dropped. */
    method DrainRx() returns (quiet: bool)
      modifies this`Incoming
      ensures quiet == Quiet(old(Incoming)) && Incoming == Rest(old(Incoming)) && (!quiet ==> Incoming == [])
      ensures if quiet then exists n :: FirstEmpty(old(Incoming), n) && Incoming == old(Incoming)[n + 1..]
              else forall i :: 0 <= i < |old(Incoming)| ==> old(Incoming)[i].c.Some?
    {
      ghost var n: nat := 0;
      while Incoming != []
        invariant n <= |old(Incoming)| && Incoming == old(Incoming)[n..]
        invariant forall i :: 0 <= i < n ==> old(Incoming)[i].c.Some?
        decreases |Incoming|
      {
        var p := Read();
        if p.c.None? {
          RestAt(old(Incoming), n);
          assert FirstEmpty(old(Incoming), n);
          return true;
        }
        n := n + 1;
      }
      RestAt(old(Incoming), n);
      quiet := false;
    }

    /** The window loop, which restarts its deadline at every byte; `begin` was read after sending. */
    method FindHeader(addr: bv8, nData: bv8, begin: Ticks, ghost sentAt: int)
      returns (v: Verdict, ghost taken: seq<Poll>)
      requires begin == Timing.Wrapped(sentAt)
      modifies this`Incoming
      ensures taken + Incoming == old(Incoming)
      ensures Look(Delivered(taken), START, addr, nData) ==
              match v
              case GotHeader => Header(|Delivered(taken)|)
              case GotException => Exception(|Delivered(taken)|)
              case _ => Nothing
      ensures v.OutOfPolls? ==> Incoming == []
      ensures v.TooLate? ==> Incoming != [] && !Timely(taken + [Incoming[0]], sentAt, TimeoutMs)
      ensures HeaderWaits(taken, sentAt, TimeoutMs)
      ensures v.TooLate? ==> !HeaderWaits(taken + [Incoming[0]], sentAt, TimeoutMs)
    {
      var w, start := START, begin;
      taken := [];
      while Incoming != []
        invariant taken + Incoming == old(Incoming)
        invariant Look(Delivered(taken), START, addr, nData) == Nothing && After(Delivered(taken), START) == w
        invariant start == Timing.Wrapped(Since(taken, sentAt)) && HeaderWaits(taken, sentAt, TimeoutMs)
        decreases |Incoming|
      {
        WaitsSnoc(taken, Incoming[0], sentAt, TimeoutMs);
        if Elapsed(Timing.Wrapped(Incoming[0].before), start) > TimeoutMs {
          LateBefore(taken, Incoming[0], sentAt, TimeoutMs);
          return TooLate, taken;
        }
        TimelySnoc(taken, Incoming[0], sentAt, TimeoutMs);
        var p := TakeNext(taken, old(Incoming));
        LookOneMore(taken, p, w, addr, nData);
        taken := taken + [p];
        if p.c.Some? {
          start := Timing.Wrapped(p.after);
          w := w.Slide(p.c.value);
          if w.IsException(addr) {
            return GotException, taken;
          }
          if w.IsHeader(addr, nData) {
            return GotHeader, taken;
          }
        }
      }
      v := OutOfPolls;
    }

    method TakeNext(ghost taken: seq<Poll>, ghost all: seq<Poll>) returns (p: Poll)
      requires Incoming != [] && taken + Incoming == all
      modifies this`Incoming
      ensures p == old(Incoming)[0] && Incoming == old(Incoming)[1..] && (taken + [p]) + Incoming == all
    {
      p := Read();
      assert p == old(Incoming)[0] && Incoming == old(Incoming)[1..];
      assert (taken + [p]) + Incoming == taken + ([p] + Incoming);
    }

    /**
     Reads exactly n bytes, with the deadline restarted at every byte; `h` was taken before.
     The reading it starts from is the one before its first poll.
     */
    method ReadBytes(n: nat, ghost h: seq<Poll>, ghost sentAt: int)
      returns (v: Verdict, dst: seq<bv8>, ghost taken: seq<Poll>)
      modifies this`Incoming
      ensures taken + Incoming == old(Incoming) && dst == Delivered(taken) && |dst| <= n
      ensures v.GotHeader? ==> |dst| == n
      ensures v.OutOfPolls? ==> Incoming == [] && |dst| < n
      ensures v.TooLate? ==> taken != [] && |dst| < n && !Timely(h + taken, sentAt, TimeoutMs)
      ensures taken != [] ==> (v.TooLate? <==> !BodyWaits(taken, taken[0].before, TimeoutMs))
      ensures !v.GotException?
    {
      ghost var first := if Incoming == [] then 0 else Incoming[0].before;
      var start: Ticks := if Incoming == [] then 0 else Timing.Wrapped(Incoming[0].before);
      dst, taken := [], [];
      BodyStarts(start, h, first, sentAt);
      while |dst| < n
        invariant taken + Incoming == old(Incoming) && dst == Delivered(taken) && |dst| <= n
        invariant BodySoFar(start, h, taken, first, sentAt)
        decreases |Incoming|
      {
        if Incoming == [] {
          return OutOfPolls, dst, taken;
        }
        var p, late := BodyPoll(start, h, taken, first, sentAt, old(Incoming));
        TakenOneMore(taken, p);
        taken := taken + [p];
        if late {
          return TooLate, dst, taken;
        }
        if p.c.Some? {
          dst := dst + [p.c.value];
          start := Timing.Wrapped(p.after);
        }
      }
      v := GotHeader;
    }

    /** What the loop of ReadBytes keeps about time; `first` is the reading it started from. */
    ghost predicate BodySoFar(start: Ticks, h: seq<Poll>, taken: seq<Poll>, first: int, sentAt: int)
      reads this`Incoming
    {
      && BodyWaits(taken, first, TimeoutMs)
      && (Incoming != [] ==>
            && start == Timing.Wrapped(Since(taken, first))
            && Measures(h + taken, Incoming[0], Since(taken, first), sentAt, TimeoutMs))
    }

    lemma BodyStarts(start: Ticks, h: seq<Poll>, first: int, sentAt: int)
      requires Incoming != [] ==> first == Incoming[0].before && start == Timing.Wrapped(first)
      ensures BodySoFar(start, h, [], first, sentAt)
    {
      assert h + [] == h;
      if Incoming != [] {
        MeasuresFirst(h, Incoming[0], sentAt, TimeoutMs);
      }
    }

    /** One poll of ReadBytes; `late` says that it gives up. */
    method BodyPoll(
        start: Ticks, ghost h: seq<Poll>, ghost taken: seq<Poll>, ghost first: int, ghost sentAt: int,
        ghost all: seq<Poll>)
      returns (p: Poll, late: bool)
      requires Incoming != [] && taken + Incoming == all && BodySoFar(start, h, taken, first, sentAt)
      modifies this`Incoming
      ensures p == old(Incoming)[0] && Incoming == old(Incoming)[1..] && (taken + [p]) + Incoming == all
      ensures late <==> !BodyWaits(taken + [p], first, TimeoutMs)
      ensures late ==> p.c.None? && !Timely(h + (taken + [p]), sentAt, TimeoutMs)
      ensures !late ==>
                BodySoFar(if p.c.Some? then Timing.Wrapped(p.after) else start, h, taken + [p], first, sentAt)
    {
      p := TakeNext(taken, all);
      WaitsSnoc(taken, p, first, TimeoutMs);
      MeasuresNext(h + taken, p, if Incoming == [] then p else Incoming[0], Since(taken, first), sentAt, TimeoutMs);
      assert h + (taken + [p]) == (h + taken) + [p];
      late := p.c.None? && Elapsed(Timing.Wrapped(p.after), start) > TimeoutMs;
    }

    /** `crc` as received, low byte first, against the CRC of the frame before it. */
    method CrcMatches(frame: seq<bv8>) returns (ok: bool)
      requires |frame| >= 2
      ensures ok <==> ModbusCrc(frame) == 0
    {
      var m, lo, hi := frame[..|frame| - 2], frame[|frame| - 2], frame[|frame| - 1];
      var computed := Crc16(m, 0xFFFF, MODBUS_POLY, true);
      var recv := (lo as bv16) | ((hi as bv16) << 8);
      ok := computed == recv;
      WordOfBytes(computed);
      BytesOfWord(lo, hi, computed);
      ModbusResidue(m, lo, hi);
      assert m + [lo, hi] == frame;
    }

    method Decode(data: seq<bv8>, count: nat, out: array<bv16>)
      requires |data| == 2 * count && count <= out.Length
      modifies out
      ensures out[..count] == Registers(data) && out[count..] == old(out[count..])
    {
      RegistersLength(data);
      for i := 0 to count
        invariant out[..i] == Registers(data)[..i] && out[count..] == old(out[count..])
      {
        RegistersAt(data, i);
        out[i] := ((data[2 * i] as bv16) << 8) | (data[2 * i + 1] as bv16);
      }
    }

    /**
     `taken` is what the call consumes of the polls after the stale bytes, and `sentAt` the
     clock once the request is written. A call that is still draining has sent nothing.
     */
    method ReadHoldingRegisters(addr: bv8, startReg: bv16, count: nat, out: array<bv16>, sentAt: int)
      returns (r: Outcome, ghost taken: seq<Poll>, ghost n: nat)
      requires GoodCount(count) ==> count <= out.Length
      modifies this, out
      ensures r.Failure? <==> Error.Some?
      ensures Error == Some(BadCount) <==> count == 0 || count > 125
      ensures Sent ==
              old(Sent) + if GoodCount(count) && Quiet(old(Incoming)) then Request(addr, startReg, count) else []
      ensures !GoodCount(count) ==>
                Error == Some(BadCount) && Incoming == old(Incoming) && out[..] == old(out[..])
      ensures GoodCount(count) && !Quiet(old(Incoming)) ==>
                r.Waiting? && Incoming == [] && out[..] == old(out[..])
      ensures GoodCount(count) && Quiet(old(Incoming)) ==>
                && taken + Incoming == Rest(old(Incoming))
                && Explained(r, Error, taken, Rest(old(Incoming)), sentAt, TimeoutMs, addr, count)
                && Waited(Error, taken, n, Rest(old(Incoming)), sentAt, TimeoutMs)
                && Written(r, Delivered(taken), old(out[..]), out[..], count)
      ensures GoodCount(count) && Quiet(old(Incoming)) ==>
                forall k: nat :: k <= |Rest(old(Incoming))| ==>
                  TimelyReply(Rest(old(Incoming))[..k], sentAt, TimeoutMs, addr, count) ==> r.Success?
    {
      Error := None;
      taken, n := [], 0;
      if count == 0 || count > 125 {
        Error := Some(BadCount);
        return Failure, taken, n;
      }
      var req := [addr, READ_HOLDING, HighByte(startReg), LowByte(startReg), 0, Byte(count)];
      var crc := Crc16(req, 0xFFFF, MODBUS_POLY, true);
      req := req + [LowByte(crc), HighByte(crc)];
      var quiet := DrainRx();
      if !quiet {
        return Waiting, taken, n;
      }
      Sent := Sent + req;
      ghost var bus := Incoming;
      r, taken, n := AwaitReply(addr, count, sentAt, out);
      TimelyRepliesSucceed(r, Error, taken, bus, sentAt, TimeoutMs, addr, count);
    }

    /** What follows the request: header, body, CRC, decoding. */
    method AwaitReply(addr: bv8, count: nat, sentAt: int, out: array<bv16>)
      returns (r: Outcome, ghost taken: seq<Poll>, ghost n: nat)
      requires GoodCount(count) && count <= out.Length && Error.None?
      modifies this`Incoming, this`Error, out
      ensures r.Failure? <==> Error.Some?
      ensures taken + Incoming == old(Incoming)
      ensures Explained(r, Error, taken, old(Incoming), sentAt, TimeoutMs, addr, count)
      ensures Waited(Error, taken, n, old(Incoming), sentAt, TimeoutMs)
      ensures Written(r, Delivered(taken), old(out[..]), out[..], count)
    {
      ghost var bus := Incoming;
      var v;
      v, taken := FindHeader(addr, Byte(2 * count), Timing.Wrapped(sentAt), sentAt);
      n := |taken|;
      assert taken[..n] == taken;
      if v.GotHeader? {
        r, taken := AwaitBody(addr, count, sentAt, out, taken, bus);
      } else {
        Error := if v.OutOfPolls? then None else Some(if v.TooLate? then NoReply else ExceptionReply);
        r := if v.OutOfPolls? then Waiting else Failure;
        if v.TooLate? {
          assert bus[..|taken| + 1] == taken + [Incoming[0]];
        }
      }
    }

    /** From the header on; `h` was taken up to and including it. */
    method AwaitBody(
        addr: bv8, count: nat, ghost sentAt: int, out: array<bv16>, ghost h: seq<Poll>, ghost bus: seq<Poll>)
      returns (r: Outcome, ghost taken: seq<Poll>)
      requires GoodCount(count) && count <= out.Length && Error.None? && h + Incoming == bus
      requires Look(Delivered(h), START, addr, Byte(2 * count)) == Header(|Delivered(h)|)
      requires HeaderWaits(h, sentAt, TimeoutMs)
      modifies this`Incoming, this`Error, out
      ensures r.Failure? <==> Error.Some?
      ensures taken + Incoming == bus
      ensures Explained(r, Error, taken, bus, sentAt, TimeoutMs, addr, count)
      ensures Waited(Error, taken, |h|, bus, sentAt, TimeoutMs)
      ensures Written(r, Delivered(taken), old(out[..]), out[..], count)
    {
      var b, body, took := ReadBytes(2 * count + 2, h, sentAt);
      taken := h + took;
      assert taken + Incoming == bus;
      if b.GotHeader? {
        r := JudgeBody(addr, count, body, out, sentAt, h, took, bus);
      } else {
        ShortExplained(h, took, bus, sentAt, TimeoutMs, addr, count);
        Error := if b.OutOfPolls? then None else Some(NoBody);
        BodyWaited(Error, h, took, bus, sentAt, TimeoutMs);
        r := if b.OutOfPolls? then Waiting else Failure;
      }
    }

    /** The body is complete. */
    method JudgeBody(
        addr: bv8, count: nat, body: seq<bv8>, out: array<bv16>, ghost sentAt: int,
        ghost h: seq<Poll>, ghost took: seq<Poll>, ghost bus: seq<Poll>)
      returns (r: Outcome)
      requires GoodCount(count) && count <= out.Length && Error.None?
      requires h + took <= bus && body == Delivered(took) && |body| == 2 * count + 2
      requires Look(Delivered(h), START, addr, Byte(2 * count)) == Header(|Delivered(h)|)
      requires HeaderWaits(h, sentAt, TimeoutMs)
      requires took != [] ==> BodyWaits(took, took[0].before, TimeoutMs)
      modifies this`Error, out
      ensures r.Failure? <==> Error.Some?
      ensures Explained(r, Error, h + took, bus, sentAt, TimeoutMs, addr, count)
      ensures Waited(Error, h + took, |h|, bus, sentAt, TimeoutMs)
      ensures Written(r, Delivered(h + took), old(out[..]), out[..], count)
    {
      r := Accept(addr, body, count, out);
      BodyExplained(r, Error, h, took, bus, sentAt, TimeoutMs, addr, count);
      BodyWaited(Error, h, took, bus, sentAt, TimeoutMs);
    }

    /** The CRC decides; only then is `out` written. */
    method Accept(addr: bv8, body: seq<bv8>, count: nat, out: array<bv16>) returns (r: Outcome)
      requires GoodCount(count) && count <= out.Length && |body| == 2 * count + 2 && Error.None?
      modifies this`Error, out
      ensures !r.Waiting? && Error == if r.Failure? then Some(CrcMismatch) else None
      ensures r.Success? <==> ModbusCrc([addr, READ_HOLDING, Byte(2 * count)] + body) == 0
      ensures out[..] == if r.Success? then Registers(body[..2 * count]) + old(out[count..]) else old(out[..])
    {
      var ok := CrcMatches([addr, READ_HOLDING, Byte(2 * count)] + body);
      if !ok {
        Error := Some(CrcMismatch);
        return Failure;
      }
      Decode(body[..2 * count], count, out);
      assert out[..] == out[..count] + out[count..];
      r := Success;
    }
  }

  /** A poll before which more than the timeout has passed. */
  lemma LateBefore(polls: seq<Poll>, p: Poll, sentAt: int, timeout: Ticks)
    requires Elapsed(Timing.Wrapped(p.before), Timing.Wrapped(Since(polls, sentAt))) > timeout
    ensures !Timely(polls + [p], sentAt, timeout)
  {
    TimelySnoc(polls, p, sentAt, timeout);
    if Timely(polls, sentAt, timeout) && InTime(polls, p, sentAt, timeout) {
      SinceBeforeNow(polls, sentAt, timeout);
      ElapsedIs(p.before, Since(polls, sentAt));
      assert false;
    }
  }

  /** `from` is a reading between the last byte and the next poll. */
  predicate Measures(polls: seq<Poll>, p: Poll, from: int, sentAt: int, timeout: Ticks) {
    Timely(polls, sentAt, timeout) && InTime(polls, p, sentAt, timeout) ==> Since(polls, sentAt) <= from <= p.before
  }

  lemma MeasuresFirst(polls: seq<Poll>, p: Poll, sentAt: int, timeout: Ticks)
    ensures Measures(polls, p, p.before, sentAt, timeout)
  {
    if Timely(polls, sentAt, timeout) {
      SinceBeforeNow(polls, sentAt, timeout);
    }
  }

  /** Measured from there, a wait too long is too long, and otherwise the reading serves on. */
  lemma MeasuresNext(polls: seq<Poll>, p: Poll, next: Poll, from: int, sentAt: int, timeout: Ticks)
    requires Measures(polls, p, from, sentAt, timeout)
    ensures p.c.None? && Elapsed(Timing.Wrapped(p.after), Timing.Wrapped(from)) > timeout ==>
                    !Timely(polls + [p], sentAt, timeout)
    ensures Measures(polls + [p], next, if p.c.Some? then p.after else from, sentAt, timeout)
  {
    TimelySnoc(polls, p, sentAt, timeout);
    if Timely(polls + [p], sentAt, timeout) {
      ElapsedIs(p.after, from);
    }
  }

  // ---------------------------------------------------------------- why a call ends as it does

  /** The outcome and the error, in terms of what was taken; `bus` is all there would have been. */
  ghost predicate Explained(
      r: Outcome, e: Option<Reason>, taken: seq<Poll>, bus: seq<Poll>, sentAt: int, timeout: Ticks,
      addr: bv8, count: nat)
    requires GoodCount(count)
  {
    var heard := Delivered(taken);
    && taken <= bus
    && match r
       case Success => e == None && Accepts(heard, addr, count)
       case Waiting => e == None && taken == bus && Undecided(heard, addr, count)
       case Failure =>
         match e
         case Some(ExceptionReply) => Look(heard, START, addr, Byte(2 * count)) == Exception(|heard|)
         case Some(NoReply) =>
           && Look(heard, START, addr, Byte(2 * count)) == Nothing
           && |taken| < |bus| && !Timely(bus[..|taken| + 1], sentAt, timeout)
         case Some(NoBody) => Undecided(heard, addr, count) && !Timely(taken, sentAt, timeout)
         case Some(CrcMismatch) => Rejects(heard, addr, count)
         case _ => false
  }

  /**
   How long it waited; the first n polls were taken by the window loop. No poll that is too
   late is waited for, and only such a poll ends the wait.
   */
  ghost predicate Waited(e: Option<Reason>, taken: seq<Poll>, n: nat, bus: seq<Poll>, sentAt: int, timeout: Ticks) {
    && n <= |taken| <= |bus|
    && HeaderWaits(taken[..n], sentAt, timeout)
    && (e == Some(NoReply) ==> n == |taken| < |bus| && !HeaderWaits(bus[..n + 1], sentAt, timeout))
    && (n < |taken| ==> (e == Some(NoBody) <==> !BodyWaits(taken[n..], taken[n].before, timeout)))
    && (e == Some(NoBody) ==> n < |taken|)
  }

  lemma BodyWaited(
      e: Option<Reason>, h: seq<Poll>, took: seq<Poll>, bus: seq<Poll>, sentAt: int, timeout: Ticks)
    requires h + took <= bus && HeaderWaits(h, sentAt, timeout) && e != Some(NoReply)
    requires took != [] ==> (e == Some(NoBody) <==> !BodyWaits(took, took[0].before, timeout))
    requires e == Some(NoBody) ==> took != []
    ensures Waited(e, h + took, |h|, bus, sentAt, timeout)
  {
    assert (h + took)[..|h|] == h && (h + took)[|h|..] == took;
  }

  /** No frame is complete yet. */
  ghost predicate Undecided(heard: seq<bv8>, addr: bv8, count: nat)
    requires GoodCount(count)
  {
    match Look(heard, START, addr, Byte(2 * count))
    case Nothing => true
    case Header(k) => |heard| < k + 2 * count + 2
    case Exception(_) => false
  }

  /** What was heard ends with a complete frame opened by the first matching window. */
  ghost predicate Complete(heard: seq<bv8>, addr: bv8, count: nat)
    requires GoodCount(count)
  {
    var k := |heard| - 2 * count - 2;
    k >= 0 && Look(heard, START, addr, Byte(2 * count)) == Header(k)
  }

  /** ... and its CRC is right, or wrong. */
  ghost predicate Accepts(heard: seq<bv8>, addr: bv8, count: nat)
    requires GoodCount(count)
  {
    Complete(heard, addr, count) && ModbusCrc(Frame(heard, addr, count, |heard| - 2 * count - 2)) == 0
  }

  ghost predicate Rejects(heard: seq<bv8>, addr: bv8, count: nat)
    requires GoodCount(count)
  {
    Complete(heard, addr, count) && ModbusCrc(Frame(heard, addr, count, |heard| - 2 * count - 2)) != 0
  }

  lemma ShortBody(h: seq<bv8>, body: seq<bv8>, addr: bv8, count: nat)
    requires GoodCount(count) && Look(h, START, addr, Byte(2 * count)) == Header(|h|) && |body| < 2 * count + 2
    ensures Undecided(h + body, addr, count)
  {
    LookPrefix(h, body, START, addr, Byte(2 * count));
  }

  lemma BodyVerdict(h: seq<bv8>, body: seq<bv8>, addr: bv8, count: nat)
    requires GoodCount(count) && Look(h, START, addr, Byte(2 * count)) == Header(|h|) && |body| == 2 * count + 2
    ensures var good := ModbusCrc([addr, READ_HOLDING, Byte(2 * count)] + body) == 0;
            (Accepts(h + body, addr, count) <==> good) && (Rejects(h + body, addr, count) <==> !good)
    ensures (h + body)[|h + body| - 2 * count - 2..|h + body| - 2] == body[..2 * count]
  {
    LookPrefix(h, body, START, addr, Byte(2 * count));
    var s := h + body;
    assert s[|h|..|h| + 2 * count + 2] == body;
  }

  /** A complete body: its CRC decides. */
  lemma BodyExplained(
      r: Outcome, e: Option<Reason>, h: seq<Poll>, took: seq<Poll>, bus: seq<Poll>, sentAt: int, timeout: Ticks,
      addr: bv8, count: nat)
    requires GoodCount(count) && h + took <= bus && |Delivered(took)| == 2 * count + 2
    requires Look(Delivered(h), START, addr, Byte(2 * count)) == Header(|Delivered(h)|)
    requires !r.Waiting? && e == if r.Failure? then Some(CrcMismatch) else None
    requires r.Success? <==> ModbusCrc([addr, READ_HOLDING, Byte(2 * count)] + Delivered(took)) == 0
    ensures Explained(r, e, h + took, bus, sentAt, timeout, addr, count)
    ensures var heard := Delivered(h + took);
            |heard| >= 2 * count + 2 && heard[|heard| - 2 * count - 2..|heard| - 2] == Delivered(took)[..2 * count]
  {
    DeliveredConcat(h, took);
    BodyVerdict(Delivered(h), Delivered(took), addr, count);
  }

  /** An incomplete one: the bus ended, or a poll was late. */
  lemma ShortExplained(
      h: seq<Poll>, took: seq<Poll>, bus: seq<Poll>, sentAt: int, timeout: Ticks, addr: bv8, count: nat)
    requires GoodCount(count) && h + took <= bus && |Delivered(took)| < 2 * count + 2
    requires Look(Delivered(h), START, addr, Byte(2 * count)) == Header(|Delivered(h)|)
    ensures h + took == bus ==> Explained(Waiting, None, h + took, bus, sentAt, timeout, addr, count)
    ensures !Timely(h + took, sentAt, timeout) ==>
                    Explained(Failure, Some(NoBody), h + took, bus, sentAt, timeout, addr, count)
  {
    DeliveredConcat(h, took);
    ShortBody(Delivered(h), Delivered(took), addr, count);
  }

  // ---------------------------------------------------------------- a timely reply succeeds

  /** The polls are in time and deliver a reply the receiver accepts. */
  ghost predicate TimelyReply(polls: seq<Poll>, sentAt: int, timeout: Ticks, addr: bv8, count: nat)
    requires GoodCount(count)
  {
    Timely(polls, sentAt, timeout) && Succeeds(Delivered(polls), addr, count)
  }

  lemma FrameStays(s: seq<bv8>, more: seq<bv8>, addr: bv8, count: nat, k: nat)
    requires GoodCount(count) && k + 2 * count + 2 <= |s|
    ensures Frame(s + more, addr, count, k) == Frame(s, addr, count, k)
  {
    assert (s + more)[k..k + 2 * count + 2] == s[k..k + 2 * count + 2];
  }

  /** More bytes change neither a success nor a complete frame. */
  lemma SucceedsMore(s: seq<bv8>, more: seq<bv8>, addr: bv8, count: nat)
    requires GoodCount(count)
    ensures Succeeds(s, addr, count) ==> Succeeds(s + more, addr, count)
    ensures Rejects(s, addr, count) ==> !Succeeds(s + more, addr, count)
  {
    var found := Look(s, START, addr, Byte(2 * count));
    if found.Header? && found.n + 2 * count + 2 <= |s| {
      LookPrefix(s, more, START, addr, Byte(2 * count));
      FrameStays(s, more, addr, count, found.n);
    }
  }

  lemma ExceptionStays(s: seq<bv8>, more: seq<bv8>, addr: bv8, count: nat)
    requires GoodCount(count) && Look(s, START, addr, Byte(2 * count)).Exception?
    ensures !Succeeds(s + more, addr, count)
  {
    LookPrefix(s, more, START, addr, Byte(2 * count));
  }

  /** A success among the bytes already heard shows in them. */
  lemma SucceedsEarlier(polls: seq<Poll>, n: nat, addr: bv8, count: nat)
    requires GoodCount(count) && n <= |polls| && Succeeds(Delivered(polls[..n]), addr, count)
    ensures Succeeds(Delivered(polls), addr, count)
  {
    assert polls == polls[..n] + polls[n..];
    DeliveredConcat(polls[..n], polls[n..]);
    SucceedsMore(Delivered(polls[..n]), Delivered(polls[n..]), addr, count);
  }

  lemma DecidedStays(taken: seq<Poll>, bus: seq<Poll>, n: nat, addr: bv8, count: nat)
    requires GoodCount(count) && taken <= bus && |taken| <= n <= |bus|
    requires Rejects(Delivered(taken), addr, count)
          || Look(Delivered(taken), START, addr, Byte(2 * count)).Exception?
    ensures !Succeeds(Delivered(bus[..n]), addr, count)
  {
    var more := bus[|taken|..n];
    assert bus[..n] == taken + more;
    DeliveredConcat(taken, more);
    if Rejects(Delivered(taken), addr, count) {
      SucceedsMore(Delivered(taken), Delivered(more), addr, count);
    } else {
      ExceptionStays(Delivered(taken), Delivered(more), addr, count);
    }
  }

  /** A failure or a wait means that what was taken holds no reply. */
  lemma NoReplyTaken(
      r: Outcome, e: Option<Reason>, taken: seq<Poll>, bus: seq<Poll>, sentAt: int, timeout: Ticks,
      addr: bv8, count: nat)
    requires GoodCount(count) && Explained(r, e, taken, bus, sentAt, timeout, addr, count) && !r.Success?
    ensures !Succeeds(Delivered(taken), addr, count)
  {
  }

  lemma LateStays(bus: seq<Poll>, m: nat, n: nat, sentAt: int, timeout: Ticks)
    requires m <= n <= |bus| && !Timely(bus[..m], sentAt, timeout)
    ensures !Timely(bus[..n], sentAt, timeout)
  {
    assert bus[..n][..m] == bus[..m];
    if Timely(bus[..n], sentAt, timeout) {
      TimelyPrefix(bus[..n], m, sentAt, timeout);
    }
  }

  /** Whatever the bus does afterwards, a reply that was complete and in time is accepted. */
  lemma TimelyReplySucceeds(
      r: Outcome, e: Option<Reason>, taken: seq<Poll>, bus: seq<Poll>, n: nat, sentAt: int, timeout: Ticks,
      addr: bv8, count: nat)
    requires GoodCount(count) && Explained(r, e, taken, bus, sentAt, timeout, addr, count)
    requires n <= |bus| && TimelyReply(bus[..n], sentAt, timeout, addr, count)
    ensures r.Success?
  {
    if !r.Success? {
      NoReplyTaken(r, e, taken, bus, sentAt, timeout, addr, count);
      if n <= |taken| {
        assert taken[..n] == bus[..n];
        SucceedsEarlier(taken, n, addr, count);
      } else if e == Some(NoReply) {
        LateStays(bus, |taken| + 1, n, sentAt, timeout);
      } else if e == Some(NoBody) {
        assert bus[..|taken|] == taken;
        LateStays(bus, |taken|, n, sentAt, timeout);
      } else {
        DecidedStays(taken, bus, n, addr, count);
      }
    }
  }

  lemma TimelyRepliesSucceed(
      r: Outcome, e: Option<Reason>, taken: seq<Poll>, bus: seq<Poll>, sentAt: int, timeout: Ticks,
      addr: bv8, count: nat)
    requires GoodCount(count) && Explained(r, e, taken, bus, sentAt, timeout, addr, count)
    ensures forall n: nat :: n <= |bus| && TimelyReply(bus[..n], sentAt, timeout, addr, count) ==> r.Success?
  {
    forall n: nat | n <= |bus| && TimelyReply(bus[..n], sentAt, timeout, addr, count)
      ensures r.Success?
    {
      TimelyReplySucceeds(r, e, taken, bus, n, sentAt, timeout, addr, count);
    }
  }

  /** The registers of a reply, or nothing written at all. */
  ghost predicate Written(r: Outcome, heard: seq<bv8>, before: seq<bv16>, after: seq<bv16>, count: nat)
    requires count <= |before| == |after|
  {
    if r.Success? then
      && |heard| >= 2 * count + 2
      && after == Registers(heard[|heard| - 2 * count - 2..|heard| - 2]) + before[count..]
    else after == before
  }

  lemma {:induction false} DeliveredConcat(p: seq<Poll>, q: seq<Poll>)
    ensures Delivered(p + q) == Delivered(p) + Delivered(q)
  {
    if q == [] {
      assert p + q == p;
    } else {
      assert (p + q)[..|p + q| - 1] == p + q[..|q| - 1];
      DeliveredConcat(p, q[..|q| - 1]);
    }
  }

  lemma BytesOfWord(lo: bv8, hi: bv8, x: bv16)
    ensures x == (lo as bv16) | ((hi as bv16) << 8) <==> lo == LowByte(x) && hi == HighByte(x)
  {
  }

  lemma {:induction false} RegistersLength(data: seq<bv8>)
    ensures |Registers(data)| == |data| / 2
  {
    if |data| >= 2 {
      RegistersLength(data[2..]);
    }
  }

  lemma {:induction false} RegistersAt(data: seq<bv8>, i: nat)
    requires 2 * i + 1 < |data|
    ensures i < |Registers(data)| && Registers(data)[i] == ((data[2 * i] as bv16) << 8) | (data[2 * i + 1] as bv16)
    decreases i
  {
    RegistersLength(data);
    if i > 0 {
      RegistersAt(data[2..], i - 1);
    }
  }

  lemma TakenOneMore(taken: seq<Poll>, p: Poll)
    ensures Delivered(taken + [p]) == if p.c.Some? then Delivered(taken) + [p.c.value] else Delivered(taken)
  {
    assert (taken + [p])[..|taken|] == taken;
  }

  /** One turn of the window loop, on what was received so far. */
  lemma LookOneMore(taken: seq<Poll>, p: Poll, w: Window, addr: bv8, nData: bv8)
    requires Look(Delivered(taken), START, addr, nData) == Nothing && After(Delivered(taken), START) == w
    ensures p.c.None? ==> Delivered(taken + [p]) == Delivered(taken)
    ensures p.c.Some? ==>
              var v := w.Slide(p.c.value);
              var n := |Delivered(taken + [p])|;
              && After(Delivered(taken + [p]), START) == v
              && Look(Delivered(taken + [p]), START, addr, nData)
                 == if v.IsException(addr) then Exception(n) else if v.IsHeader(addr, nData) then Header(n) else Nothing
  {
    TakenOneMore(taken, p);
    if p.c.Some? {
      LookSnoc(Delivered(taken), START, p.c.value, addr, nData);
      AfterSnoc(Delivered(taken), START, p.c.value);
    }
  }
}
