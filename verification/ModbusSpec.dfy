/**
 ModbusRTU.hpp: what the receiver of ReadHoldingRegisters makes of the bytes on the bus.
 Frames follow section 6.3 of the MODBUS Application Protocol Specification V1.1b3 and
 section 2.5.1.2 of MODBUS over Serial Line V1.02 (CRC low byte first).
 */
module ModbusSpec {
  import opened Crc
  import opened CrcResults

  const READ_HOLDING: bv8 := 0x03
  const EXCEPTION: bv8 := 0x83
  const MODBUS_POLY: bv16 := 0xA001

  function ModbusCrc(m: seq<bv8>): bv16 { Crc16Of(m, 0xFFFF, MODBUS_POLY, true) }

  /** A frame without its CRC, and with it. */
  function WithCrc(m: seq<bv8>): seq<bv8> { m + [LowByte(ModbusCrc(m)), HighByte(ModbusCrc(m))] }

  function Byte(n: nat): bv8
    requires n < 256
  {
    n as bv8
  }

  predicate GoodCount(count: nat) { 1 <= count <= 125 }

  /** The frame of a request; the high byte of a valid count is zero. */
  function Request(addr: bv8, startReg: bv16, count: nat): seq<bv8>
    requires GoodCount(count)
  {
    WithCrc([addr, READ_HOLDING, HighByte(startReg), LowByte(startReg), 0, Byte(count)])
  }

  /** Big-endian register values. */
  function Registers(data: seq<bv8>): seq<bv16> {
    if |data| < 2 then [] else [((data[0] as bv16) << 8) | (data[1] as bv16)] + Registers(data[2..])
  }

  /** The three bytes in the window. */
  datatype Window = Window(w1: bv8, w2: bv8, w3: bv8) {
    function Slide(c: bv8): Window { Window(w2, w3, c) }

    predicate IsHeader(addr: bv8, nData: bv8) { w1 == addr && w2 == READ_HOLDING && w3 == nData }

    predicate IsException(addr: bv8) { w2 == addr && w3 == EXCEPTION }

    predicate Matches(addr: bv8, nData: bv8) { IsHeader(addr, nData) || IsException(addr) }
  }

  const START := Window(0, 0, 0)

  /** What the window loop makes of a byte stream, and after how many bytes. */
  datatype Found = Header(n: nat) | Exception(n: nat) | Nothing

  function Look(s: seq<bv8>, w: Window, addr: bv8, nData: bv8): Found {
    if s == [] then Nothing
    else
      var v := w.Slide(s[0]);
      if v.IsException(addr) then Exception(1)
      else if v.IsHeader(addr, nData) then Header(1)
      else
        match Look(s[1..], v, addr, nData)
        case Header(n) => Header(n + 1)
        case Exception(n) => Exception(n + 1)
        case Nothing => Nothing
  }

  /** The window after s, started from w. */
  function After(s: seq<bv8>, w: Window): Window {
    if s == [] then w else After(s[1..], w.Slide(s[0]))
  }

  /** The window once s[i] has been taken in. */
  function Seen(s: seq<bv8>, w: Window, i: nat): Window
    requires i < |s|
  {
    After(s[..i + 1], w)
  }

  /** The window ending at s[i]; before the first bytes it holds the zeros it starts with. */
  function WindowAt(s: seq<bv8>, i: nat): Window
    requires i < |s|
  {
    Window(if i >= 2 then s[i - 2] else 0, if i >= 1 then s[i - 1] else 0, s[i])
  }

  lemma {:induction false} AfterSnoc(s: seq<bv8>, w: Window, c: bv8)
    ensures After(s + [c], w) == After(s, w).Slide(c)
  {
    if s == [] {
      assert (s + [c])[1..] == [];
    } else {
      assert (s + [c])[1..] == s[1..] + [c];
      AfterSnoc(s[1..], w.Slide(s[0]), c);
    }
  }

  lemma {:induction false} AfterIsWindowAt(s: seq<bv8>, i: nat)
    requires i < |s|
    ensures Seen(s, START, i) == WindowAt(s, i)
  {
    assert s[..i + 1] == s[..i] + [s[i]];
    AfterSnoc(s[..i], START, s[i]);
    if i == 0 {
      assert s[..0] == [];
    } else {
      AfterIsWindowAt(s, i - 1);
    }
  }

  lemma SeenLater(s: seq<bv8>, w: Window, i: nat)
    requires i + 1 < |s|
    ensures Seen(s[1..], w.Slide(s[0]), i) == Seen(s, w, i + 1)
  {
    assert s[..i + 2][1..] == s[1..][..i + 1];
  }

  lemma SeenFirst(s: seq<bv8>, w: Window)
    requires s != []
    ensures Seen(s, w, 0) == w.Slide(s[0])
  {
    assert s[..1] == [s[0]];
    assert After([s[0]], w) == After([], w.Slide(s[0]));
  }

  /** The loop stops at the first window that matches; an exception pair wins over a header. */
  lemma {:induction false} LookFinds(s: seq<bv8>, w: Window, addr: bv8, nData: bv8, k: nat)
    requires k < |s|
    requires forall i: nat :: i < k ==> !Seen(s, w, i).Matches(addr, nData)
    requires Seen(s, w, k).Matches(addr, nData)
    ensures Look(s, w, addr, nData) == if Seen(s, w, k).IsException(addr) then Exception(k + 1) else Header(k + 1)
    decreases k
  {
    SeenFirst(s, w);
    if k > 0 {
      assert !Seen(s, w, 0).Matches(addr, nData);
      var v := w.Slide(s[0]);
      forall i: nat | i < k - 1
        ensures !Seen(s[1..], v, i).Matches(addr, nData)
      {
        SeenLater(s, w, i);
      }
      SeenLater(s, w, k - 1);
      LookFinds(s[1..], v, addr, nData, k - 1);
    }
  }

  /** One more byte after a stretch in which nothing matched. */
  lemma {:induction false} LookSnoc(s: seq<bv8>, w: Window, c: bv8, addr: bv8, nData: bv8)
    requires Look(s, w, addr, nData) == Nothing
    ensures var v := After(s, w).Slide(c);
            Look(s + [c], w, addr, nData)
            == if v.IsException(addr) then Exception(|s| + 1)
               else if v.IsHeader(addr, nData) then Header(|s| + 1)
               else Nothing
  {
    if s == [] {
      assert (s + [c])[1..] == [];
    } else {
      assert (s + [c])[1..] == s[1..] + [c];
      LookSnoc(s[1..], w.Slide(s[0]), c, addr, nData);
    }
  }

  /** Once decided, what follows does not matter. */
  lemma {:induction false} LookPrefix(s: seq<bv8>, t: seq<bv8>, w: Window, addr: bv8, nData: bv8)
    requires Look(s, w, addr, nData) != Nothing
    ensures Look(s + t, w, addr, nData) == Look(s, w, addr, nData)
  {
    assert (s + t)[1..] == s[1..] + t;
    var v := w.Slide(s[0]);
    if !v.Matches(addr, nData) {
      LookPrefix(s[1..], t, v, addr, nData);
    }
  }

  lemma {:induction false} LookSound(s: seq<bv8>, w: Window, addr: bv8, nData: bv8)
    ensures match Look(s, w, addr, nData)
            case Header(n) => 0 < n <= |s| && After(s[..n], w).IsHeader(addr, nData)
            case Exception(n) => 0 < n <= |s| && After(s[..n], w).IsException(addr)
            case Nothing => true
  {
    if s != [] {
      var v := w.Slide(s[0]);
      LookSound(s[1..], v, addr, nData);
      assert s[..1][1..] == [];
      match Look(s[1..], v, addr, nData)
      case Header(n) => assert s[..n + 1][1..] == s[1..][..n];
      case Exception(n) => assert s[..n + 1][1..] == s[1..][..n];
      case Nothing =>
    }
  }

  // ---------------------------------------------------------------- an echo of the request

  /** The windows over the first six bytes of an echo, before its CRC. */
  ghost predicate EchoIsQuiet(addr: bv8, startReg: bv16, count: nat)
    requires GoodCount(count)
  {
    forall i: nat :: i < 6 ==> !WindowAt(Request(addr, startReg, count), i).Matches(addr, Byte(2 * count))
  }

  /**
   They match nothing exactly when the start register avoids four values; in particular when
   it is below 0x100, as the code's own comment assumes.
   */
  lemma EchoIsQuietIff(addr: bv8, startReg: bv16, count: nat)
    requires addr != 0 && GoodCount(count)
    ensures EchoIsQuiet(addr, startReg, count) <==>
            var hi, lo, n := HighByte(startReg), LowByte(startReg), Byte(2 * count);
            !(|| hi == n || (addr == 3 && hi == 3 && lo == n)
              || (addr == 3 && hi == EXCEPTION) || (hi == addr && lo == EXCEPTION))
  {
    var e := Request(addr, startReg, count);
    var hi, lo := HighByte(startReg), LowByte(startReg);
    CountBytes(count);
    assert WindowAt(e, 0) == Window(0, 0, addr) && WindowAt(e, 1) == Window(0, addr, 3);
    assert WindowAt(e, 2) == Window(addr, 3, hi) && WindowAt(e, 3) == Window(3, hi, lo);
    assert WindowAt(e, 4) == Window(hi, lo, 0) && WindowAt(e, 5) == Window(lo, 0, Byte(count));
  }

  lemma CountBytes(count: nat)
    requires GoodCount(count)
    ensures Byte(2 * count) != 0 && Byte(count) != EXCEPTION
  {
  }

  lemma LowStartIsQuiet(addr: bv8, startReg: bv16, count: nat)
    requires addr != 0 && GoodCount(count) && startReg < 0x100
    ensures EchoIsQuiet(addr, startReg, count)
  {
    assert HighByte(startReg) == 0;
    CountBytes(count);
    EchoIsQuietIff(addr, startReg, count);
  }

  // ---------------------------------------------------------------- replies

  /** A reply frame: header, data, CRC over both. */
  function Reply(addr: bv8, data: seq<bv8>): seq<bv8>
    requires |data| < 256
  {
    WithCrc([addr, READ_HOLDING, Byte(|data|)] + data)
  }

  /** What the receiver accepts: the first match is a header, and the frame it opens has residue zero. */
  ghost predicate Succeeds(s: seq<bv8>, addr: bv8, count: nat)
    requires GoodCount(count)
  {
    match Look(s, START, addr, Byte(2 * count))
    case Header(k) => k + 2 * count + 2 <= |s| && ModbusCrc(Frame(s, addr, count, k)) == 0
    case _ => false
  }

  function Frame(s: seq<bv8>, addr: bv8, count: nat, k: nat): seq<bv8>
    requires GoodCount(count) && k + 2 * count + 2 <= |s|
  {
    [addr, READ_HOLDING, Byte(2 * count)] + s[k..k + 2 * count + 2]
  }

  lemma ModbusResidue(m: seq<bv8>, lo: bv8, hi: bv8)
    ensures ModbusCrc(m + [lo, hi]) == 0 <==> lo == LowByte(ModbusCrc(m)) && hi == HighByte(ModbusCrc(m))
  {
    assert Odd16(MODBUS_POLY, true);
    FrameResidueIff(m, lo, hi, 0xFFFF, MODBUS_POLY);
  }

  /** A request asks for `count` registers from startReg on, high bytes first, and its CRC is right. */
  lemma RequestAsks(addr: bv8, startReg: bv16, count: nat)
    requires GoodCount(count)
    ensures Asks(Request(addr, startReg, count), addr, startReg, count)
    ensures Crc16Of(Request(addr, startReg, count), 0xFFFF, 0xA001, true) == 0
  {
    var m := [addr, READ_HOLDING, HighByte(startReg), LowByte(startReg), 0, Byte(count)];
    BytesMakeWord(startReg);
    AsksInFront(m, [LowByte(ModbusCrc(m)), HighByte(ModbusCrc(m))], addr, startReg, count);
    WithCrcChecks(m);
  }

  /** Function 3, the first register and the number of registers, high bytes first. */
  ghost predicate Asks(e: seq<bv8>, addr: bv8, startReg: bv16, count: nat)
    requires count < 256
  {
    && |e| == 8 && e[0] == addr && e[1] == 3 && e[4] == 0 && e[5] == count as bv8
    && ((e[2] as bv16) << 8) | (e[3] as bv16) == startReg
  }

  lemma AsksInFront(m: seq<bv8>, crc: seq<bv8>, addr: bv8, startReg: bv16, count: nat)
    requires |m| == 6 && |crc| == 2 && count < 256 && m[0] == addr && m[1] == 3 && m[4] == 0 && m[5] == count as bv8
    requires ((m[2] as bv16) << 8) | (m[3] as bv16) == startReg
    ensures Asks(m + crc, addr, startReg, count)
  {
  }

  lemma WithCrcChecks(m: seq<bv8>)
    ensures ModbusCrc(WithCrc(m)) == 0
  {
    ModbusResidue(m, LowByte(ModbusCrc(m)), HighByte(ModbusCrc(m)));
  }

  lemma BytesMakeWord(x: bv16)
    ensures ((HighByte(x) as bv16) << 8) | (LowByte(x) as bv16) == x
  {
  }

  /**
   Whenever no window before it matches, a valid reply is accepted, whatever precedes and
   follows it.
   */
  lemma ReplyIsAccepted(before: seq<bv8>, data: seq<bv8>, after: seq<bv8>, addr: bv8, count: nat)
    requires GoodCount(count) && |data| == 2 * count
    requires var s := before + Reply(addr, data) + after;
             forall i: nat :: i < |before| + 2 ==> !WindowAt(s, i).Matches(addr, Byte(2 * count))
    ensures Succeeds(before + Reply(addr, data) + after, addr, count)
    ensures Look(before + Reply(addr, data) + after, START, addr, Byte(2 * count)) == Header(|before| + 3)
    ensures Frame(before + Reply(addr, data) + after, addr, count, |before| + 3) == Reply(addr, data)
  {
    var s := before + Reply(addr, data) + after;
    var n := Byte(2 * count);
    var k := |before| + 2;
    forall i: nat | i <= k
      ensures Seen(s, START, i) == WindowAt(s, i)
    {
      AfterIsWindowAt(s, i);
    }
    assert WindowAt(s, k) == Window(addr, READ_HOLDING, n);
    LookFinds(s, START, addr, n, k);
    var m := [addr, READ_HOLDING, n] + data;
    assert Frame(s, addr, count, k + 1) == Reply(addr, data);
    ModbusResidue(m, LowByte(ModbusCrc(m)), HighByte(ModbusCrc(m)));
  }

  // ---------------------------------------------------------------- the echo, then the reply

  /** The windows that touch the CRC of the echo match nothing. */
  predicate CrcIsQuiet(addr: bv8, startReg: bv16, count: nat)
    requires GoodCount(count)
  {
    var e, n := Request(addr, startReg, count), Byte(2 * count);
    var lo, hi := e[6], e[7];
    && !(Byte(count) == addr && (lo == EXCEPTION || (lo == READ_HOLDING && hi == n)))
    && !(lo == addr && (hi == EXCEPTION || (hi == READ_HOLDING && addr == n)))
    && !(hi == addr && addr == EXCEPTION)
  }

  /** s starts with the echo of the request and the header of the reply. */
  ghost predicate EchoThenHeader(s: seq<bv8>, addr: bv8, startReg: bv16, count: nat)
    requires GoodCount(count)
  {
    |s| >= 11 && s[..8] == Request(addr, startReg, count) && s[8..11] == [addr, READ_HOLDING, Byte(2 * count)]
  }

  lemma EarlyWindows(addr: bv8, startReg: bv16, count: nat, s: seq<bv8>)
    requires GoodCount(count) && EchoThenHeader(s, addr, startReg, count)
    ensures (forall i: nat :: i < 6 ==> !WindowAt(s, i).Matches(addr, Byte(2 * count)))
       <==> EchoIsQuiet(addr, startReg, count)
  {
    var e := Request(addr, startReg, count);
    forall i: nat | i < 6
      ensures WindowAt(s, i) == WindowAt(e, i)
    {
      assert s[i] == s[..8][i];
    }
  }

  lemma LateWindows(addr: bv8, startReg: bv16, count: nat, s: seq<bv8>)
    requires GoodCount(count) && EchoThenHeader(s, addr, startReg, count)
    ensures var e := Request(addr, startReg, count);
            && WindowAt(s, 6) == Window(0, Byte(count), e[6]) && WindowAt(s, 7) == Window(Byte(count), e[6], e[7])
            && WindowAt(s, 8) == Window(e[6], e[7], addr) && WindowAt(s, 9) == Window(e[7], addr, READ_HOLDING)
  {
    assert forall i: nat :: i < 8 ==> s[i] == s[..8][i];
    assert s[8] == s[8..11][0] && s[9] == s[8..11][1];
  }

  lemma CrcWindows(addr: bv8, startReg: bv16, count: nat, s: seq<bv8>)
    requires addr != 0 && GoodCount(count) && EchoThenHeader(s, addr, startReg, count)
    ensures (forall i: nat :: 6 <= i < 10 ==> !WindowAt(s, i).Matches(addr, Byte(2 * count)))
       <==> CrcIsQuiet(addr, startReg, count)
  {
    EvenIsNotThree(count);
    LateWindows(addr, startReg, count, s);
  }

  lemma EvenIsNotThree(count: nat)
    requires GoodCount(count)
    ensures Byte(2 * count) != READ_HOLDING
  {
  }

  /** A false match in the echo is found first, and then the reply's own header is missed. */
  lemma EarlierMatchWins(s: seq<bv8>, addr: bv8, n: bv8, i: nat)
    requires i < 10 < |s| && WindowAt(s, i).Matches(addr, n)
    requires forall j: nat :: j < i ==> !WindowAt(s, j).Matches(addr, n)
    ensures Look(s, START, addr, n) != Header(11)
  {
    forall j: nat | j <= i
      ensures Seen(s, START, j) == WindowAt(s, j)
    {
      AfterIsWindowAt(s, j);
    }
    LookFinds(s, START, addr, n, i);
  }

  lemma {:induction false} FirstMatch(s: seq<bv8>, addr: bv8, n: bv8, i: nat) returns (k: nat)
    requires i < |s| && WindowAt(s, i).Matches(addr, n)
    ensures k <= i && WindowAt(s, k).Matches(addr, n)
    ensures forall j: nat :: j < k ==> !WindowAt(s, j).Matches(addr, n)
  {
    k := i;
    if j: nat :| j < i && WindowAt(s, j).Matches(addr, n) {
      k := FirstMatch(s, addr, n, j);
    }
  }

  /**
   The echo of the request is skipped, and the reply behind it found, exactly when neither the
   start register nor the CRC of the request imitates a reply header or an exception.
   */
  lemma EchoSkippedIff(addr: bv8, startReg: bv16, count: nat, data: seq<bv8>, after: seq<bv8>)
    requires addr != 0 && GoodCount(count) && |data| == 2 * count
    ensures var s := Request(addr, startReg, count) + Reply(addr, data) + after;
            Look(s, START, addr, Byte(2 * count)) == Header(11)
            <==> EchoIsQuiet(addr, startReg, count) && CrcIsQuiet(addr, startReg, count)
    ensures EchoIsQuiet(addr, startReg, count) && CrcIsQuiet(addr, startReg, count) ==>
              Succeeds(Request(addr, startReg, count) + Reply(addr, data) + after, addr, count)
  {
    var n := Byte(2 * count);
    var e := Request(addr, startReg, count);
    var s := e + Reply(addr, data) + after;
    assert s[..8] == e && s[8..11] == [addr, READ_HOLDING, n];
    EarlyWindows(addr, startReg, count, s);
    CrcWindows(addr, startReg, count, s);
    if EchoIsQuiet(addr, startReg, count) && CrcIsQuiet(addr, startReg, count) {
      ReplyIsAccepted(e, data, after, addr, count);
    } else {
      var i: nat :| i < 10 && WindowAt(s, i).Matches(addr, n);
      var k := FirstMatch(s, addr, n, i);
      EarlierMatchWins(s, addr, n, k);
    }
  }

  // ---------------------------------------------------------------- the one request that trips

  lemma CrcOneMore(m: seq<bv8>, b: bv8, x: bv16, c: bv16, d: bv16, longer: seq<bv8>)
    requires ModbusCrc(m) == c && longer == m + [b] && x == b as bv16
    requires Turns16(c ^ x, MODBUS_POLY, true, 8) == d
    ensures ModbusCrc(longer) == d
  {
    assert longer[..|m|] == m;
  }

  lemma TurnsOfExample()
    ensures Turns16(0xFFFF ^ 5, MODBUS_POLY, true, 8) == 0x437F
    ensures Turns16(0x437F ^ 3, MODBUS_POLY, true, 8) == 0xE142
    ensures Turns16(0xE142 ^ 0, MODBUS_POLY, true, 8) == 0x3161
    ensures Turns16(0x3161 ^ 0, MODBUS_POLY, true, 8) == 0xE8F0
    ensures Turns16(0xE8F0 ^ 0, MODBUS_POLY, true, 8) == 0x44E8
    ensures Turns16(0x44E8 ^ 19, MODBUS_POLY, true, 8) == 0x8305
  {
  }

  lemma CrcOfExample()
    ensures ModbusCrc([5, 3, 0, 0, 0, 19]) == 0x8305
  {
    TurnsOfExample();
    CrcOneMore([], 5, 5, 0xFFFF, 0x437F, [5]);
    CrcOneMore([5], 3, 3, 0x437F, 0xE142, [5, 3]);
    CrcOneMore([5, 3], 0, 0, 0xE142, 0x3161, [5, 3, 0]);
    CrcOneMore([5, 3, 0], 0, 0, 0x3161, 0xE8F0, [5, 3, 0, 0]);
    CrcOneMore([5, 3, 0, 0], 0, 0, 0xE8F0, 0x44E8, [5, 3, 0, 0, 0]);
    CrcOneMore([5, 3, 0, 0, 0], 19, 19, 0x44E8, 0x8305, [5, 3, 0, 0, 0, 19]);
  }

  lemma RequestOfExample()
    ensures Request(5, 0, 19) == [5, 3, 0, 0, 0, 19, 5, 0x83]
  {
    CrcOfExample();
    assert HighByte(0) == 0 && LowByte(0) == 0 && Byte(19) == 19;
    assert LowByte(0x8305) == 5 && HighByte(0x8305) == 0x83;
  }

  /**
   Reading 19 registers from register 0 of slave 5: the CRC of the request reads 05 83 on the
   wire, so its echo is taken for an exception of slave 5 and a valid reply is never reached.
   */
  lemma EchoTakenForException(after: seq<bv8>)
    ensures !CrcIsQuiet(5, 0, 19)
    ensures Look(Request(5, 0, 19) + after, START, 5, Byte(38)) == Exception(8)
    ensures !Succeeds(Request(5, 0, 19) + after, 5, 19)
  {
    RequestOfExample();
    var s := Request(5, 0, 19) + after;
    assert WindowAt(s, 0) == Window(0, 0, 5) && WindowAt(s, 1) == Window(0, 5, 3) && WindowAt(s, 2) == Window(5, 3, 0);
    assert WindowAt(s, 3) == Window(3, 0, 0) && WindowAt(s, 4) == Window(0, 0, 0) && WindowAt(s, 5) == Window(0, 0, 19);
    assert WindowAt(s, 6) == Window(0, 19, 5) && WindowAt(s, 7) == Window(19, 5, 0x83);
    forall i: nat | i < 8
      ensures Seen(s, START, i) == WindowAt(s, i)
    {
      AfterIsWindowAt(s, i);
    }
    assert Byte(38) == 38;
    LookFinds(s, START, 5, 38, 7);
  }

  // ---------------------------------------------------------------- what a match means

  lemma AfterLastThree(s: seq<bv8>, n: nat)
    requires 0 < n <= |s|
    ensures After(s[..n], START) == WindowAt(s, n - 1)
  {
    AfterIsWindowAt(s, n - 1);
  }

  /**
   The three header bytes were received one after the other, for every address but 0: then
   the zeros the window starts with can stand in for the address byte.
   */
  lemma HeaderReceivedIff(addr: bv8)
    ensures (forall s: seq<bv8>, nData: bv8, k: nat :: Look(s, START, addr, nData) == Header(k) ==>
               3 <= k <= |s| && s[k - 3..k] == [addr, READ_HOLDING, nData])
            <==> addr != 0
  {
    if addr != 0 {
      forall s: seq<bv8>, nData: bv8, k: nat | Look(s, START, addr, nData) == Header(k)
        ensures 3 <= k <= |s| && s[k - 3..k] == [addr, READ_HOLDING, nData]
      {
        HeaderReceived(s, addr, nData, k);
      }
    } else {
      PhantomAddress();
    }
  }

  lemma HeaderReceived(s: seq<bv8>, addr: bv8, nData: bv8, k: nat)
    requires addr != 0 && Look(s, START, addr, nData) == Header(k)
    ensures 3 <= k <= |s| && s[k - 3..k] == [addr, READ_HOLDING, nData]
  {
    LookSound(s, START, addr, nData);
    AfterLastThree(s, k);
  }

  lemma PhantomAddress()
    ensures Look([READ_HOLDING, 2], START, 0, 2) == Header(2)
  {
    assert [READ_HOLDING, 2][1..] == [2];
    assert Look([2], Window(0, 0, READ_HOLDING), 0, 2) == Header(1);
  }

  // ---------------------------------------------------------------- register values on the wire

  function Wire(regs: seq<bv16>): seq<bv8> {
    if regs == [] then [] else [HighByte(regs[0]), LowByte(regs[0])] + Wire(regs[1..])
  }

  /** Decoding undoes the slave's big-endian encoding. */
  lemma {:induction false} RegistersOfWire(regs: seq<bv16>)
    ensures Registers(Wire(regs)) == regs && |Wire(regs)| == 2 * |regs|
  {
    if regs != [] {
      RegistersOfWire(regs[1..]);
      assert Wire(regs)[2..] == Wire(regs[1..]);
      WordOfBytes(regs[0]);
    }
  }

  lemma WordOfBytes(x: bv16)
    ensures ((HighByte(x) as bv16) << 8) | (LowByte(x) as bv16) == x
  {
  }
}
