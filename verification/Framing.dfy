/**
 Protocol.hpp: what the firmware sends to the GUI, and a decoder written from the protocol
 description alone (lines 13 to 32).
 */
module Framing {
  import opened Options
  import opened Words
  import opened Checksum

  const INT8_MAX := 127
  const NUM_ERR_CODES := 3
  const PAD: byte := 32

  /** -n as an int8_t on the wire. */
  function Minus(n: int): byte
    requires -128 <= n <= 128
  {
    if n > 0 then 256 - n else -n
  }

  /** The uint8_t sum of two. */
  function AddByte(a: byte, b: byte): byte { if a + b < 256 then a + b else a + b - 256 }

  /** A uint16_t on the wire, in the byte order of the targets. */
  function Word16(n: nat): seq<byte> { [n % 256, (n / 256) % 256] }

  /** What memory holds behind an error text and behind the two bytes of Pad. */
  datatype Beyond = Beyond(text: seq<byte>, pad: byte)

  /** PadSize bytes from Pad on: for PadSize 3 that is one more than Pad has. */
  function Pads(n: nat, m: Beyond): seq<byte>
    requires n <= 3
  {
    [PAD, PAD, m.pad][..n]
  }

  // ---------------------------------------------------------------- the sender

  /** info_message_. */
  function InfoBlock(t: seq<byte>): seq<byte>
    requires |t| <= INT8_MAX
  {
    [|t|] + t + [Sum(t)]
  }

  /** info_message: chunks of 127 bytes, and what is left. */
  function InfoBytes(t: seq<byte>): seq<byte> {
    if |t| > INT8_MAX then InfoBlock(t[..INT8_MAX]) + InfoBytes(t[INT8_MAX..]) else InfoBlock(t)
  }

  /** error_message_ for a text of at least 3 bytes. */
  function TextBlock(t: seq<byte>): seq<byte>
    requires |t| <= INT8_MAX
  {
    [Minus(|t|)] + t + [Sum(t)]
  }

  /** Behind a text shorter than 3 bytes there is enough to read. */
  predicate Readable(t: seq<byte>, m: Beyond) {
    |t| >= NUM_ERR_CODES || |t + m.text| >= NUM_ERR_CODES
  }

  /**
   error_message_. A text shorter than 3 bytes is extended to 3 from whatever follows it in
   memory, and the pad comes after that.
   */
  function ErrorBlock(t: seq<byte>, m: Beyond): seq<byte>
    requires Readable(t, m) && |t| <= INT8_MAX
  {
    if |t| >= NUM_ERR_CODES then TextBlock(t)
    else
      var body, pad := (t + m.text)[..NUM_ERR_CODES], Pads(NUM_ERR_CODES - |t|, m);
      [Minus(NUM_ERR_CODES)] + body + pad + [AddByte(Sum(body), Sum(pad))]
  }

  /** return_error_message: one error block, then info blocks. */
  function ErrorBytes(t: seq<byte>, m: Beyond): seq<byte>
    requires Readable(t, m)
  {
    if |t| > INT8_MAX then TextBlock(t[..INT8_MAX]) + InfoBytes(t[INT8_MAX..]) else ErrorBlock(t, m)
  }

  /** return_error_code. */
  function CodeBytes(code: int): seq<byte>
    requires -128 <= code < NUM_ERR_CODES
  { [Minus(code), Minus(code)] }

  /** ReturnBytesBuffered and ReturnBytesUnbuffered. */
  function ReplyBytes(d: seq<byte>): seq<byte> {
    [0] + Word16(|d| % 0x10000) + d + [Sum(d)]
  }

  // ---------------------------------------------------------------- the receiver

  datatype Message = Reply(data: seq<byte>) | ErrorCode(code: int) | ErrorText(text: seq<byte>) | Info(text: seq<byte>)

  /** One block off the front of the stream; None when it is incomplete or its checksum is wrong. */
  function DecodeOne(s: seq<byte>): (r: Option<(Message, seq<byte>)>)
    ensures r.Some? ==> |r.value.1| < |s|
  {
    if s == [] then None
    else if s[0] == 0 then
      if |s| < 3 then None
      else
        var d := Checked(s[3..], (s[1] as int) + 256 * (s[2] as int));
        if d.None? then None else Some((Reply(d.value.0), d.value.1))
    else if s[0] <= INT8_MAX then
      var d := Checked(s[1..], s[0]);
      if d.None? then None else Some((Info(d.value.0), d.value.1))
    else if 256 - s[0] < NUM_ERR_CODES then
      if |s| < 2 || s[1] != s[0] then None else Some((ErrorCode(256 - s[0]), s[2..]))
    else
      var d := Checked(s[1..], 256 - s[0]);
      if d.None? then None else Some((ErrorText(d.value.0), d.value.1))
  }

  /** n bytes and their checksum off the front of s. */
  function Checked(s: seq<byte>, n: nat): (r: Option<(seq<byte>, seq<byte>)>)
    ensures r.Some? ==> |r.value.1| < |s| && |r.value.0| == n
  {
    if |s| <= n || s[n] != Sum(s[..n]) then None else Some((s[..n], s[n + 1..]))
  }

  /** All blocks off the front, and what is left. */
  function Decode(s: seq<byte>): (seq<Message>, seq<byte>)
    decreases |s|
  {
    match DecodeOne(s)
    case None => ([], s)
    case Some((m, rest)) => var (ms, left) := Decode(rest); ([m] + ms, left)
  }

  // ---------------------------------------------------------------- what the messages are

  /** One call of a sending function. */
  datatype Emission =
    | EmitReply(d: seq<byte>)
    | EmitCode(code: int)
    | EmitInfo(t: seq<byte>)
    | EmitError(t: seq<byte>, m: Beyond)

  /** What return_error_code asserts of a code, and 3 readable bytes behind a short text. */
  predicate Possible(e: Emission) {
    match e
    case EmitReply(_) => true
    case EmitCode(code) => -128 <= code < NUM_ERR_CODES
    case EmitInfo(_) => true
    case EmitError(t, m) => Readable(t, m)
  }

  function Emit(e: Emission): seq<byte>
    requires Possible(e)
  {
    match e
    case EmitReply(d) => ReplyBytes(d)
    case EmitCode(code) => CodeBytes(code)
    case EmitInfo(t) => InfoBytes(t)
    case EmitError(t, m) => ErrorBytes(t, m)
  }

  /** The blocks an info text arrives in. */
  function InfoMessages(t: seq<byte>): seq<Message> {
    if |t| > INT8_MAX then [Info(t[..INT8_MAX])] + InfoMessages(t[INT8_MAX..]) else [Info(t)]
  }

  function Messages(e: Emission): seq<Message> {
    match e
    case EmitReply(d) => [Reply(d)]
    case EmitCode(code) => [ErrorCode(code)]
    case EmitInfo(t) => InfoMessages(t)
    case EmitError(t, _) =>
      if |t| > INT8_MAX then [ErrorText(t[..INT8_MAX])] + InfoMessages(t[INT8_MAX..]) else [ErrorText(t)]
  }

  predicate AllPossible(es: seq<Emission>) { forall i :: 0 <= i < |es| ==> Possible(es[i]) }

  function AllBytes(es: seq<Emission>): seq<byte>
    requires AllPossible(es)
  {
    if es == [] then [] else Emit(es[0]) + AllBytes(es[1..])
  }

  function AllMessages(es: seq<Emission>): seq<Message> {
    if es == [] then [] else Messages(es[0]) + AllMessages(es[1..])
  }

  /** The emissions the framing can carry. */
  predicate Carried(e: Emission) {
    match e
    case EmitReply(d) => |d| < 0x10000
    case EmitCode(code) => code >= 1
    case EmitInfo(t) => |t| >= 1
    case EmitError(t, _) => |t| >= NUM_ERR_CODES
  }

  predicate AllCarried(es: seq<Emission>) { forall i :: 0 <= i < |es| ==> Carried(es[i]) }

  // ---------------------------------------------------------------- proofs

  lemma CheckedTakes(t: seq<byte>, rest: seq<byte>)
    ensures Checked(t + [Sum(t)] + rest, |t|) == Some((t, rest))
  {
    var s := t + [Sum(t)] + rest;
    assert s[..|t|] == t && s[|t| + 1..] == rest;
  }

  lemma InfoTakes(t: seq<byte>, rest: seq<byte>)
    requires 1 <= |t| <= INT8_MAX
    ensures DecodeOne(InfoBlock(t) + rest) == Some((Info(t), rest))
  {
    CheckedTakes(t, rest);
    var s := InfoBlock(t) + rest;
    assert s[0] == |t|;
    assert s[1..] == t + [Sum(t)] + rest;
  }

  lemma ErrorTakes(t: seq<byte>, rest: seq<byte>)
    requires NUM_ERR_CODES <= |t| <= INT8_MAX
    ensures DecodeOne(TextBlock(t) + rest) == Some((ErrorText(t), rest))
  {
    CheckedTakes(t, rest);
    var s := TextBlock(t) + rest;
    assert s[0] == 256 - |t|;
    assert s[1..] == t + [Sum(t)] + rest;
  }

  lemma ReplyTakes(d: seq<byte>, rest: seq<byte>)
    requires |d| < 0x10000
    ensures DecodeOne(ReplyBytes(d) + rest) == Some((Reply(d), rest))
  {
    CheckedTakes(d, rest);
    var s := ReplyBytes(d) + rest;
    assert s[3..] == d + [Sum(d)] + rest;
    assert s[1] == |d| % 256 && s[2] == |d| / 256;
  }

  lemma CodeTakes(code: nat, rest: seq<byte>)
    requires 1 <= code < NUM_ERR_CODES
    ensures DecodeOne(CodeBytes(code) + rest) == Some((ErrorCode(code), rest))
  {
    assert (CodeBytes(code) + rest)[2..] == rest;
  }

  /** Decoding what starts with the blocks of `ms` followed by `rest`. */
  ghost predicate DecodesAs(s: seq<byte>, ms: seq<Message>, rest: seq<byte>) {
    Decode(s) == (ms + Decode(rest).0, Decode(rest).1)
  }

  lemma DecodesBlock(s: seq<byte>, m: Message, rest: seq<byte>)
    requires DecodeOne(s) == Some((m, rest))
    ensures DecodesAs(s, [m], rest)
  {
  }

  lemma AssocMessages(a: seq<Message>, b: seq<Message>, c: seq<Message>)
    ensures a + (b + c) == (a + b) + c
  {
  }

  lemma DecodesThen(s: seq<byte>, ms: seq<Message>, mid: seq<byte>, ns: seq<Message>, rest: seq<byte>)
    requires DecodesAs(s, ms, mid) && DecodesAs(mid, ns, rest)
    ensures DecodesAs(s, ms + ns, rest)
  {
    AssocMessages(ms, ns, Decode(rest).0);
  }

  /** The first of several chunks, with everything after it. */
  lemma InfoStep(t: seq<byte>, rest: seq<byte>)
    requires |t| > INT8_MAX
    ensures DecodesAs(InfoBytes(t) + rest, [Info(t[..INT8_MAX])], InfoBytes(t[INT8_MAX..]) + rest)
  {
    var mid := InfoBytes(t[INT8_MAX..]) + rest;
    InfoTakes(t[..INT8_MAX], mid);
    DecodesBlock(InfoBlock(t[..INT8_MAX]) + mid, Info(t[..INT8_MAX]), mid);
    Assoc(InfoBlock(t[..INT8_MAX]), InfoBytes(t[INT8_MAX..]), rest);
  }

  lemma Assoc(a: seq<byte>, b: seq<byte>, c: seq<byte>)
    ensures (a + b) + c == a + (b + c)
  {
  }

  lemma InfoLast(t: seq<byte>, rest: seq<byte>)
    requires 1 <= |t| <= INT8_MAX
    ensures DecodesAs(InfoBytes(t) + rest, InfoMessages(t), rest)
  {
    InfoTakes(t, rest);
    DecodesBlock(InfoBlock(t) + rest, Info(t), rest);
  }

  lemma {:induction false} InfoDecodes(t: seq<byte>, rest: seq<byte>)
    requires |t| >= 1
    ensures DecodesAs(InfoBytes(t) + rest, InfoMessages(t), rest)
    decreases |t|
  {
    if |t| > INT8_MAX {
      var tail := t[INT8_MAX..];
      InfoStep(t, rest);
      InfoDecodes(tail, rest);
      DecodesThen(InfoBytes(t) + rest, [Info(t[..INT8_MAX])], InfoBytes(tail) + rest, InfoMessages(tail), rest);
    } else {
      InfoLast(t, rest);
    }
  }

  lemma ErrorStep(t: seq<byte>, m: Beyond, rest: seq<byte>)
    requires |t| > INT8_MAX
    ensures DecodesAs(ErrorBytes(t, m) + rest, [ErrorText(t[..INT8_MAX])], InfoBytes(t[INT8_MAX..]) + rest)
  {
    var head, mid := t[..INT8_MAX], InfoBytes(t[INT8_MAX..]) + rest;
    ErrorTakes(head, mid);
    DecodesBlock(TextBlock(head) + mid, ErrorText(head), mid);
    Assoc(TextBlock(head), InfoBytes(t[INT8_MAX..]), rest);
  }

  lemma ErrorLast(t: seq<byte>, m: Beyond, rest: seq<byte>)
    requires NUM_ERR_CODES <= |t| <= INT8_MAX
    ensures DecodesAs(ErrorBytes(t, m) + rest, [ErrorText(t)], rest)
  {
    assert ErrorBytes(t, m) == TextBlock(t);
    ErrorTakes(t, rest);
    DecodesBlock(TextBlock(t) + rest, ErrorText(t), rest);
  }

  lemma ErrorDecodes(t: seq<byte>, m: Beyond, rest: seq<byte>)
    requires |t| >= NUM_ERR_CODES
    ensures DecodesAs(ErrorBytes(t, m) + rest, Messages(EmitError(t, m)), rest)
  {
    if |t| > INT8_MAX {
      var tail := t[INT8_MAX..];
      ErrorStep(t, m, rest);
      InfoDecodes(tail, rest);
      DecodesThen(ErrorBytes(t, m) + rest, [ErrorText(t[..INT8_MAX])], InfoBytes(tail) + rest, InfoMessages(tail),
                  rest);
    } else {
      ErrorLast(t, m, rest);
    }
  }

  lemma EmissionDecodes(e: Emission, rest: seq<byte>)
    requires Possible(e) && Carried(e)
    ensures DecodesAs(Emit(e) + rest, Messages(e), rest)
  {
    match e
    case EmitReply(d) =>
      ReplyTakes(d, rest);
      DecodesBlock(Emit(e) + rest, Reply(d), rest);
    case EmitCode(code) =>
      CodeTakes(code, rest);
      DecodesBlock(Emit(e) + rest, ErrorCode(code), rest);
    case EmitInfo(t) =>
      InfoDecodes(t, rest);
    case EmitError(t, m) =>
      ErrorDecodes(t, m, rest);
  }

  /** The GUI splits any concatenation of emissions back into the same messages, with nothing left. */
  lemma {:induction false} StreamDecodes(es: seq<Emission>)
    requires AllPossible(es) && AllCarried(es)
    ensures Decode(AllBytes(es)) == (AllMessages(es), [])
  {
    if es != [] {
      EmissionDecodes(es[0], AllBytes(es[1..]));
      StreamDecodes(es[1..]);
    }
  }

  /** ... and each restriction is needed: an emission comes back as itself exactly when it is carried. */
  lemma ComesBackIff(e: Emission)
    requires Possible(e)
    ensures Decode(Emit(e)) == (Messages(e), []) <==> Carried(e)
  {
    if Carried(e) {
      CarriedComesBack(e);
    } else {
      match e
      case EmitReply(d) => TooLongReply(d);
      case EmitCode(code) => NotACode(code);
      case EmitInfo(t) => assert Emit(e) == [0, Sum([])];
      case EmitError(t, m) => ShortError(t, m);
    }
  }

  lemma CarriedComesBack(e: Emission)
    requires Possible(e) && Carried(e)
    ensures Decode(Emit(e)) == (Messages(e), [])
  {
    EmissionDecodes(e, []);
    assert Emit(e) + [] == Emit(e) && Decode([]) == ([], []);
    assert Messages(e) + [] == Messages(e);
  }

  /** The first message that decoding yields is the first block. */
  lemma FirstBlock(s: seq<byte>)
    ensures Decode(s).0 != [] ==> DecodeOne(s).Some? && Decode(s).0[0] == DecodeOne(s).value.0
  {
  }

  /** A code of 0 or less looks like the start of a longer block. */
  lemma NotACode(code: int)
    requires -128 <= code <= 0
    ensures Decode(CodeBytes(code)).0 == []
  {
    assert CodeBytes(code)[0] == -code;
  }

  /** A reply of 65536 bytes or more announces its length modulo 65536. */
  lemma TooLongReply(d: seq<byte>)
    requires |d| >= 0x10000
    ensures Decode(ReplyBytes(d)).0 != [Reply(d)]
  {
    var s := ReplyBytes(d);
    assert s[0] == 0 && (s[1] as int) + 256 * (s[2] as int) == |d| % 0x10000;
    FirstBlock(s);
  }

  /** A text shorter than 3 bytes comes back longer, or not at all. */
  lemma ShortError(t: seq<byte>, m: Beyond)
    requires |t| < NUM_ERR_CODES && Readable(t, m)
    ensures Decode(ErrorBytes(t, m)).0 != [ErrorText(t)]
  {
    var s := ErrorBytes(t, m);
    assert s[0] == 253;
    FirstBlock(s);
  }

  // ---------------------------------------------------------------- the bytes themselves

  lemma WordBytes(n: nat)
    ensures Word16(n % 0x10000) == [n % 256, n / 256 % 256]
  {
    var q := n / 0x10000;
    assert n % 0x10000 == n - q * 0x10000;
    assert n / 256 == q * 256 + n % 0x10000 / 256;
  }

  /** The two error codes, and the header of a reply. */
  lemma CodesOnTheWire(d: seq<byte>)
    ensures CodeBytes(1) == [255, 255] && CodeBytes(2) == [254, 254]
    ensures ReplyBytes(d)[..3] == [0, |d| % 256, |d| / 256 % 256]
  {
    WordBytes(|d|);
    HeaderFirst(Word16(|d| % 0x10000), d);
  }

  lemma HeaderFirst(w: seq<byte>, d: seq<byte>)
    requires |w| == 2
    ensures ([0] + w + d + [Sum(d)])[..3] == [0] + w
  {
  }

  /** A text of three bytes goes as it is; shorter ones take bytes from behind them, and blanks. */
  lemma ShortTextsOnTheWire(t: seq<byte>, x: byte, y: byte, z: byte, pad: byte)
    requires |t| <= 3
    ensures var m, b := Beyond([x, y, z], pad), ErrorBlock(t, Beyond([x, y, z], pad));
            && b[0] == 253 && b[1..4] == (t + [x, y, z])[..3]
            && b[4..|b| - 1] == match |t| case 3 => [] case 2 => [32] case 1 => [32, 32] case _ => [32, 32, pad]
  {
  }

  // ---------------------------------------------------------------- long texts

  function Texts(ms: seq<Message>): seq<byte> {
    if ms == [] then []
    else (match ms[0] case Info(t) => t case ErrorText(t) => t case _ => []) + Texts(ms[1..])
  }

  /** A text of n bytes arrives in ceil(n / 127) non-empty blocks which add up to it. */
  lemma {:induction false} InfoSplits(t: seq<byte>)
    requires |t| >= 1
    ensures |InfoMessages(t)| == (|t| + 126) / 127
    ensures Texts(InfoMessages(t)) == t
    ensures forall m :: m in InfoMessages(t) ==> m.Info? && 1 <= |m.text| <= 127
    decreases |t|
  {
    var ms := InfoMessages(t);
    if |t| > INT8_MAX {
      InfoSplits(t[INT8_MAX..]);
      assert ms[1..] == InfoMessages(t[INT8_MAX..]);
      assert t == t[..INT8_MAX] + t[INT8_MAX..];
    } else {
      assert ms[1..] == [];
    }
  }

  /** An error text likewise, its first block being the error block. */
  lemma ErrorSplits(t: seq<byte>, m: Beyond)
    requires |t| >= 1
    ensures var ms := Messages(EmitError(t, m));
            && |ms| == (|t| + 126) / 127 && Texts(ms) == t
            && ms[0].ErrorText? && forall i :: 0 < i < |ms| ==> ms[i].Info?
  {
    var ms := Messages(EmitError(t, m));
    if |t| > INT8_MAX {
      InfoSplits(t[INT8_MAX..]);
      assert ms[1..] == InfoMessages(t[INT8_MAX..]);
      assert t == t[..INT8_MAX] + t[INT8_MAX..];
    } else {
      assert ms[1..] == [];
    }
  }

  // ---------------------------------------------------------------- replies in parts

  function Flat(parts: seq<seq<byte>>): seq<byte> {
    if parts == [] then [] else Flat(parts[..|parts| - 1]) + parts[|parts| - 1]
  }

  /** The parts in their order, each as it is. */
  lemma {:induction false} FlatInOrder(parts: seq<seq<byte>>, i: nat)
    requires i < |parts|
    ensures Flat(parts) == Flat(parts[..i]) + parts[i] + Flat(parts[i + 1..])
    ensures Flat([parts[i]]) == parts[i]
  {
    var front, n := parts[..|parts| - 1], |parts| - 1;
    var one := [parts[i]];
    assert |one[..0]| == 0;
    if i < n {
      FlatInOrder(front, i);
      assert front[..i] == parts[..i] && parts[i + 1..][..n - i - 1] == front[i + 1..];
      Assoc(Flat(parts[..i]) + parts[i], Flat(front[i + 1..]), parts[n]);
    } else {
      assert |parts[n + 1..]| == 0 && front == parts[..i];
    }
  }

  /** The size and the checksum ReturnMultiByPtrs accumulates, in a uint16_t and a uint8_t. */
  function PartsSize(parts: seq<seq<byte>>): nat {
    if parts == [] then 0 else (PartsSize(parts[..|parts| - 1]) + |parts[|parts| - 1]|) % 0x10000
  }

  function PartsSum(parts: seq<seq<byte>>): byte {
    if parts == [] then 0 else AddByte(PartsSum(parts[..|parts| - 1]), Sum(parts[|parts| - 1]))
  }

  lemma {:induction false} PartsAddUp(parts: seq<seq<byte>>)
    ensures PartsSize(parts) == |Flat(parts)| % 0x10000 && PartsSum(parts) == Sum(Flat(parts))
  {
    if parts != [] {
      var rest, p := parts[..|parts| - 1], parts[|parts| - 1];
      PartsAddUp(rest);
      SumConcat(Flat(rest), p);
      ModAdd(|Flat(rest)|, |p|, 0x10000);
    }
  }
}
