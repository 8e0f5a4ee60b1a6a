/**
 Protocol.hpp: what each sending function asks of the port, item by item, and that on the line
 this is the framing.
 */
module ProtocolItems {
  import opened Options
  import opened Words
  import opened Checksum
  import opened PortSpec
  import opened PortCounters
  import opened Ports
  import Framing

  /** One block of a reply in parts: where its bytes go from, and its callback when unbuffered. */
  datatype Part = Part(src: seq<byte>, Buffered: bool, pFunc: Option<Callback>)

  /** A buffered write promises bytes, an unbuffered one a block; nothing to write promises nothing. */
  function DataItems(p: Part): seq<Item> {
    if p.Buffered then Singles(p.src) else if p.src == [] then [] else [Block(p.src, p.pFunc)]
  }

  function Text(t: seq<byte>, NonVolat: bool): Part { Part(t, !NonVolat, None) }

  function InfoBlockItems(t: seq<byte>, NonVolat: bool): seq<Item>
    requires |t| <= Framing.INT8_MAX
  {
    Singles([|t|]) + DataItems(Text(t, NonVolat)) + Singles([Sum(t)])
  }

  function InfoItems(t: seq<byte>, NonVolat: bool): seq<Item> {
    if |t| > Framing.INT8_MAX
    then InfoBlockItems(t[..Framing.INT8_MAX], NonVolat) + InfoItems(t[Framing.INT8_MAX..], NonVolat)
    else InfoBlockItems(t, NonVolat)
  }

  function TextBlockItems(t: seq<byte>, NonVolat: bool): seq<Item>
    requires |t| <= Framing.INT8_MAX
  {
    Singles([Framing.Minus(|t|)]) + DataItems(Text(t, NonVolat)) + Singles([Sum(t)])
  }

  function PaddedItems(code: byte, p: Part, q: Part, cs: byte): seq<Item> {
    Singles([code]) + DataItems(p) + DataItems(q) + Singles([cs])
  }

  /** The padded form of a text shorter than 3 bytes. */
  function ShortItems(body: seq<byte>, pad: seq<byte>, NonVolat: bool): seq<Item>
    requires |body| <= Framing.INT8_MAX
  {
    PaddedItems(Framing.Minus(|body|), Text(body, NonVolat), Text(pad, true), Framing.AddByte(Sum(body), Sum(pad)))
  }

  function ErrorBlockItems(t: seq<byte>, m: Framing.Beyond, NonVolat: bool): seq<Item>
    requires Framing.Readable(t, m) && |t| <= Framing.INT8_MAX
  {
    if |t| >= Framing.NUM_ERR_CODES then TextBlockItems(t, NonVolat)
    else ShortItems((t + m.text)[..Framing.NUM_ERR_CODES], Framing.Pads(Framing.NUM_ERR_CODES - |t|, m), NonVolat)
  }

  function ErrorItems(t: seq<byte>, m: Framing.Beyond, NonVolat: bool): seq<Item>
    requires Framing.Readable(t, m)
  {
    if |t| > Framing.INT8_MAX
    then TextBlockItems(t[..Framing.INT8_MAX], NonVolat) + InfoItems(t[Framing.INT8_MAX..], NonVolat)
    else ErrorBlockItems(t, m, NonVolat)
  }

  function PartItems(parts: seq<Part>): seq<Item> {
    if parts == [] then [] else PartItems(parts[..|parts| - 1]) + DataItems(parts[|parts| - 1])
  }

  function Datas(parts: seq<Part>): seq<seq<byte>> { seq(|parts|, i requires 0 <= i < |parts| => parts[i].src) }

  /** ReturnMultiByPtrs: its total is a uint16_t and its checksum a uint8_t. */
  function ReplyItems(parts: seq<Part>): seq<Item> {
    HeaderItems(Framing.PartsSize(Datas(parts))) + PartItems(parts) + Singles([Framing.PartsSum(Datas(parts))])
  }

  function HeaderItems(size: nat): seq<Item> { Singles([0]) + Singles(Framing.Word16(size)) }

  lemma PartsNext(parts: seq<Part>, i: nat)
    requires i < |parts|
    ensures PartItems(parts[..i + 1]) == PartItems(parts[..i]) + DataItems(parts[i])
    ensures Framing.PartsSum(Datas(parts[..i + 1]))
              == Framing.AddByte(Framing.PartsSum(Datas(parts[..i])), Sum(parts[i].src))
  {
    assert parts[..i + 1][..i] == parts[..i];
    assert Datas(parts[..i + 1])[..i] == Datas(parts[..i]);
  }

  lemma {:induction false} PartsSplit(parts: seq<Part>, i: nat)
    requires i <= |parts|
    ensures PartItems(parts) == PartItems(parts[..i]) + PartItems(parts[i..])
  {
    if i == |parts| {
      assert parts[..i] == parts;
    } else {
      var rest, p := parts[..|parts| - 1], DataItems(parts[|parts| - 1]);
      PartsSplit(rest, i);
      assert rest[..i] == parts[..i];
      assert parts[i..][..|parts| - 1 - i] == rest[i..];
      assert PartItems(parts[i..]) == PartItems(rest[i..]) + p;
      Assoc(PartItems(rest[..i]), PartItems(rest[i..]), p);
    }
  }

  /** A single part is sent as ReturnBytesBuffered or ReturnBytesUnbuffered sends it. */
  lemma OnePart(p: Part)
    ensures ReplyItems([p]) == HeaderItems(|p.src| % 0x10000) + DataItems(p) + Singles([Sum(p.src)])
  {
    assert PartItems([p]) == DataItems(p) by {
      assert [p][..0] == [];
      assert [] + DataItems(p) == DataItems(p);
    }
    var d := Datas([p]);
    assert |d| == 1 && d[0] == p.src && d[..0] == [];
    assert Framing.PartsSize(d) == |p.src| % 0x10000;
    assert Framing.PartsSum(d) == Sum(p.src);
  }

  // ---------------------------------------------------------------- on the line

  lemma {:induction false} LineConcat(a: seq<Item>, b: seq<Item>)
    ensures Line(a + b) == Line(a) + Line(b)
  {
    if b == [] {
      assert a + b == a;
    } else {
      assert (a + b)[..|a + b| - 1] == a + b[..|b| - 1];
      LineConcat(a, b[..|b| - 1]);
    }
  }

  lemma {:induction false} LineOfSingles(d: seq<byte>)
    ensures Line(Singles(d)) == d
  {
    if d != [] {
      assert Singles(d)[..|d| - 1] == Singles(d[..|d| - 1]);
      LineOfSingles(d[..|d| - 1]);
    }
  }

  /** Buffered or not, the same bytes. */
  lemma LineOfData(p: Part)
    ensures Line(DataItems(p)) == p.src
  {
    LineOfSingles(p.src);
    assert [Block(p.src, p.pFunc)][..0] == [];
  }

  lemma LineOfThree(a: seq<byte>, p: Part, c: seq<byte>)
    ensures Line(Singles(a) + DataItems(p) + Singles(c)) == a + p.src + c
  {
    LineConcat(Singles(a) + DataItems(p), Singles(c));
    LineConcat(Singles(a), DataItems(p));
    LineOfSingles(a);
    LineOfData(p);
    LineOfSingles(c);
  }

  lemma {:induction false} InfoLine(t: seq<byte>, NonVolat: bool)
    ensures Line(InfoItems(t, NonVolat)) == Framing.InfoBytes(t)
    decreases |t|
  {
    if |t| > Framing.INT8_MAX {
      var head, tail := t[..Framing.INT8_MAX], t[Framing.INT8_MAX..];
      InfoBlockLine(head, NonVolat);
      InfoLine(tail, NonVolat);
      LineConcat(InfoBlockItems(head, NonVolat), InfoItems(tail, NonVolat));
    } else {
      InfoBlockLine(t, NonVolat);
    }
  }

  lemma InfoBlockLine(t: seq<byte>, NonVolat: bool)
    requires |t| <= Framing.INT8_MAX
    ensures Line(InfoBlockItems(t, NonVolat)) == Framing.InfoBlock(t)
  {
    LineOfThree([|t|], Text(t, NonVolat), [Sum(t)]);
  }

  lemma TextBlockLine(t: seq<byte>, NonVolat: bool)
    requires |t| <= Framing.INT8_MAX
    ensures Line(TextBlockItems(t, NonVolat)) == Framing.TextBlock(t)
  {
    LineOfThree([Framing.Minus(|t|)], Text(t, NonVolat), [Sum(t)]);
  }

  lemma PaddedLine(code: byte, p: Part, q: Part, cs: byte)
    ensures Line(PaddedItems(code, p, q, cs)) == [code] + p.src + q.src + [cs]
  {
    var front := Singles([code]) + DataItems(p);
    LineConcat(front + DataItems(q), Singles([cs]));
    LineConcat(front, DataItems(q));
    LineConcat(Singles([code]), DataItems(p));
    LineOfSingles([code]);
    LineOfData(p);
    LineOfData(q);
    LineOfSingles([cs]);
  }

  lemma ShortLine(body: seq<byte>, pad: seq<byte>, NonVolat: bool)
    requires |body| <= Framing.INT8_MAX
    ensures Line(ShortItems(body, pad, NonVolat))
              == [Framing.Minus(|body|)] + body + pad + [Framing.AddByte(Sum(body), Sum(pad))]
  {
    PaddedLine(Framing.Minus(|body|), Text(body, NonVolat), Text(pad, true), Framing.AddByte(Sum(body), Sum(pad)));
  }

  lemma ErrorLine(t: seq<byte>, m: Framing.Beyond, NonVolat: bool)
    requires Framing.Readable(t, m)
    ensures Line(ErrorItems(t, m, NonVolat)) == Framing.ErrorBytes(t, m)
  {
    if |t| > Framing.INT8_MAX {
      var head, tail := t[..Framing.INT8_MAX], t[Framing.INT8_MAX..];
      TextBlockLine(head, NonVolat);
      InfoLine(tail, NonVolat);
      LineConcat(TextBlockItems(head, NonVolat), InfoItems(tail, NonVolat));
    } else if |t| >= Framing.NUM_ERR_CODES {
      TextBlockLine(t, NonVolat);
    } else {
      ShortLine((t + m.text)[..Framing.NUM_ERR_CODES], Framing.Pads(Framing.NUM_ERR_CODES - |t|, m), NonVolat);
    }
  }

  lemma {:induction false} PartsLine(parts: seq<Part>)
    ensures Line(PartItems(parts)) == Framing.Flat(Datas(parts))
  {
    if parts != [] {
      var rest, p := parts[..|parts| - 1], parts[|parts| - 1];
      assert Datas(parts)[..|parts| - 1] == Datas(rest);
      PartsLine(rest);
      LineConcat(PartItems(rest), DataItems(p));
      LineOfData(p);
    }
  }

  /** A reply in parts is, on the line, the reply with the concatenated data. */
  lemma ReplyLine(parts: seq<Part>)
    ensures Line(ReplyItems(parts)) == Framing.ReplyBytes(Framing.Flat(Datas(parts)))
  {
    var size, cs := Framing.Word16(Framing.PartsSize(Datas(parts))), [Framing.PartsSum(Datas(parts))];
    Framing.PartsAddUp(Datas(parts));
    LineConcat(Singles([0]) + Singles(size) + PartItems(parts), Singles(cs));
    LineConcat(Singles([0]) + Singles(size), PartItems(parts));
    LineConcat(Singles([0]), Singles(size));
    LineOfSingles([0]);
    LineOfSingles(size);
    LineOfSingles(cs);
    PartsLine(parts);
  }

  // ---------------------------------------------------------------- copied, or sent from where it lies

  /** Everything is copied into the byte ring. */
  predicate AllCopied(items: seq<Item>) { forall i :: 0 <= i < |items| ==> items[i].Single? }

  /** The blocks among the items, which are sent from where they lie. */
  function BlocksIn(items: seq<Item>): seq<Item> {
    if items == [] then []
    else BlocksIn(items[..|items| - 1]) + if items[|items| - 1].Block? then [items[|items| - 1]] else []
  }

  lemma CopiedConcat(a: seq<Item>, b: seq<Item>)
    requires AllCopied(a) && AllCopied(b)
    ensures AllCopied(a + b)
  {
  }

  lemma OneSingle(b: byte)
    ensures Singles([b]) == [Single(b)]
  {
  }

  /** Size, block and checksum: what a text block promises when the text stays. */
  lemma FramedBlock(code: byte, t: seq<byte>, cs: byte)
    requires t != []
    ensures Singles([code]) + DataItems(Text(t, true)) + Singles([cs]) == [Single(code), Block(t, None), Single(cs)]
  {
    OneSingle(code);
    OneSingle(cs);
  }

  /** A text that stays is one block between its size and its checksum. */
  lemma StaticTextIsABlock(t: seq<byte>, m: Framing.Beyond)
    requires 1 <= |t| <= 127
    ensures InfoItems(t, true) == [Single(|t|), Block(t, None), Single(Sum(t))]
    ensures |t| >= 3 ==> ErrorItems(t, m, true) == [Single(256 - |t|), Block(t, None), Single(Sum(t))]
  {
    FramedBlock(|t|, t, Sum(t));
    if |t| >= 3 {
      FramedBlock(256 - |t|, t, Sum(t));
    }
  }

  /** A text that may go away is copied. */
  lemma {:induction false} VolatileTextIsCopied(t: seq<byte>, m: Framing.Beyond)
    ensures AllCopied(InfoItems(t, false))
    ensures |t| >= 3 ==> AllCopied(ErrorItems(t, m, false))
    decreases |t|
  {
    if |t| > 127 {
      VolatileTextIsCopied(t[127..], m);
      CopiedConcat(InfoBlockItems(t[..127], false), InfoItems(t[127..], false));
      CopiedConcat(TextBlockItems(t[..127], false), InfoItems(t[127..], false));
    }
  }

  /** A text shorter than 3 bytes: its bytes likewise, and the padding always from where it lies. */
  lemma ShortTextItems(t: seq<byte>, m: Framing.Beyond)
    requires |t| < 3 && Framing.Readable(t, m)
    ensures var body, pad := (t + m.text)[..3], [32, 32, m.pad][..3 - |t|];
            var cs := Single(Framing.AddByte(Sum(body), Sum(pad)));
            && ErrorItems(t, m, true) == [Single(253), Block(body, None), Block(pad, None), cs]
            && ErrorItems(t, m, false) == [Single(253)] + Singles(body) + [Block(pad, None), cs]
  {
  }

  lemma {:induction false} BlocksConcat(a: seq<Item>, b: seq<Item>)
    ensures BlocksIn(a + b) == BlocksIn(a) + BlocksIn(b)
  {
    if b == [] {
      assert a + b == a;
    } else {
      var x := if b[|b| - 1].Block? then [b[|b| - 1]] else [];
      assert (a + b)[..|a + b| - 1] == a + b[..|b| - 1];
      BlocksConcat(a, b[..|b| - 1]);
      assert BlocksIn(a) + (BlocksIn(b[..|b| - 1]) + x) == (BlocksIn(a) + BlocksIn(b[..|b| - 1])) + x;
    }
  }

  /** A long text that stays is one block for every 127 bytes begun. */
  lemma {:induction false} StaticTextIsBlocks(t: seq<byte>)
    requires |t| >= 1
    ensures |BlocksIn(InfoItems(t, true))| == (|t| + 126) / 127
    decreases |t|
  {
    if |t| > 127 {
      StaticTextIsBlocks(t[127..]);
      BlocksConcat(InfoBlockItems(t[..127], true), InfoItems(t[127..], true));
      OneBlock(t[..127]);
    } else {
      OneBlock(t);
    }
  }

  lemma OneBlock(t: seq<byte>)
    requires 1 <= |t| <= 127
    ensures BlocksIn(InfoBlockItems(t, true)) == [Block(t, None)]
  {
    FramedBlock(|t|, t, Sum(t));
    BlocksOfThree(Single(|t|), Block(t, None), Single(Sum(t)));
  }

  lemma BlocksOfThree(a: Item, b: Item, c: Item)
    requires a.Single? && b.Block? && c.Single?
    ensures BlocksIn([a, b, c]) == [b]
  {
    assert [a, b, c][..2] == [a, b] && [a, b][..1] == [a] && [a][..0] == [];
    assert BlocksIn([a]) == [] && BlocksIn([a, b]) == [b];
  }

  /** A reply's data are copied when buffered, and otherwise one block with its callback. */
  lemma ReplyPartItems(d: seq<byte>, f: Option<Callback>)
    ensures var lo, hi := |d| % 256, |d| / 256 % 256;
            && ReplyItems([Part(d, true, f)]) == Singles([0, lo, hi]) + Singles(d) + [Single(Sum(d))]
            && (d != [] ==> ReplyItems([Part(d, false, f)])
                            == Singles([0, lo, hi]) + [Block(d, f)] + [Single(Sum(d))])
  {
    OnePart(Part(d, true, f));
    OnePart(Part(d, false, f));
    HeaderIs(|d|);
    OneSingle(Sum(d));
  }

  lemma HeaderIs(n: nat)
    ensures HeaderItems(n % 0x10000) == Singles([0, n % 256, n / 256 % 256])
  {
    Framing.WordBytes(n);
    var lo, hi := n % 256, n / 256 % 256;
    assert Singles([0]) + Singles([lo, hi]) == Singles([0, lo, hi]);
  }

  // ---------------------------------------------------------------- room in the rings

  /** What was promised so far, and the free cells of the two rings. */
  datatype Room = Room(items: seq<Item>, bytes: int, blocks: int)

  /** Blocks and literal `esc` bytes take a slot of the block ring. */
  function Slots(esc: byte, items: seq<Item>): nat {
    if items == [] then 0
    else
      var x := items[|items| - 1];
      Slots(esc, items[..|items| - 1]) + (if x.Block? || x == Single(esc) then 1 else 0)
  }

  predicate Fits(esc: byte, r: Room, items: seq<Item>) {
    |items| <= r.bytes && Slots(esc, items) <= r.blocks
  }

  /** From s to t `want` was promised, all of it when it fits and otherwise the beginning of it. */
  ghost predicate Promised(esc: byte, s: Room, t: Room, want: seq<Item>) {
    exists got :: got <= want && Gained(esc, s, t, got) && (Fits(esc, s, want) ==> got == want)
  }

  predicate Gained(esc: byte, s: Room, t: Room, got: seq<Item>) {
    t.items == s.items + got && t.bytes == s.bytes - |got| && t.blocks == s.blocks - Slots(esc, got)
  }

  lemma {:induction false} SlotsConcat(esc: byte, a: seq<Item>, b: seq<Item>)
    ensures Slots(esc, a + b) == Slots(esc, a) + Slots(esc, b)
  {
    if b == [] {
      assert a + b == a;
    } else {
      assert (a + b)[..|a + b| - 1] == a + b[..|b| - 1];
      SlotsConcat(esc, a, b[..|b| - 1]);
    }
  }

  lemma {:induction false} SlotsOfSingles(esc: byte, d: seq<byte>)
    ensures Slots(esc, Singles(d)) == Markers(esc, d)
  {
    if d == [] {
    } else {
      var rest, x := d[..|d| - 1], d[|d| - 1];
      assert Singles(d)[..|d| - 1] == Singles(rest);
      SlotsOfSingles(esc, rest);
      MarkersAppend(esc, rest, x);
      assert rest + [x] == d;
    }
  }

  lemma SlotsOfBlock(esc: byte, p: Part)
    requires !p.Buffered && p.src != []
    ensures Slots(esc, DataItems(p)) == 1
  {
    assert DataItems(p)[..0] == [];
  }

  lemma PromisedNothing(esc: byte, s: Room)
    ensures Promised(esc, s, s, [])
  {
    assert Gained(esc, s, s, []);
  }

  /** Having promised all of a, go on with b. */
  lemma PromisedThen(esc: byte, s: Room, t: Room, u: Room, a: seq<Item>, b: seq<Item>)
    requires Promised(esc, s, t, a) && Fits(esc, s, a) && Promised(esc, t, u, b)
    ensures Promised(esc, s, u, a + b) && (Fits(esc, s, a + b) <==> Fits(esc, t, b))
  {
    var got :| got <= b && Gained(esc, t, u, got) && (Fits(esc, t, b) ==> got == b);
    SlotsConcat(esc, a, b);
    SlotsConcat(esc, a, got);
    assert Gained(esc, s, u, a + got);
  }

  /** What does not fit is not followed by anything. */
  lemma PromisedPart(esc: byte, s: Room, t: Room, a: seq<Item>, b: seq<Item>)
    requires Promised(esc, s, t, a) && !Fits(esc, s, a)
    ensures Promised(esc, s, t, a + b) && !Fits(esc, s, a + b)
  {
    var got :| got <= a && Gained(esc, s, t, got) && (Fits(esc, s, a) ==> got == a);
    SlotsConcat(esc, a, b);
    assert got <= a + b;
  }

  /** A part that does not fit is the last one tried. */
  lemma PartsStop(esc: byte, s: Room, t: Room, parts: seq<Part>, i: nat)
    requires i <= |parts| && Promised(esc, s, t, ItemsTo(parts, i)) && !Fits(esc, s, ItemsTo(parts, i))
    ensures Promised(esc, s, t, PartItems(parts)) && !Fits(esc, s, PartItems(parts))
  {
    FirstParts(parts, i);
    PartsSplit(parts, i);
    PromisedPart(esc, s, t, PartItems(parts[..i]), PartItems(parts[i..]));
  }

  /** What the first i parts promise and add up to, as the loop builds it. */
  function ItemsTo(parts: seq<Part>, i: nat): seq<Item>
    requires i <= |parts|
  {
    if i == 0 then [] else ItemsTo(parts, i - 1) + DataItems(parts[i - 1])
  }

  function SumTo(parts: seq<Part>, i: nat): byte
    requires i <= |parts|
  {
    if i == 0 then 0 else Framing.AddByte(SumTo(parts, i - 1), Sum(parts[i - 1].src))
  }

  lemma {:induction false} FirstParts(parts: seq<Part>, i: nat)
    requires i <= |parts|
    ensures ItemsTo(parts, i) == PartItems(parts[..i]) && SumTo(parts, i) == Framing.PartsSum(Datas(parts[..i]))
    ensures i == |parts| ==> ItemsTo(parts, i) == PartItems(parts) && SumTo(parts, i) == Framing.PartsSum(Datas(parts))
  {
    if i > 0 {
      FirstParts(parts, i - 1);
      PartsNext(parts, i - 1);
    }
    assert i == |parts| ==> parts[..i] == parts;
  }
}
