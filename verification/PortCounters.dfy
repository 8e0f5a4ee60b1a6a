/**
 Port.hpp: RunningCS and BytesTransmitted, which leave out the literal ESC_code bytes.
 */
module PortCounters {
  import opened Words
  import opened Checksum
  import opened PortSpec

  datatype Tally = Tally(cs: byte, n: nat) {
    function Add(data: seq<byte>): Tally {
      Tally((cs + Sum(data)) % 256, (n + |data|) % 0x10000)
    }
  }

  /** What is counted for an item, and what it puts on the line. */
  function CountedItem(esc: byte, x: Item): seq<byte> {
    if x == Single(esc) then [] else LineItem(x)
  }

  function LineItem(x: Item): seq<byte> {
    match x case Single(d) => [d] case Block(data, _) => data
  }

  function Line(items: seq<Item>): seq<byte> {
    if items == [] then [] else Line(items[..|items| - 1]) + LineItem(items[|items| - 1])
  }

  /** The bytes both counters are about. */
  function Counted(esc: byte, items: seq<Item>): seq<byte> {
    if items == [] then [] else Counted(esc, items[..|items| - 1]) + CountedItem(esc, items[|items| - 1])
  }

  function TallyOf(esc: byte, items: seq<Item>): Tally {
    Tally(Sum(Counted(esc, items)), |Counted(esc, items)| % 0x10000)
  }

  function Literals(esc: byte, items: seq<Item>): nat {
    if items == [] then 0
    else Literals(esc, items[..|items| - 1]) + (if items[|items| - 1] == Single(esc) then 1 else 0)
  }

  /** What the literal `esc` bytes add up to. */
  function LiteralTotal(esc: byte, items: seq<Item>): nat {
    if items == [] then 0
    else LiteralTotal(esc, items[..|items| - 1]) + (if items[|items| - 1] == Single(esc) then esc else 0)
  }

  /** Both counters follow what is accepted, one item at a time. */
  lemma TallyAppend(esc: byte, items: seq<Item>, x: Item)
    ensures TallyOf(esc, items + [x]) == TallyOf(esc, items).Add(CountedItem(esc, x))
  {
    assert (items + [x])[..|items|] == items;
    ModAdd(|Counted(esc, items)|, |CountedItem(esc, x)|, 0x10000);
    SumConcat(Counted(esc, items), CountedItem(esc, x));
  }

  lemma TallyFollows(esc: byte, items: seq<Item>, x: Item, t: Tally, u: Tally)
    requires u == t.Add(CountedItem(esc, x))
    ensures t == TallyOf(esc, items) ==> u == TallyOf(esc, items + [x])
  {
    TallyAppend(esc, items, x);
  }

  /** The line is what the events put on it. */
  lemma {:induction false} LineIsOnLine(items: seq<Item>)
    ensures OnLine(Events(items)) == Line(items)
  {
    if items != [] {
      var rest, x := items[..|items| - 1], items[|items| - 1];
      LineIsOnLine(rest);
      OnLineConcat(Events(rest), ItemEvents(x));
      match x
      case Single(d) =>
        assert [Byte(d)][1..] == [];
      case Block(data, f) =>
        OnLineBytes(data);
        OnLineConcat(Bytes(data), Releases(f));
        assert f.Some? ==> Releases(f)[1..] == [];
    }
  }

  lemma {:induction false} LineLength(esc: byte, items: seq<Item>)
    ensures |Line(items)| == |Counted(esc, items)| + Literals(esc, items)
  {
    if items != [] {
      LineLength(esc, items[..|items| - 1]);
    }
  }

  lemma {:induction false} LineTotal(esc: byte, items: seq<Item>)
    ensures Total(Line(items)) == Total(Counted(esc, items)) + LiteralTotal(esc, items)
  {
    if items != [] {
      var rest, x := items[..|items| - 1], items[|items| - 1];
      LineTotal(esc, rest);
      TotalConcat(Line(rest), LineItem(x));
      TotalConcat(Counted(esc, rest), CountedItem(esc, x));
      if x == Single(esc) {
        TotalOne(esc);
        assert Counted(esc, items) == Counted(esc, rest);
      }
    }
  }

  /** BytesTransmitted is right exactly when the literal ESC_code bytes are a multiple of 65536. */
  lemma CountMatchesIff(esc: byte, items: seq<Item>)
    ensures TallyOf(esc, items).n == |OnLine(Events(items))| % 0x10000 <==> Literals(esc, items) % 0x10000 == 0
  {
    LineIsOnLine(items);
    LineLength(esc, items);
    SameRemainderIff(|Counted(esc, items)|, Literals(esc, items), 0x10000);
  }

  /** RunningCS is right exactly when the literal ESC_code bytes add up to 0 modulo 256. */
  lemma ChecksumMatchesIff(esc: byte, items: seq<Item>)
    ensures TallyOf(esc, items).cs == Sum(OnLine(Events(items))) <==> LiteralTotal(esc, items) % 256 == 0
  {
    LineIsOnLine(items);
    LineTotal(esc, items);
    SumsAgreeIff(Counted(esc, items), Line(items), LiteralTotal(esc, items));
  }

  lemma SumsAgreeIff(p: seq<byte>, q: seq<byte>, k: nat)
    requires Total(q) == Total(p) + k
    ensures Sum(p) == Sum(q) <==> k % 256 == 0
  {
    SameRemainderIff(Total(p), k, 256);
  }

  lemma SameRemainderIff(a: nat, k: nat, m: nat)
    requires m > 0
    ensures a % m == (a + k) % m <==> k % m == 0
  {
    var q, q', r := a / m, (a + k) / m, a % m;
    if r == (a + k) % m {
      assert k == (q' - q) * m + 0;
      DivModUnique(k, m, q' - q, 0);
    }
    if k % m == 0 {
      ModShift(a, k / m, m);
    }
  }
}
