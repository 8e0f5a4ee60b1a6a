/**
 Port.hpp: the release callbacks, read off what happened and off what was asked for.
 */
module PortCallbacks {
  import opened Options
  import opened Words
  import opened PortSpec

  /** The callbacks that ran, in order. */
  function Callbacks(e: seq<Event>): seq<Callback> {
    if e == [] then []
    else (match e[0] case Byte(_) => [] case Release(f) => [f]) + Callbacks(e[1..])
  }

  /** The callbacks that writers passed with their blocks, in order. */
  function Asked(items: seq<Item>): seq<Callback> {
    if items == [] then []
    else Asked(items[..|items| - 1]) + AskedWith(items[|items| - 1])
  }

  function AskedWith(x: Item): seq<Callback> {
    match x
    case Single(_) => []
    case Block(_, None) => []
    case Block(_, Some(f)) => [f]
  }

  lemma {:induction false} CallbacksConcat(a: seq<Event>, b: seq<Event>)
    ensures Callbacks(a + b) == Callbacks(a) + Callbacks(b)
  {
    if a == [] {
      assert a + b == b;
    } else {
      var first := match a[0] case Byte(_) => [] case Release(f) => [f];
      assert (a + b)[0] == a[0] && (a + b)[1..] == a[1..] + b;
      CallbacksConcat(a[1..], b);
      assert (first + Callbacks(a[1..])) + Callbacks(b) == first + (Callbacks(a[1..]) + Callbacks(b));
    }
  }

  lemma {:induction false} NoCallbackInBytes(p: seq<byte>)
    ensures Callbacks(Bytes(p)) == []
  {
    if p != [] {
      BytesHead(p);
      assert Bytes(p)[1..] == Bytes(p[1..]);
      NoCallbackInBytes(p[1..]);
    }
  }

  lemma CallbackOf(f: Callback)
    ensures Callbacks([Release(f)]) == [f]
  {
    assert [Release(f)][1..] == [];
  }

  /** A byte shows as itself; a block as its bytes and then its callback, if it has one. */
  lemma ItemShows(x: Item)
    ensures match x
            case Single(d) => ItemEvents(x) == [Byte(d)]
            case Block(data, release) =>
              && |ItemEvents(x)| == |data| + (if release.Some? then 1 else 0)
              && (forall i :: 0 <= i < |data| ==> ItemEvents(x)[i] == Byte(data[i]))
              && (release.Some? ==> ItemEvents(x)[|data|] == Release(release.value))
    ensures Callbacks(ItemEvents(x)) == AskedWith(x)
  {
    match x
    case Single(d) =>
      assert [Byte(d)][1..] == [];
    case Block(data, release) =>
      NoCallbackInBytes(data);
      CallbacksConcat(Bytes(data), Releases(release));
      if release.Some? {
        CallbackOf(release.value);
      }
  }

  /** Every callback asked for runs once, in the order of the blocks, and no other does. */
  lemma {:induction false} CallbacksAreAsked(items: seq<Item>)
    ensures Callbacks(Events(items)) == Asked(items)
  {
    if items != [] {
      var rest, x := items[..|items| - 1], items[|items| - 1];
      CallbacksAreAsked(rest);
      CallbacksConcat(Events(rest), ItemEvents(x));
      ItemShows(x);
    }
  }

  /** Item j shows on the line behind what the items before it show. */
  lemma {:induction false} ItemPlace(items: seq<Item>, j: nat)
    requires j < |items|
    ensures var n, e := |Events(items[..j])|, ItemEvents(items[j]);
            n + |e| <= |Events(items)| && Events(items)[n..n + |e|] == e
  {
    var rest := items[..|items| - 1];
    if j < |items| - 1 {
      ItemPlace(rest, j);
      assert rest[..j] == items[..j];
    }
  }

  /** The bytes of data one by one, then the callback f, and nothing else. */
  ghost predicate BytesThen(e: seq<Event>, data: seq<byte>, f: Callback) {
    && |e| == |data| + 1 && e[|data|] == Release(f)
    && forall i :: 0 <= i < |data| ==> e[i] == Byte(data[i])
  }

  lemma BlockShows(data: seq<byte>, f: Callback)
    ensures BytesThen(ItemEvents(Block(data, Some(f))), data, f)
  {
    ItemShows(Block(data, Some(f)));
  }

  /** The callback of a block comes directly behind the last of its bytes. */
  lemma CallbackFollowsItsBytes(items: seq<Item>, j: nat)
    requires j < |items| && items[j].Block? && items[j].release.Some?
    ensures var n, x := |Events(items[..j])|, items[j];
            && n + |x.data| + 1 <= |Events(items)|
            && BytesThen(Events(items)[n..n + |x.data| + 1], x.data, x.release.value)
  {
    ItemPlace(items, j);
    BlockShows(items[j].data, items[j].release.value);
  }

  /**
   Every run: the callbacks that ran are the beginning of those asked for, and once the port
   is drained they are all of them.
   */
  lemma EveryRunReleases(esc: byte, steps: seq<Step>, byteWise: bool)
    requires Run(Initial(esc), steps, byteWise).Some?
    ensures var t := Run(Initial(esc), steps, byteWise).value;
            && Callbacks(t.log) + Callbacks(t.Pending()) == Asked(t.items)
            && (if byteWise then GetByte(t).1.None? ==> Callbacks(GetByte(t).0.log) == Asked(t.items)
                else GetBlock(t).1.None? ==> Callbacks(GetBlock(t).0.log) == Asked(t.items))
  {
    var t := Run(Initial(esc), steps, byteWise).value;
    EveryRun(esc, steps, byteWise);
    CallbacksConcat(t.log, t.Pending());
    CallbacksAreAsked(t.items);
  }

  /** In any state: with nothing left to send every callback asked for has run, once. */
  lemma DrainedHasReleased(s: State)
    requires s.Inv() && s.Pending() == []
    ensures Callbacks(s.log) == Asked(s.items)
  {
    assert s.log + [] == s.log;
    CallbacksAreAsked(s.items);
  }
}
