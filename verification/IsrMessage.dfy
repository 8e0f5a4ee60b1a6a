/**
 ISR_Message.hpp: characters put from an interrupt handler and logged from the main loop.
 */
module IsrMessages {
  import opened BlockRings

  const OVERRUN := '$'

  lemma BlockThenRest(text: seq<char>, s: seq<char>, rest: seq<char>, queue: seq<char>, n: nat)
    requires n <= |queue| && s == queue[..n] && rest == queue[n..]
    ensures text + s + rest == text + queue
  {
  }

  /** What became of one character given to putchar. */
  datatype Fate = Stored | Replaced | Dropped

  function Text(c: char, f: Fate): seq<char> {
    match f
    case Stored => [c]
    case Replaced => [OVERRUN]
    case Dropped => []
  }

  function Render(input: seq<char>, fates: seq<Fate>): seq<char>
    requires |input| == |fates|
  {
    if input == [] then []
    else Render(input[..|input| - 1], fates[..|input| - 1]) + Text(input[|input| - 1], fates[|input| - 1])
  }

  /** How many characters of the text the fates account for. */
  function Shown(fates: seq<Fate>): nat {
    if fates == [] then 0 else Shown(fates[..|fates| - 1]) + if fates[|fates| - 1] == Dropped then 0 else 1
  }

  /** The text, character by character: '$' for every replaced one, and stored ones as they are. */
  lemma {:induction false} RenderShows(input: seq<char>, fates: seq<Fate>, i: nat)
    requires |input| == |fates| && i < |fates| && fates[i] != Dropped
    ensures |Render(input, fates)| == Shown(fates) && Shown(fates[..i]) < Shown(fates)
    ensures Render(input, fates)[Shown(fates[..i])] == if fates[i] == Replaced then '$' else input[i]
  {
    var n := |fates| - 1;
    RenderLength(input, fates);
    RenderLength(input[..n], fates[..n]);
    if i < n {
      RenderShows(input[..n], fates[..n], i);
      assert fates[..n][..i] == fates[..i];
    }
  }

  lemma {:induction false} RenderLength(input: seq<char>, fates: seq<Fate>)
    requires |input| == |fates|
    ensures |Render(input, fates)| == Shown(fates)
  {
    if input != [] {
      RenderLength(input[..|input| - 1], fates[..|fates| - 1]);
    }
  }

  /** No silent loss: a dropped character always follows a rejected one, so '$' opens every gap. */
  predicate GapsAreMarked(fates: seq<Fate>) {
    forall i :: 0 <= i < |fates| && fates[i].Dropped? ==> i > 0 && !fates[i - 1].Stored?
  }

  lemma RenderOneMore(input: seq<char>, fates: seq<Fate>, c: char, f: Fate)
    requires |input| == |fates|
    ensures Render(input + [c], fates + [f]) == Render(input, fates) + Text(c, f)
  {
    assert (input + [c])[..|input|] == input && (fates + [f])[..|input|] == fates;
  }

  /** The first rejected character of every run of rejections is the replaced one. */
  lemma GapOpensWithMark(fates: seq<Fate>, i: nat)
    requires GapsAreMarked(fates) && i < |fates| && !fates[i].Stored?
    requires i == 0 || fates[i - 1].Stored?
    ensures fates[i] == Replaced
  {
  }

  /** What becomes of a character that finds so many free cells. */
  function FateOf(free: int): Fate { if free == 0 then Dropped else if free == 1 then Replaced else Stored }

  /**
   `text` tells the whole input, and, in a ring of two cells or more, a full buffer means the
   last character was rejected.
   */
  ghost predicate Tells(input: seq<char>, fates: seq<Fate>, text: seq<char>, size: nat, free: int) {
    && |input| == |fates|
    && text == Render(input, fates)
    && (size >= 2 ==> GapsAreMarked(fates) && (free == 0 ==> |fates| > 0 && !fates[|fates| - 1].Stored?))
  }

  /** The buffer can only become full by writing '$', so a drop always follows a rejection. */
  lemma TellsOneMore(
      input: seq<char>, fates: seq<Fate>, logged: seq<char>, buffered: seq<char>, size: nat, free: int, c: char)
    requires Tells(input, fates, logged + buffered, size, free) && 0 <= free < size
    ensures Tells(input + [c], fates + [FateOf(free)], logged + (buffered + Text(c, FateOf(free))), size,
                  if free == 0 then 0 else free - 1)
  {
    RenderOneMore(input, fates, c, FateOf(free));
    assert logged + buffered + Text(c, FateOf(free)) == logged + (buffered + Text(c, FateOf(free)));
  }

  /**
   What may happen: an interrupt puts a character, or the main loop takes one of its two steps,
   the first of which interrupts may interrupt with further characters.
   */
  datatype Event = Put(c: char) | BeginLog(during: seq<char>) | EndLog

  // ---------------------------------------------------------------- what is decided by the events alone

  /**
   The fates so far and what decides the next ones: where reading goes on, the characters
   buffered, and how many of them are being logged.
   */
  datatype Load = Load(r: int, n: int, block: int, fates: seq<Fate>)

  function PutLoad(size: nat, s: Load): Load {
    var f := FateOf(size - 1 - s.n);
    s.(n := if f.Dropped? then s.n else s.n + 1, fates := s.fates + [f])
  }

  function PutLoads(size: nat, s: Load, k: nat): Load {
    if k == 0 then s else PutLoad(size, PutLoads(size, s, k - 1))
  }

  lemma PutLoadsNext(size: nat, s: Load, k: nat)
    ensures PutLoads(size, s, k + 1) == PutLoad(size, PutLoads(size, s, k))
  {
  }

  lemma OneCharMore(input: seq<char>, cs: seq<char>, k: nat)
    requires k < |cs|
    ensures input + cs[..k] + [cs[k]] == input + cs[..k + 1]
  {
  }

  /** The block is what was buffered when the write index was read, up to the end of the ring. */
  function BeginLoad(size: nat, s: Load, k: nat): Load {
    var t := PutLoads(size, s, k);
    if s.block != 0 then t else t.(block := if s.n <= size - s.r then s.n else size - s.r)
  }

  function EndLoad(size: nat, s: Load): Load {
    var r := s.r + s.block;
    s.(r := if r < size then r else r - size, n := s.n - s.block, block := 0)
  }

  function RunLoad(size: nat, s: Load, events: seq<Event>): Load {
    if events == [] then s
    else
      EventLoad(size, RunLoad(size, s, events[..|events| - 1]), events[|events| - 1])
  }

  function EventLoad(size: nat, t: Load, e: Event): Load {
    match e
    case Put(_) => PutLoad(size, t)
    case BeginLog(during) => BeginLoad(size, t, |during|)
    case EndLog => EndLoad(size, t)
  }

  class IsrMessage {
    const Buf: BlockRing<char>
    ghost var Input: seq<char>
    ghost var Fates: seq<Fate>
    ghost var Logged: seq<char>

    ghost predicate Valid()
      reads this, Buf, Buf.Buffer
    {
      && Buf.Valid()
      && Tells(Input, Fates, Logged + Unlogged(), Buf.g.size, Free())
    }

    ghost function Free(): int
      reads Buf
    {
      Buf.g.size - 1 - |Buf.Queue|
    }

    ghost function Now(): Load
      reads this, Buf
    {
      Load(Buf.BeingRead, |Buf.Queue|, Buf.LastBlockSize, Fates)
    }

    /** The text not handed to log_func yet; the block in progress already was. */
    ghost function Unlogged(): seq<char>
      reads this, Buf
      requires Buf.LastBlockSize <= |Buf.Queue|
    {
      Buf.Queue[Buf.LastBlockSize..]
    }

    constructor (sizeLog2: nat)
      requires sizeLog2 <= 32
      ensures Valid() && fresh(Buf) && fresh(Buf.Buffer) && Buf.g.size == Words.Pow2(sizeLog2)
      ensures Input == [] && Logged == [] && Now() == Load(0, 0, 0, [])
    {
      Buf := new BlockRing(sizeLog2, 32, 64);
      Input, Fates, Logged := [], [], [];
    }

    method putchar(c: char) returns (r: int)
      requires Valid()
      modifies this`Input, this`Fates, Buf`BeingWritten, Buf`Queue, Buf.Buffer
      ensures Valid() && Input == old(Input) + [c]
      ensures Now() == PutLoad(Buf.g.size, old(Now()))
      ensures Buf.Queue == old(Buf.Queue) + if old(Free()) == 0 then [] else if old(Free()) == 1 then ['$'] else [c]
      ensures r == if old(Free()) >= 2 then c as int else -1
      ensures Buf.Block() == old(Buf.Block()) && old(Buf.Queue) <= Buf.Queue
    {
      ghost var before, free := Unlogged(), Free();
      r := Store(c);
      ghost var f := FateOf(free);
      assert Unlogged() == before + Text(c, f);
      TellsOneMore(Input, Fates, Logged, before, Buf.g.size, free, c);
      Input := Input + [c];
      Fates := Fates + [f];
    }

    /** The switch of putchar. */
    method Store(c: char) returns (r: int)
      requires Buf.Valid()
      modifies Buf`BeingWritten, Buf`Queue, Buf.Buffer
      ensures Buf.Valid() && Buf.Queue == old(Buf.Queue) + Text(c, FateOf(old(Free())))
      ensures Buf.Block() == old(Buf.Block())
      ensures r == if FateOf(old(Free())).Stored? then c as int else -1
    {
      var left := Buf.LeftToWrite();
      if left == 0 {
        r := -1;
      } else if left == 1 {
        Buf.Write_(OVERRUN);
        r := -1;
      } else {
        Buf.Write_(c);
        r := c as int;
      }
    }

    /** Characters put by interrupts, one after the other. */
    method PutAll(cs: seq<char>)
      requires Valid()
      modifies this`Input, this`Fates, Buf`BeingWritten, Buf`Queue, Buf.Buffer
      ensures Valid() && Input == old(Input) + cs && Now() == PutLoads(Buf.g.size, old(Now()), |cs|)
      ensures Buf.Block() == old(Buf.Block()) && old(Buf.Queue) <= Buf.Queue
    {
      ghost var before, queue, input := Now(), Buf.Queue, Input;
      for k := 0 to |cs|
        invariant Valid() && PutSoFar(cs, k, before, queue, input)
      {
        PutNext(cs, k, before, queue, input);
      }
      assert cs[..|cs|] == cs;
    }

    /** The first k of the characters were put. */
    ghost predicate PutSoFar(cs: seq<char>, k: nat, before: Load, queue: seq<char>, input: seq<char>)
      requires k <= |cs|
      reads this, Buf
    {
      Input == input + cs[..k] && Now() == PutLoads(Buf.g.size, before, k) && queue <= Buf.Queue
    }

    method PutNext(cs: seq<char>, k: nat, ghost before: Load, ghost queue: seq<char>, ghost input: seq<char>)
      requires Valid() && k < |cs| && PutSoFar(cs, k, before, queue, input)
      modifies this`Input, this`Fates, Buf`BeingWritten, Buf`Queue, Buf.Buffer
      ensures Valid() && PutSoFar(cs, k + 1, before, queue, input)
    {
      PutLoadsNext(Buf.g.size, before, k);
      OneCharMore(input, cs, k);
      var _ := putchar(cs[k]);
    }

    /** A block is handed to log_func. */
    method LogBlock(frozen: nat) returns (s: seq<char>)
      requires Valid() && Buf.LastBlockSize == 0
      requires frozen < Buf.g.size && Buf.g.Count(Buf.BeingRead, frozen) <= |Buf.Queue|
      modifies this`Logged, Buf`LastBlockSize
      ensures Valid() && Logged == old(Logged) + s && |s| == Buf.LastBlockSize
      ensures Buf.LastBlockSize == if Buf.BeingRead == frozen then 0 else BlockLength(Buf.g.size, Buf.BeingRead, frozen)
    {
      var ok, start := Buf.TakeUpTo(frozen);
      s := if ok then Buf.Buffer[start..start + Buf.LastBlockSize] else [];
      BlockThenRest(Logged, s, Unlogged(), Buf.Queue, Buf.LastBlockSize);
      assert old(Unlogged()) == Buf.Queue;
      Logged := Logged + s;
    }

    /**
     GetContinousBlockToRead and the call of log_func, interrupted after BeingWritten was read;
     nothing happens while a block is out.
     */
    method BeginLog(during: seq<char>) returns (s: seq<char>)
      requires Valid()
      modifies this`Input, this`Fates, Buf`BeingWritten, Buf`Queue, Buf.Buffer, this`Logged, Buf`LastBlockSize
      ensures Valid() && Input == old(Input) + during && Logged == old(Logged) + s
      ensures Now() == BeginLoad(Buf.g.size, old(Now()), |during|)
      ensures s == [] <==> old(Buf.LastBlockSize) > 0 || old(Buf.Queue) == []
    {
      if Buf.LastBlockSize != 0 {
        PutAll(during);
        return [];
      }
      var frozen := Buf.BeingWritten;
      PutAll(during);
      s := LogBlock(frozen);
    }

    /** The final FinishedReading, which call_in_loop reaches only after logging a block. */
    method EndLog()
      requires Valid()
      modifies Buf`BeingRead, Buf`LastBlockSize, Buf`Queue
      ensures Valid() && Unlogged() == old(Unlogged()) && Now() == EndLoad(Buf.g.size, old(Now()))
    {
      Buf.FinishedReading();
      assert Unlogged() == Buf.Queue;
    }

    method call_in_loop() returns (s: seq<char>)
      requires Valid() && Buf.LastBlockSize == 0
      modifies this`Input, this`Fates, Buf`BeingWritten, Buf.Buffer
      modifies this`Logged, Buf`BeingRead, Buf`LastBlockSize, Buf`Queue
      ensures Valid() && Logged == old(Logged) + s && Buf.LastBlockSize == 0 && Input == old(Input)
      ensures Logged + Unlogged() == old(Logged + Unlogged())
      ensures s == [] ==> Unlogged() == []
    {
      s := BeginLog([]);
      assert Input == old(Input) && Fates == old(Fates);
      if s != [] {
        EndLog();
      }
    }

    /**
     Every run: whatever the interleaving, all that was logged followed by what is buffered
     is the whole input with every gap opened by '$', and a character is kept exactly when it
     found two free cells.
     */
    method Run(events: seq<Event>)
      requires Valid() && Input == []
      modifies this, Buf, Buf.Buffer
      ensures Valid() && Input == Puts(events) && Now() == RunLoad(Buf.g.size, old(Now()), events)
      ensures Logged + Unlogged() == Render(Puts(events), Fates) && (Buf.g.size >= 2 ==> GapsAreMarked(Fates))
      ensures |Logged + Unlogged()| == Shown(Fates) && forall i :: 0 <= i < |Fates| && Fates[i] != Dropped ==>
                ShownAt(Logged + Unlogged(), Fates, i, if Fates[i] == Replaced then '$' else Puts(events)[i])
    {
      for k := 0 to |events|
        invariant Valid() && Input == Puts(events[..k]) && Now() == RunLoad(Buf.g.size, old(Now()), events[..k])
      {
        OneEventMore(Buf.g.size, old(Now()), events, k);
        match events[k]
        case Put(c) => var _ := putchar(c);
        case BeginLog(during) => var _ := BeginLog(during);
        case EndLog => EndLog();
      }
      assert events[..|events|] == events;
      TextShows(Input, Fates);
    }
  }

  /** The character of the text that stands for character i of the input. */
  predicate ShownAt(text: seq<char>, fates: seq<Fate>, i: nat, c: char)
    requires i < |fates|
  {
    Shown(fates[..i]) < |text| && text[Shown(fates[..i])] == c
  }

  lemma TextShows(input: seq<char>, fates: seq<Fate>)
    requires |input| == |fates|
    ensures |Render(input, fates)| == Shown(fates)
    ensures forall i :: 0 <= i < |fates| && fates[i] != Dropped ==>
              ShownAt(Render(input, fates), fates, i, if fates[i] == Replaced then '$' else input[i])
  {
    RenderLength(input, fates);
    forall i | 0 <= i < |fates| && fates[i] != Dropped
      ensures ShownAt(Render(input, fates), fates, i, if fates[i] == Replaced then '$' else input[i])
    {
      RenderShows(input, fates, i);
    }
  }

  function Puts(events: seq<Event>): seq<char> {
    if events == [] then []
    else
      Puts(events[..|events| - 1]) + PutsOf(events[|events| - 1])
  }

  function PutsOf(e: Event): seq<char> {
    match e case Put(c) => [c] case BeginLog(during) => during case EndLog => []
  }

  lemma OneEventMore(size: nat, s: Load, events: seq<Event>, k: nat)
    requires k < |events|
    ensures Puts(events[..k + 1]) == Puts(events[..k]) + PutsOf(events[k])
    ensures RunLoad(size, s, events[..k + 1]) == EventLoad(size, RunLoad(size, s, events[..k]), events[k])
  {
    assert events[..k + 1][..k] == events[..k];
  }

  // ---------------------------------------------------------------- when nothing is lost

  /** So many characters put by an event. */
  function PutsIn(e: Event): nat {
    |PutsOf(e)|
  }

  lemma {:induction false} FewPuts(size: nat, s: Load, k: nat)
    requires s.n + k <= size - 2 && forall i :: 0 <= i < |s.fates| ==> s.fates[i] == Stored
    ensures var t := PutLoads(size, s, k);
            && t.n == s.n + k && t.r == s.r && t.block == s.block && |t.fates| == |s.fates| + k
            && forall i :: 0 <= i < |t.fates| ==> t.fates[i] == Stored
  {
    if k > 0 {
      FewPuts(size, s, k - 1);
    }
  }

  /** The block being logged is buffered, and lies before the end of the ring. */
  predicate InRing(size: nat, s: Load) { 0 <= s.r < size && 0 <= s.block <= s.n && s.r + s.block <= size }

  predicate AllStored(fates: seq<Fate>) { forall i :: 0 <= i < |fates| ==> fates[i] == Stored }

  lemma EventKeepsAll(size: nat, s: Load, e: Event)
    requires InRing(size, s) && AllStored(s.fates) && s.n + PutsIn(e) <= size - 2
    ensures var t := RunLoad(size, s, [e]);
            InRing(size, t) && AllStored(t.fates) && t.n <= s.n + PutsIn(e) && |t.fates| == |s.fates| + PutsIn(e)
  {
    FewPuts(size, s, PutsIn(e));
    assert [e][..0] == [];
    assert PutLoads(size, s, 1) == PutLoad(size, PutLoads(size, s, 0));
  }

  lemma RunLoadLast(size: nat, s: Load, events: seq<Event>)
    requires events != []
    ensures RunLoad(size, s, events) == RunLoad(size, RunLoad(size, s, events[..|events| - 1]), [events[|events| - 1]])
    ensures |Puts(events)| == |Puts(events[..|events| - 1])| + PutsIn(events[|events| - 1])
  {
    assert [events[|events| - 1]][..0] == [];
  }

  /** A run of no more characters than a ring of its size can keep unmarked keeps them all. */
  lemma {:induction false} FewAreKept(size: nat, s: Load, events: seq<Event>)
    requires InRing(size, s) && AllStored(s.fates) && s.n + |Puts(events)| <= size - 2
    ensures var t := RunLoad(size, s, events);
            && InRing(size, t) && AllStored(t.fates) && t.n <= s.n + |Puts(events)|
            && |t.fates| == |s.fates| + |Puts(events)|
    decreases |events|
  {
    if events != [] {
      RunLoadLast(size, s, events);
      FewAreKept(size, s, events[..|events| - 1]);
      EventKeepsAll(size, RunLoad(size, s, events[..|events| - 1]), events[|events| - 1]);
    }
  }

  /** ... so the text is the input itself. */
  lemma {:induction false} AllStoredIsInput(input: seq<char>, fates: seq<Fate>)
    requires |input| == |fates| && AllStored(fates)
    ensures Render(input, fates) == input
  {
    if input != [] {
      AllStoredIsInput(input[..|input| - 1], fates[..|fates| - 1]);
    }
  }

  /** In a ring of one cell nothing is ever marked: a gap opens with a dropped character. */
  lemma OneCellMarksNothing(s: Load, c: char)
    requires s.n == 0 && s.fates == []
    ensures !GapsAreMarked(RunLoad(1, s, [Put(c)]).fates)
  {
    assert [Put(c)][..0] == [];
    assert PutLoad(1, s).fates[0] == Dropped;
  }
}
