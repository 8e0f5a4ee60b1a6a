/**
 One reader and one writer on the same ring with no lock (CircBuffer.hpp:19-21). Each side
 runs in single memory accesses, and the other side may run between any two of them. A side
 loads the other's index once, and may go by what it loaded at any time later.
 */
module RingInterleaving {
  import opened Options
  import opened Words
  import opened RingIndex

  /**
   The shared memory, what each side keeps to itself, and, to state the theorem, everything
   handed to the ring and everything taken out.
   */
  datatype State<T> = State(
    buf: seq<T>,
    r: nat, rMoving: bool,        // BeingRead; between `++` and NormalizeReadCounter
    w: nat, wMoving: bool,        // BeingWritten; between `++` and the reset
    seenW: Option<nat>,           // BeingWritten as the reader loaded it
    seenR: Option<nat>,           // BeingRead as the writer loaded it
    copied: seq<T>,               // the reader's local copy, before the cell is given back
    written: seq<T>, taken: seq<T>)

  datatype Step<T> =
    | StoreCell(x: T)             // *GetSlotToWrite() = x
    | LoadRead                    // the writer's load in LeftToWrite()
    | AdvanceWrite                // ++BeingWritten
    | SettleWrite
    | LoadWrite                   // the reader's load in LeftToRead()
    | CopyCell                    // temp = *GetSlotToRead()
    | AdvanceRead                 // ++BeingRead
    | SettleRead                  // NormalizeReadCounter()

  ghost function R<T>(g: Ring, s: State<T>): nat { if s.rMoving then g.Normalize(s.r) else s.r }
  ghost function W<T>(g: Ring, s: State<T>): nat { if s.wMoving then g.SettleWrite(s.w) else s.w }

  ghost function Queued<T>(g: Ring, s: State<T>): int { g.Count(R(g, s), W(g, s)) }

  ghost function Cell(g: Ring, r: nat, i: nat): nat {
    if r + i < g.size then r + i else r + i - g.size
  }

  ghost function Prev(g: Ring, i: nat): nat
    requires 0 <= i < g.size
  {
    if i == 0 then g.size - 1 else i - 1
  }

  /** The cells from the read index up to the write index hold what was written and not yet taken. */
  ghost predicate Holds<T>(g: Ring, s: State<T>)
    requires |s.buf| == g.size && R(g, s) < g.size && W(g, s) < g.size
  {
    && s.taken <= s.written
    && |s.written| - |s.taken| == Queued(g, s)
    && forall i: nat :: i < Queued(g, s) ==> s.buf[Cell(g, R(g, s), i)] == s.written[|s.taken| + i]
  }

  ghost predicate Inv<T>(g: Ring, s: State<T>) {
    && Shape(g, s)
    && (s.rMoving ==> s.r == g.Bump(Prev(g, R(g, s))))
    && (s.wMoving ==> s.w == g.BumpWrite(Prev(g, W(g, s))) && (s.w == W(g, s) || W(g, s) != R(g, s)))
    && Holds(g, s)
    && |s.copied| <= 1 && s.taken + s.copied <= s.written
    && (s.copied != [] ==> !s.rMoving)
    && Loaded(g, s)
  }

  /**
   What was loaded may be out of date, but only to the safe side: no more elements than there
   are, and no room that there is not.
   */
  ghost predicate Loaded<T>(g: Ring, s: State<T>)
    requires |s.buf| == g.size && R(g, s) < g.size && W(g, s) < g.size
  {
    && (s.seenW.Some? ==> !s.rMoving && s.copied == [] && g.LeftToRead(s.r, s.seenW.value) <= Queued(g, s))
    && (s.seenR.Some? ==> !s.wMoving && RoomOnce(g, g.LeftToWrite(s.seenR.value, s.w), Queued(g, s), |s.written|))
  }

  /** The room there was with m elements queued, at least the present n. */
  ghost predicate RoomOnce(g: Ring, room: int, n: int, most: int) {
    exists m: nat :: n <= m <= most && m < g.size && room == g.Room(m)
  }

  /** The indices are inside the buffer, or one step of their owner away from it. */
  ghost predicate Shape<T>(g: Ring, s: State<T>) {
    g.Ok() && |s.buf| == g.size && R(g, s) < g.size && W(g, s) < g.size
  }

  /**
   When a side may take a step: it loads the other index as it is in memory, possibly not yet
   normalised, and obeys the rule to ask LeftToWrite or LeftToRead first.
   */
  predicate Enabled<T>(g: Ring, s: State<T>, step: Step<T>)
  {
    match step
    case StoreCell(_) => !s.wMoving
    case LoadRead => !s.wMoving
    case AdvanceWrite => !s.wMoving && s.seenR.Some? && g.LeftToWrite(s.seenR.value, s.w) != 0
    case SettleWrite => s.wMoving
    case LoadWrite => !s.rMoving && s.copied == []
    case CopyCell => !s.rMoving && s.copied == [] && s.seenW.Some? && g.LeftToRead(s.r, s.seenW.value) != 0
    case AdvanceRead => !s.rMoving && s.copied != []
    case SettleRead => s.rMoving
  }

  ghost function Apply<T>(g: Ring, s: State<T>, step: Step<T>): State<T>
    requires Shape(g, s) && Enabled(g, s, step)
  {
    match step
    case StoreCell(x) => s.(buf := s.buf[s.w := x])
    case LoadRead => s.(seenR := Some(s.r))
    case AdvanceWrite => s.(w := g.BumpWrite(s.w), wMoving := true, seenR := None, written := s.written + [s.buf[s.w]])
    case SettleWrite => s.(w := g.SettleWrite(s.w), wMoving := false)
    case LoadWrite => s.(seenW := Some(s.w))
    case CopyCell => s.(copied := [s.buf[s.r]], seenW := None)
    case AdvanceRead => s.(r := g.Bump(s.r), rMoving := true, taken := s.taken + s.copied, copied := [])
    case SettleRead => s.(r := g.Normalize(s.r), rMoving := false)
  }

  /**
   The one thing a reader must not do: empty the ring while the writer has stored an index
   just past the buffer and not reset it yet.
   */
  ghost predicate Careful<T>(g: Ring, s: State<T>, step: Step<T>) {
    step.AdvanceRead? && s.wMoving && s.w != W(g, s) ==> Queued(g, s) >= 2
  }

  /** The write index goes from cell to cell in a single store. */
  ghost predicate SingleStore(g: Ring) {
    g.variant.CompareReset? ==> g.size == Pow2(g.width)
  }

  /** Besides those, only a base ring that never accepts anything (see RingIndex.RoomExactIff). */
  ghost predicate SafeWithoutLocks(g: Ring) {
    SingleStore(g) || (g.size - 1) % 256 == 0
  }

  /** What the other side is told is exact in every interleaved state. */
  lemma SeenExactly<T>(g: Ring, s: State<T>)
    requires Inv(g, s)
    ensures !s.rMoving ==> g.LeftToRead(s.r, s.w) == Queued(g, s)
    ensures !s.wMoving ==> g.LeftToWrite(s.r, s.w) == g.Room(Queued(g, s))
  {
    if !s.rMoving {
      ReaderSeesExactly(g, s);
    }
    if !s.wMoving {
      WriterSeesExactly(g, s);
    }
  }

  lemma ReaderSeesExactly<T>(g: Ring, s: State<T>)
    requires Inv(g, s) && !s.rMoving
    ensures g.LeftToRead(s.r, s.w) == Queued(g, s)
  {
    if s.w == W(g, s) {
      LeftToReadExact(g, s.r, s.w);
    } else {
      var p := Prev(g, W(g, s));
      assert g.Next(p) == W(g, s);
      LeftToReadExact(g, s.r, p);
    }
  }

  lemma WriterSeesExactly<T>(g: Ring, s: State<T>)
    requires Inv(g, s) && !s.wMoving
    ensures g.LeftToWrite(s.r, s.w) == g.Room(Queued(g, s))
  {
    if s.rMoving {
      var p := Prev(g, R(g, s));
      assert g.Next(p) == R(g, s);
      LeftToWriteExact(g, p, s.w);
    } else {
      LeftToWriteExact(g, s.r, s.w);
    }
  }

  lemma AdvanceWriteKeeps<T>(g: Ring, s: State<T>)
    requires Inv(g, s) && Enabled(g, s, AdvanceWrite)
    ensures Inv(g, Apply(g, s, AdvanceWrite))
  {
    IndexStep(g, s.w);
    var t := Apply(g, s, AdvanceWrite);
    RoomOnceMeansRoom(g, g.LeftToWrite(s.seenR.value, s.w), Queued(g, s), |s.written|);
    assert Queued(g, t) == Queued(g, s) + 1;
    assert Cell(g, R(g, s), Queued(g, s)) == s.w;
  }

  lemma AdvanceReadKeeps<T>(g: Ring, s: State<T>)
    requires Inv(g, s) && Enabled(g, s, AdvanceRead) && Careful(g, s, AdvanceRead)
    ensures Inv(g, Apply(g, s, AdvanceRead))
  {
    IndexStep(g, s.r);
    var t := Apply(g, s, AdvanceRead);
    assert Queued(g, t) == Queued(g, s) - 1;
    if s.seenR.Some? {
      RoomOnceLess(g, g.LeftToWrite(s.seenR.value, s.w), Queued(g, s), |s.written|);
    }
    forall i: nat | i < Queued(g, t)
      ensures t.buf[Cell(g, R(g, t), i)] == t.written[|t.taken| + i]
    {
      assert Cell(g, R(g, t), i) == Cell(g, s.r, i + 1);
    }
  }

  lemma CopyCellKeeps<T>(g: Ring, s: State<T>)
    requires Inv(g, s) && Enabled(g, s, CopyCell)
    ensures Inv(g, Apply(g, s, CopyCell))
  {
    NotNegative(g, s.r, s.seenW.value);
    assert Cell(g, s.r, 0) == s.r;
  }

  lemma NotNegative(g: Ring, r: nat, w: nat)
    requires g.Ok()
    ensures g.LeftToRead(r, w) >= 0
  {
  }

  /** What a side loads now is the truth of this moment. */
  lemma LoadKeeps<T>(g: Ring, s: State<T>)
    requires Inv(g, s)
    ensures Enabled(g, s, LoadRead) ==> Inv(g, Apply(g, s, LoadRead))
    ensures Enabled(g, s, LoadWrite) ==> Inv(g, Apply(g, s, LoadWrite))
  {
    SeenExactly(g, s);
    RoomNow(g, Queued(g, s), |s.written|);
  }

  lemma RoomNow(g: Ring, n: nat, most: int)
    requires n <= most && n < g.size
    ensures RoomOnce(g, g.Room(n), n, most)
  {
  }

  /** There was room, so there is. */
  lemma RoomOnceMeansRoom(g: Ring, room: int, n: int, most: int)
    requires RoomOnce(g, room, n, most) && room != 0
    ensures n < g.size - 1
    ensures most == 0 ==> room == g.Room(0)
  {
  }

  lemma RoomOnceLess(g: Ring, room: int, n: int, most: int)
    requires RoomOnce(g, room, n, most)
    ensures RoomOnce(g, room, n - 1, most)
  {
    var m: nat :| n <= m <= most && m < g.size && room == g.Room(m);
    assert n - 1 <= m;
  }

  lemma StepKeeps<T>(g: Ring, s: State<T>, step: Step<T>)
    requires Inv(g, s) && Enabled(g, s, step) && Careful(g, s, step)
    ensures Inv(g, Apply(g, s, step))
  {
    match step
    case StoreCell(x) =>
    case LoadRead => LoadKeeps(g, s);
    case AdvanceWrite => AdvanceWriteKeeps(g, s);
    case SettleWrite =>
    case LoadWrite => LoadKeeps(g, s);
    case CopyCell => CopyCellKeeps(g, s);
    case AdvanceRead => AdvanceReadKeeps(g, s);
    case SettleRead =>
  }

  lemma StepKeepsShape<T>(g: Ring, s: State<T>, step: Step<T>)
    requires Shape(g, s) && Enabled(g, s, step)
    ensures Shape(g, Apply(g, s, step))
  {
    if !s.wMoving {
      IndexStep(g, s.w);
    }
    if !s.rMoving {
      IndexStep(g, s.r);
    }
  }

  /** `t` is reached from `s`; with `care`, by a reader that is careful throughout. */
  ghost predicate Runs<T>(g: Ring, s: State<T>, steps: seq<Step<T>>, t: State<T>, care: bool)
    requires Shape(g, s)
    decreases |steps|
  {
    if steps == [] then s == t
    else
      && Enabled(g, s, steps[0]) && (care ==> Careful(g, s, steps[0]))
      && (StepKeepsShape(g, s, steps[0]); Runs(g, Apply(g, s, steps[0]), steps[1..], t, care))
  }

  ghost predicate Start<T>(g: Ring, s: State<T>) {
    && g.Ok() && |s.buf| == g.size && s.r == s.w == 0 && !s.rMoving && !s.wMoving
    && s.seenW == s.seenR == None && s.copied == s.written == s.taken == []
  }

  /**
   The reader took an initial part of what was written; both sides are told the truth, and
   what they loaded earlier promises neither elements nor room that there are not.
   */
  ghost predicate Truthful<T>(g: Ring, s: State<T>) {
    && s.taken <= s.written && |s.written| - |s.taken| <= g.size - 1
    && (!s.rMoving ==> g.LeftToRead(s.r, s.w) == |s.written| - |s.taken|)
    && (!s.wMoving ==> g.LeftToWrite(s.r, s.w) == g.Room(|s.written| - |s.taken|))
    && (s.seenW.Some? ==> g.LeftToRead(s.r, s.seenW.value) <= |s.written| - |s.taken|)
    && (s.seenR.Some? && g.LeftToWrite(s.seenR.value, s.w) != 0 ==> |s.written| - |s.taken| < g.size - 1)
  }

  /** A reader of a ring that is safe anyway is always careful. */
  lemma NoCareNeeded<T>(g: Ring, s: State<T>, step: Step<T>)
    requires Inv(g, s) && Enabled(g, s, step)
    requires SingleStore(g) || (SafeWithoutLocks(g) && s.written == [])
    ensures Careful(g, s, step)
    ensures SingleStore(g) || Apply(g, s, step).written == []
  {
    SeenExactly(g, s);
    if step.AdvanceWrite? {
      RoomOnceMeansRoom(g, g.LeftToWrite(s.seenR.value, s.w), Queued(g, s), |s.written|);
    }
    if SingleStore(g) {
      IndexStep(g, Prev(g, W(g, s)));
      if g.variant.CompareReset? {
        BumpIs(g, Prev(g, W(g, s)));
      }
    }
  }

  /** One reader, one writer, every interleaving of their single accesses. */
  lemma {:induction false} EveryInterleavingIsFifo<T>(
      g: Ring, s: State<T>, steps: seq<Step<T>>, t: State<T>, care: bool)
    requires Inv(g, s) && Runs(g, s, steps, t, care)
    requires care || SingleStore(g) || (SafeWithoutLocks(g) && s.written == [])
    ensures Inv(g, t) && Truthful(g, t)
    decreases |steps|
  {
    if steps == [] {
      SeenExactly(g, t);
      if t.seenR.Some? && g.LeftToWrite(t.seenR.value, t.w) != 0 {
        RoomOnceMeansRoom(g, g.LeftToWrite(t.seenR.value, t.w), Queued(g, t), |t.written|);
      }
    } else {
      if !care {
        NoCareNeeded(g, s, steps[0]);
      }
      StepKeeps(g, s, steps[0]);
      EveryInterleavingIsFifo(g, Apply(g, s, steps[0]), steps[1..], t, care);
    }
  }

  lemma Prepend<T>(g: Ring, s: State<T>, step: Step<T>, rest: seq<Step<T>>, t: State<T>)
    requires Shape(g, s) && Enabled(g, s, step)
    requires Shape(g, Apply(g, s, step)) && Runs(g, Apply(g, s, step), rest, t, false)
    ensures Runs(g, s, [step] + rest, t, false)
  {
    assert ([step] + rest)[1..] == rest;
  }

  /** Both sides rest at cell n and nothing is queued. */
  ghost predicate EmptyAt<T>(g: Ring, s: State<T>, n: nat) {
    && Inv(g, s) && s.r == s.w == n < g.size && !s.rMoving && !s.wMoving
    && s.seenW == None && s.copied == [] && s.written == s.taken
  }

  ghost predicate Breakable(g: Ring) {
    g.Ok() && !SafeWithoutLocks(g)
  }

  /** t follows from s by one step, and the rest of the run from t. */
  lemma After<T>(g: Ring, s: State<T>, step: Step<T>, t: State<T>, rest: seq<Step<T>>, end: State<T>)
    returns (steps: seq<Step<T>>)
    requires Shape(g, s) && Enabled(g, s, step) && t == Apply(g, s, step)
    requires Shape(g, t) && Runs(g, t, rest, end, false)
    ensures Runs(g, s, steps, end, false)
  {
    Prepend(g, s, step, rest, end);
    steps := [step] + rest;
  }

  /** The writer stores one element and is interrupted before it resets its index. */
  lemma WriteOne<T>(g: Ring, s: State<T>, n: nat, x: T) returns (a: State<T>, b: State<T>, c: State<T>)
    requires Breakable(g) && EmptyAt(g, s, n)
    ensures Enabled(g, s, StoreCell(x)) && a == Apply(g, s, StoreCell(x)) && Shape(g, a)
    ensures Enabled(g, a, LoadRead) && b == Apply(g, a, LoadRead) && Shape(g, b)
    ensures Enabled(g, b, AdvanceWrite) && c == Apply(g, b, AdvanceWrite) && Inv(g, c)
    ensures c.r == n && c.w == n + 1 && c.wMoving && !c.rMoving && c.copied == [] && Queued(g, c) == 1
    ensures |c.written| == |c.taken| + 1
  {
    IndexStep(g, n);
    SizeFits(g);
    BumpIs(g, n);
    a := Apply(g, s, StoreCell(x));
    StepKeeps(g, s, StoreCell(x));
    SeenExactly(g, a);
    b := Apply(g, a, LoadRead);
    StepKeeps(g, a, LoadRead);
    c := Apply(g, b, AdvanceWrite);
    StepKeeps(g, b, AdvanceWrite);
  }

  /** The interrupting reader takes it. */
  lemma ReadOne<T>(g: Ring, s: State<T>, n: nat) returns (a: State<T>, b: State<T>, c: State<T>, d: State<T>)
    requires Breakable(g) && Inv(g, s) && n < g.size && Queued(g, s) == 1 && |s.written| == |s.taken| + 1
    requires s.r == n && s.w == n + 1 && s.wMoving && !s.rMoving && s.copied == []
    ensures Enabled(g, s, LoadWrite) && a == Apply(g, s, LoadWrite) && Shape(g, a)
    ensures Enabled(g, a, CopyCell) && b == Apply(g, a, CopyCell) && Shape(g, b)
    ensures Enabled(g, b, AdvanceRead) && c == Apply(g, b, AdvanceRead) && Shape(g, c)
    ensures Enabled(g, c, SettleRead) && d == Apply(g, c, SettleRead) && Shape(g, d)
    ensures d.r == g.Next(n) && d.w == n + 1 && d.wMoving && !d.rMoving && d.seenW == None && d.seenR == None
    ensures d.copied == [] && d.written == d.taken && d.buf == s.buf && |d.buf| == g.size
  {
    SeenExactly(g, s);
    IndexStep(g, n);
    a := Apply(g, s, LoadWrite);
    StepKeeps(g, s, LoadWrite);
    b := Apply(g, a, CopyCell);
    StepKeeps(g, a, CopyCell);
    c := Apply(g, b, AdvanceRead);
    StepKeepsShape(g, b, AdvanceRead);
    d := Apply(g, c, SettleRead);
    StepKeepsShape(g, c, SettleRead);
  }

  /** From an empty ring the break is reached by filling and emptying one cell after another. */
  lemma {:induction false} ReaderMisled<T>(g: Ring, s: State<T>, n: nat, x: T)
    returns (steps: seq<Step<T>>, t: State<T>)
    requires Breakable(g) && EmptyAt(g, s, n)
    ensures Runs(g, s, steps, t, false) && !t.rMoving
    ensures t.written == t.taken && g.LeftToRead(t.r, t.w) == g.size
    decreases g.size - n
  {
    var a, b, c := WriteOne(g, s, n, x);
    var d, e, f, h := ReadOne(g, c, n);
    SizeFits(g);
    if n + 1 == g.size {
      steps, t := [], h;
      SmallMod(g.size, Pow2(g.width));
    } else {
      var k := Apply(g, h, SettleWrite);
      assert EmptyAt(g, k, n + 1);
      steps, t := ReaderMisled(g, k, n + 1, x);
      steps := After(g, h, SettleWrite, k, steps, t);
    }
    steps := After(g, f, SettleRead, h, steps, t);
    steps := After(g, e, AdvanceRead, f, steps, t);
    steps := After(g, d, CopyCell, e, steps, t);
    steps := After(g, c, LoadWrite, d, steps, t);
    steps := After(g, b, AdvanceWrite, c, steps, t);
    steps := After(g, a, LoadRead, b, steps, t);
    steps := After(g, s, StoreCell(x), a, steps, t);
  }

  /** No run ever misleads either side. */
  ghost predicate LockFree(g: Ring) {
    forall s: State<int>, steps, t: State<int> ::
      Start(g, s) && Runs(g, s, steps, t, false) ==> Truthful(g, t)
  }

  /**
   "I do not need to MUTEXes!": true of the masked and the wrapping ring, and of the base ring
   only when its size is that of the counter type.
   */
  lemma LockFreeIff(g: Ring)
    requires g.Ok()
    ensures LockFree(g) <==> SafeWithoutLocks(g)
  {
    if SafeWithoutLocks(g) {
      forall s: State<int>, steps, t: State<int> | Start(g, s) && Runs(g, s, steps, t, false)
        ensures Truthful(g, t)
      {
        EveryInterleavingIsFifo(g, s, steps, t, false);
      }
    } else {
      var s: State<int> := State(seq(g.size, _ => 0), 0, false, 0, false, None, None, [], [], []);
      var steps, t := ReaderMisled(g, s, 0, 0);
      assert !Truthful(g, t);
    }
  }
}
