/**
 CircBufferWithCont.hpp: one writer and one reader of blocks with no lock (lines 20 to 22).
 Each side runs in single memory accesses, and the other side may run between any two of them.
 */
module BlockInterleaving {
  import opened Options
  import opened Words
  import opened RingIndex
  import opened BlockRings

  /** `gone` counts the elements given back by the reader or dropped by a forced write. */
  datatype State<T> = State(
    buf: seq<T>, r: nat, w: nat,
    block: nat, moved: bool,      // LastBlockSize; between the two stores of FinishedReading
    frozen: Option<nat>,          // BeingWritten as the reader loaded it
    seenR: Option<nat>,           // BeingRead as the writer loaded it
    seenBlock: Option<nat>,       // LastBlockSize as the writer loaded it
    written: seq<T>, gone: nat)

  datatype Step<T> =
    | LoadRead                    // the writer's load in LeftToWrite()
    | StoreCell(x: T)             // *GetSlotToWrite() = x
    | AdvanceWrite                // FinishedWriting
    | LoadBlock                   // if(LastBlockSize == 0), of SaferForceSlotToWrite
    | ForceRead                   // BeingRead = (BeingRead + 1) & Mask
    | Freeze                      // FrozenBeingWritten = BeingWritten
    | TakeBlock                   // LastBlockSize = ..., of GetContinousBlockToRead
    | TakeOne                     // LastBlockSize = 1, of GetSlotToRead
    | FinishMove                  // BeingRead = (BeingRead + LastBlockSize) & Mask
    | FinishReset                 // LastBlockSize = 0

  ghost predicate Shape<T>(g: Ring, s: State<T>) {
    g.Ok() && g.variant.MaskBits? && |s.buf| == g.size && s.r < g.size && s.w < g.size
  }

  /** The cell i places after r. */
  ghost function Cell(g: Ring, r: nat, i: nat): int { if r + i < g.size then r + i else r + i - g.size }

  /** (i + n) & Mask. */
  function Moved(g: Ring, i: nat, n: nat): nat
    requires g.variant.MaskBits?
  {
    MaskWord(i + n, g.alu, g.variant.bits)
  }

  /** `forcing` says whether the writer uses SaferForceSlotToWrite. */
  predicate Enabled<T>(g: Ring, s: State<T>, step: Step<T>, forcing: bool) {
    match step
    case LoadRead => true
    case StoreCell(_) => true
    case AdvanceWrite => s.seenR.Some? && g.LeftToWrite(s.seenR.value, s.w) != 0
    case LoadBlock => forcing && s.seenR.Some? && g.LeftToWrite(s.seenR.value, s.w) == 0
    case ForceRead => forcing && s.seenBlock == Some(0)
    case Freeze => s.block == 0 && !s.moved
    case TakeBlock => s.block == 0 && s.frozen.Some? && s.frozen.value != s.r && s.frozen.value < g.size
    case TakeOne => s.block == 0 && s.frozen.Some? && s.frozen.value != s.r
    case FinishMove => s.block > 0 && !s.moved
    case FinishReset => s.moved
  }

  ghost function Apply<T>(g: Ring, s: State<T>, step: Step<T>, forcing: bool): State<T>
    requires Shape(g, s) && Enabled(g, s, step, forcing)
  {
    match step
    case LoadRead => s.(seenR := Some(s.r))
    case StoreCell(x) => s.(buf := s.buf[s.w := x])
    case AdvanceWrite => s.(w := Moved(g, s.w, 1), seenR := None, written := s.written + [s.buf[s.w]])
    case LoadBlock => s.(seenBlock := Some(s.block), seenR := None)
    case ForceRead => s.(r := Moved(g, s.r, 1), seenBlock := None, gone := if s.r == s.w then s.gone else s.gone + 1)
    case Freeze => s.(frozen := Some(s.w))
    case TakeBlock => s.(block := BlockLength(g.size, s.r, s.frozen.value), frozen := None)
    case TakeOne => s.(block := 1, frozen := None)
    case FinishMove => s.(r := Moved(g, s.r, s.block), moved := true, gone := s.gone + s.block)
    case FinishReset => s.(block := 0, moved := false)
  }

  ghost function Queued<T>(g: Ring, s: State<T>): int { g.Count(s.r, s.w) }

  /** The cells from the read index on hold what was written and is not gone. */
  ghost predicate Holds<T>(g: Ring, s: State<T>)
    requires Shape(g, s)
  {
    && s.gone <= |s.written| && |s.written| - s.gone == Queued(g, s)
    && forall i: nat :: i < Queued(g, s) ==> s.buf[Cell(g, s.r, i)] == s.written[s.gone + i]
  }

  /** What each side keeps to itself is on the safe side. */
  ghost predicate Kept<T>(g: Ring, s: State<T>)
    requires Shape(g, s)
  {
    && (s.moved ==> s.block > 0)
    && (s.block > 0 && !s.moved ==> s.block <= Queued(g, s) && s.r + s.block <= g.size)
    && (s.frozen.Some? ==> s.block == 0 && s.frozen.value < g.size && g.Count(s.r, s.frozen.value) <= Queued(g, s))
    && (s.seenR.Some? ==> s.seenR.value < g.size && Queued(g, s) <= g.Count(s.seenR.value, s.w))
  }

  ghost predicate Inv<T>(g: Ring, s: State<T>) { Shape(g, s) && Holds(g, s) && Kept(g, s) }

  /** Both sides are told the truth, and a block that is out holds the next elements. */
  ghost predicate Truthful<T>(g: Ring, s: State<T>) {
    && s.gone <= |s.written|
    && g.LeftToRead(s.r, s.w) == |s.written| - s.gone
    && g.LeftToWrite(s.r, s.w) == g.size - 1 - (|s.written| - s.gone)
    && (s.block > 0 && !s.moved ==>
          && s.r + s.block <= |s.buf| && s.gone + s.block <= |s.written|
          && s.buf[s.r..s.r + s.block] == s.written[s.gone..s.gone + s.block])
  }

  lemma InvIsTruthful<T>(g: Ring, s: State<T>)
    requires Inv(g, s)
    ensures Truthful(g, s)
  {
    LeftToReadExact(g, s.r, s.w);
    LeftToWriteExact(g, s.r, s.w);
    if s.block > 0 && !s.moved {
      var cells, elements := s.buf[s.r..s.r + s.block], s.written[s.gone..s.gone + s.block];
      forall i | 0 <= i < s.block
        ensures cells[i] == elements[i]
      {
        assert s.buf[Cell(g, s.r, i)] == s.written[s.gone + i];
      }
    }
  }

  // ---------------------------------------------------------------- every step

  lemma MovedIs(g: Ring, i: nat, n: nat)
    requires g.Ok() && g.variant.MaskBits? && i < g.size && n <= g.size
    ensures Moved(g, i, n) == Cell(g, i, n) < g.size
  {
    AdvanceIs(g, i, n);
  }

  lemma AdvanceWriteHolds<T>(g: Ring, s: State<T>, forcing: bool)
    requires Inv(g, s) && Enabled(g, s, AdvanceWrite, forcing)
    ensures var t := Apply(g, s, AdvanceWrite, forcing);
            Shape(g, t) && Holds(g, t) && Queued(g, t) == Queued(g, s) + 1
  {
    LeftToWriteExact(g, s.seenR.value, s.w);
    MovedIs(g, s.w, 1);
    assert Cell(g, s.r, Queued(g, s)) == s.w;
  }

  lemma AdvanceWriteKeeps<T>(g: Ring, s: State<T>, forcing: bool)
    requires Inv(g, s) && Enabled(g, s, AdvanceWrite, forcing)
    ensures Inv(g, Apply(g, s, AdvanceWrite, forcing))
  {
    AdvanceWriteHolds(g, s, forcing);
  }

  lemma StoreCellKeeps<T>(g: Ring, s: State<T>, x: T, forcing: bool)
    requires Inv(g, s)
    ensures Inv(g, Apply(g, s, StoreCell(x), forcing))
  {
    assert forall i: nat :: i < Queued(g, s) ==> Cell(g, s.r, i) != s.w;
  }

  lemma FinishMoveHolds<T>(g: Ring, s: State<T>, forcing: bool)
    requires Inv(g, s) && Enabled(g, s, FinishMove, forcing)
    ensures var t := Apply(g, s, FinishMove, forcing);
            Shape(g, t) && Holds(g, t) && Queued(g, t) == Queued(g, s) - s.block
  {
    MovedIs(g, s.r, s.block);
    var t := Apply(g, s, FinishMove, forcing);
    forall i: nat | i < Queued(g, t)
      ensures t.buf[Cell(g, t.r, i)] == t.written[t.gone + i]
    {
      assert Cell(g, t.r, i) == Cell(g, s.r, s.block + i);
    }
  }

  lemma FinishMoveKeeps<T>(g: Ring, s: State<T>, forcing: bool)
    requires Inv(g, s) && Enabled(g, s, FinishMove, forcing)
    ensures Inv(g, Apply(g, s, FinishMove, forcing))
  {
    FinishMoveHolds(g, s, forcing);
  }

  lemma TakeKeeps<T>(g: Ring, s: State<T>, forcing: bool)
    requires Inv(g, s)
    ensures Enabled(g, s, TakeBlock, forcing) ==> Inv(g, Apply(g, s, TakeBlock, forcing))
    ensures Enabled(g, s, TakeOne, forcing) ==> Inv(g, Apply(g, s, TakeOne, forcing))
  {
  }

  /** In a ring of one cell a forced write moves nothing. */
  lemma ForceReadKeeps<T>(g: Ring, s: State<T>, forcing: bool)
    requires Inv(g, s) && g.size == 1 && Enabled(g, s, ForceRead, forcing)
    ensures Inv(g, Apply(g, s, ForceRead, forcing))
  {
    MovedIs(g, s.r, 1);
  }

  lemma StepKeeps<T>(g: Ring, s: State<T>, step: Step<T>, forcing: bool)
    requires Inv(g, s) && Enabled(g, s, step, forcing) && (forcing ==> g.size == 1)
    ensures Inv(g, Apply(g, s, step, forcing))
  {
    match step
    case LoadRead =>
    case StoreCell(x) => StoreCellKeeps(g, s, x, forcing);
    case AdvanceWrite => AdvanceWriteKeeps(g, s, forcing);
    case LoadBlock =>
    case ForceRead => ForceReadKeeps(g, s, forcing);
    case Freeze =>
    case TakeBlock => TakeKeeps(g, s, forcing);
    case TakeOne => TakeKeeps(g, s, forcing);
    case FinishMove => FinishMoveKeeps(g, s, forcing);
    case FinishReset =>
  }

  // ---------------------------------------------------------------- every run

  lemma StepKeepsShape<T>(g: Ring, s: State<T>, step: Step<T>, forcing: bool)
    requires Shape(g, s) && Enabled(g, s, step, forcing)
    ensures Shape(g, Apply(g, s, step, forcing))
  {
    MaskedIsInside(g, s.r + 1);
    MaskedIsInside(g, s.w + 1);
    MaskedIsInside(g, s.r + s.block);
  }

  lemma MaskedIsInside(g: Ring, x: nat)
    requires g.Ok() && g.variant.MaskBits?
    ensures MaskWord(x, g.alu, g.variant.bits) < g.size
  {
    MaskWordIsMod(x, g.alu, g.variant.bits);
  }

  ghost predicate Runs<T>(g: Ring, s: State<T>, steps: seq<Step<T>>, t: State<T>, forcing: bool)
    requires Shape(g, s)
    decreases |steps|
  {
    if steps == [] then s == t
    else
      && Enabled(g, s, steps[0], forcing)
      && (StepKeepsShape(g, s, steps[0], forcing); Runs(g, Apply(g, s, steps[0], forcing), steps[1..], t, forcing))
  }

  ghost predicate Start<T>(g: Ring, s: State<T>) {
    && Shape(g, s) && s.r == s.w && s.block == 0 && !s.moved
    && s.frozen == s.seenR == s.seenBlock == None && s.written == [] && s.gone == 0
  }

  lemma {:induction false} EveryRunIsTruthful<T>(g: Ring, s: State<T>, steps: seq<Step<T>>, t: State<T>, forcing: bool)
    requires Inv(g, s) && Runs(g, s, steps, t, forcing) && (forcing ==> g.size == 1)
    ensures Inv(g, t) && Truthful(g, t)
    decreases |steps|
  {
    if steps == [] {
      InvIsTruthful(g, t);
    } else {
      StepKeeps(g, s, steps[0], forcing);
      EveryRunIsTruthful(g, Apply(g, s, steps[0], forcing), steps[1..], t, forcing);
    }
  }

  // ---------------------------------------------------------------- a forced write in the middle of a read

  lemma After<T>(g: Ring, s: State<T>, step: Step<T>, rest: seq<Step<T>>, t: State<T>) returns (steps: seq<Step<T>>)
    requires Shape(g, s) && Enabled(g, s, step, true) && Shape(g, Apply(g, s, step, true))
    requires Runs(g, Apply(g, s, step, true), rest, t, true)
    ensures Runs(g, s, steps, t, true)
  {
    steps := [step] + rest;
    assert steps[1..] == rest;
  }

  /** Written from cell 0 on, and nothing else going on. */
  ghost predicate FilledTo<T>(g: Ring, s: State<T>, n: nat) {
    && Inv(g, s) && g.size >= 2 && s.r == 0 && s.w == n < g.size
    && s.block == 0 && !s.moved && s.frozen == s.seenR == s.seenBlock == None && s.gone == 0
  }

  /**
   A full ring: the writer sees that nothing is being read, the reader takes its block, the
   writer drops the first element of it, and the reader finishes one element too far.
   */
  lemma ForcedTooFar<T>(g: Ring, s: State<T>) returns (steps: seq<Step<T>>, t: State<T>)
    requires g.size >= 2 && FilledTo(g, s, g.size - 1)
    ensures Runs(g, s, steps, t, true) && !Truthful(g, t)
  {
    LeftToWriteExact(g, s.r, s.w);
    var a := Apply(g, s, LoadRead, true);
    var b := Apply(g, a, LoadBlock, true);
    var c := Apply(g, b, Freeze, true);
    var d := Apply(g, c, TakeBlock, true);
    MovedIs(g, 0, 1);
    var e := Apply(g, d, ForceRead, true);
    MovedIs(g, 1, g.size - 1);
    t := Apply(g, e, FinishMove, true);
    assert Runs(g, t, [], t, true);
    steps := After(g, e, FinishMove, [], t);
    steps := After(g, d, ForceRead, steps, t);
    steps := After(g, c, TakeBlock, steps, t);
    steps := After(g, b, Freeze, steps, t);
    steps := After(g, a, LoadBlock, steps, t);
    steps := After(g, s, LoadRead, steps, t);
  }

  lemma {:induction false} FillThenForce<T>(g: Ring, s: State<T>, n: nat, x: T)
    returns (steps: seq<Step<T>>, t: State<T>)
    requires FilledTo(g, s, n)
    ensures Runs(g, s, steps, t, true) && !Truthful(g, t)
    decreases g.size - n
  {
    if n == g.size - 1 {
      steps, t := ForcedTooFar(g, s);
    } else {
      var a, b, c := WriteOne(g, s, n, x);
      steps, t := FillThenForce(g, c, n + 1, x);
      steps := After(g, b, AdvanceWrite, steps, t);
      steps := After(g, a, StoreCell(x), steps, t);
      steps := After(g, s, LoadRead, steps, t);
    }
  }

  lemma WriteOne<T>(g: Ring, s: State<T>, n: nat, x: T) returns (a: State<T>, b: State<T>, c: State<T>)
    requires FilledTo(g, s, n) && n < g.size - 1
    ensures a == Apply(g, s, LoadRead, true) && Shape(g, a)
    ensures b == Apply(g, a, StoreCell(x), true) && Shape(g, b)
    ensures Enabled(g, b, AdvanceWrite, true) && c == Apply(g, b, AdvanceWrite, true) && FilledTo(g, c, n + 1)
  {
    LeftToWriteExact(g, s.r, s.w);
    MovedIs(g, n, 1);
    a := Apply(g, s, LoadRead, true);
    StoreCellKeeps(g, a, x, true);
    b := Apply(g, a, StoreCell(x), true);
    AdvanceWriteKeeps(g, b, true);
    c := Apply(g, b, AdvanceWrite, true);
  }

  /** No run from an empty ring ever misleads either side or spoils a block. */
  ghost predicate LockFree(g: Ring, forcing: bool) {
    forall s: State<int>, steps, t: State<int> ::
      Start(g, s) && Runs(g, s, steps, t, forcing) ==> Truthful(g, t)
  }

  /** One writer and one reader need no lock exactly as long as the writer forces nothing. */
  lemma LockFreeIff(g: Ring, forcing: bool)
    requires g.Ok() && g.variant.MaskBits?
    ensures LockFree(g, forcing) <==> !forcing || g.size == 1
  {
    if !forcing || g.size == 1 {
      forall s: State<int>, steps, t: State<int> | Start(g, s) && Runs(g, s, steps, t, forcing)
        ensures Truthful(g, t)
      {
        EveryRunIsTruthful(g, s, steps, t, forcing);
      }
    } else {
      var s: State<int> := State(seq(g.size, _ => 0), 0, 0, 0, false, None, None, None, [], 0);
      var steps, t := FillThenForce(g, s, 0, 0);
      assert Start(g, s);
    }
  }
}
