/**
 The ring buffer object of CircBuffer.hpp, for any of the three index disciplines, as a
 bounded first-in first-out queue.
 */
module CircBuffers {
  import opened RingIndex

  class CircBuffer<T(0)> {
    const g: Ring
    const Buffer: array<T>
    var BeingRead: nat
    var BeingWritten: nat
    /** Every element written since construction. */
    ghost var History: seq<T>
    /** What is still queued, oldest first. */
    ghost var Queue: seq<T>

    ghost predicate Valid()
      reads this, Buffer
    {
      && g.Ok()
      && Buffer.Length == g.size
      && BeingRead < g.size
      && BeingWritten < g.size
      && |Queue| == g.Count(BeingRead, BeingWritten) <= |History|
      && Queue == History[|History| - |Queue|..]
      && forall k :: 1 <= k < g.size && k <= |History| ==>
           Buffer[g.Back(BeingWritten, k)] == History[|History| - k]
    }

    constructor (g: Ring)
      requires g.Ok()
      ensures Valid() && this.g == g && fresh(Buffer)
      ensures Queue == [] && History == []
    {
      this.g := g;
      Buffer := new T[g.size];
      BeingRead, BeingWritten := 0, 0;
      History, Queue := [], [];
    }

    method Clear()
      requires Valid()
      modifies this`BeingRead, this`Queue
      ensures Valid() && Queue == []
    {
      BeingRead := BeingWritten;
      Queue := [];
    }

    //************* Reader functions

    method LeftToRead() returns (n: int)
      requires Valid()
      ensures n == |Queue|
    {
      LeftToReadExact(g, BeingRead, BeingWritten);
      n := g.LeftToRead(BeingRead, BeingWritten);
    }

    method GetSlotToRead() returns (x: T)
      requires Valid()
      ensures Queue != [] ==> x == Queue[0]
    {
      assert g.Back(BeingWritten, |Queue|) == BeingRead || |Queue| == 0;
      x := Buffer[BeingRead];
    }

    /** FinishedReading on the index alone. */
    method MoveRead()
      requires g.Ok() && BeingRead < g.size
      modifies this`BeingRead
      ensures BeingRead == g.Next(old(BeingRead)) < g.size
    {
      IndexStep(g, BeingRead);
      BeingRead := g.Bump(BeingRead);
      BeingRead := g.Normalize(BeingRead);
    }

    method FinishedReading()
      requires Valid() && Queue != []
      modifies this`BeingRead, this`Queue
      ensures Valid() && Queue == old(Queue)[1..]
    {
      MoveRead();
      Queue := Queue[1..];
    }

    method Read_() returns (x: T)
      requires Valid() && Queue != []
      modifies this`BeingRead, this`Queue
      ensures Valid() && [x] + Queue == old(Queue)
    {
      x := GetSlotToRead();
      FinishedReading();
    }

    method Read() returns (ok: bool, x: T)
      requires Valid()
      modifies this`BeingRead, this`Queue
      ensures Valid() && ok == (old(Queue) != [])
      ensures if ok then [x] + Queue == old(Queue) else Queue == []
    {
      var n := LeftToRead();
      ok := n != 0;
      if ok {
        x := Read_();
      } else {
        x := *;
      }
    }

    //************* Writer functions

    method LeftToWrite() returns (n: int)
      requires Valid()
      ensures n == g.Room(|Queue|)
    {
      LeftToWriteExact(g, BeingRead, BeingWritten);
      n := g.LeftToWrite(BeingRead, BeingWritten);
    }

    /** Stores through the pointer GetSlotToWrite returns; the cell is not queued yet. */
    method FillSlot(x: T)
      requires Valid()
      modifies Buffer
      ensures Valid() && Queue == old(Queue)
      ensures Buffer[BeingWritten] == x
    {
      Buffer[BeingWritten] := x;
    }

    /** FinishedWriting on the index alone. */
    method MoveWritten()
      requires g.Ok() && BeingWritten < g.size
      modifies this`BeingWritten
      ensures BeingWritten == g.Next(old(BeingWritten)) < g.size
    {
      IndexStep(g, BeingWritten);
      BeingWritten := g.BumpWrite(BeingWritten);
      BeingWritten := g.SettleWrite(BeingWritten);
    }

    /** The cell at the write index becomes the latest element. */
    lemma Remembered(w: nat, h: seq<T>)
      requires g.Ok() && Buffer.Length == g.size && w < g.size
      requires forall k :: 1 <= k < g.size && k <= |h| ==> Buffer[g.Back(w, k)] == h[|h| - k]
      ensures var t := h + [Buffer[w]];
              forall k :: 1 <= k < g.size && k <= |t| ==> Buffer[g.Back(g.Next(w), k)] == t[|t| - k]
    {
      var t := h + [Buffer[w]];
      forall k | 1 <= k < g.size && k <= |t|
        ensures Buffer[g.Back(g.Next(w), k)] == t[|t| - k]
      {
        assert g.Back(g.Next(w), k) == g.Back(w, k - 1);
      }
    }

    method FinishedWriting()
      requires Valid() && |Queue| < g.size - 1
      modifies this`BeingWritten, this`History, this`Queue
      ensures Valid() && History == old(History) + [old(Buffer[BeingWritten])]
      ensures Queue == old(Queue) + [old(Buffer[BeingWritten])]
    {
      Remembered(BeingWritten, History);
      History := History + [Buffer[BeingWritten]];
      Queue := Queue + [Buffer[BeingWritten]];
      MoveWritten();
    }

    /**
     When the writer is told there is no room the oldest element goes, which is the new one
     itself when the ring was empty (EmptyLooksFullIff; a ring of one cell is such a ring too).
     */
    method ForceFinishedWriting()
      requires Valid()
      modifies this`BeingRead, this`BeingWritten, this`History, this`Queue
      ensures Valid() && History == old(History) + [old(Buffer[BeingWritten])]
      ensures Queue == Forced(old(Queue), old(Buffer[BeingWritten]))
    {
      var n := LeftToWrite();
      Remembered(BeingWritten, History);
      ForcedCount(BeingRead, BeingWritten, Queue, Buffer[BeingWritten]);
      ForcedIsLatest(History, Queue, Buffer[BeingWritten]);
      History := History + [Buffer[BeingWritten]];
      Queue := Forced(Queue, Buffer[BeingWritten]);
      if n == 0 {
        MoveRead();
      }
      MoveWritten();
    }

    lemma ForcedCount(r: nat, w: nat, q: seq<T>, x: T)
      requires g.Ok() && r < g.size && w < g.size && |q| == g.Count(r, w)
      ensures |Forced(q, x)| == g.Count(if g.Room(|q|) == 0 then g.Next(r) else r, g.Next(w))
    {
    }

    lemma ForcedIsLatest(h: seq<T>, q: seq<T>, x: T)
      requires |q| <= |h| && q == h[|h| - |q|..]
      ensures var t, f := h + [x], Forced(q, x); |f| <= |t| && f == t[|t| - |f|..]
    {
    }

    /** The queue after a forced write. */
    ghost function Forced(q: seq<T>, x: T): seq<T> {
      if g.Room(|q|) == 0 then (q + [x])[1..] else q + [x]
    }

    method Write_(x: T)
      requires Valid() && |Queue| < g.size - 1
      modifies this`BeingWritten, this`History, this`Queue, Buffer
      ensures Valid() && Queue == old(Queue) + [x] && History == old(History) + [x]
    {
      FillSlot(x);
      FinishedWriting();
    }

    method ForceWrite_(x: T)
      requires Valid()
      modifies this`BeingRead, this`BeingWritten, this`History, this`Queue, Buffer
      ensures Valid() && History == old(History) + [x]
      ensures Queue == Forced(old(Queue), x)
    {
      FillSlot(x);
      ForceFinishedWriting();
    }

    method Write(x: T) returns (ok: bool)
      requires Valid()
      modifies this`BeingWritten, this`History, this`Queue, Buffer
      ensures Valid() && ok == (g.Room(|old(Queue)|) != 0)
      ensures Queue == if ok then old(Queue) + [x] else old(Queue)
      ensures History == if ok then old(History) + [x] else old(History)
    {
      var n := LeftToWrite();
      ok := n != 0;
      if ok {
        Write_(x);
      }
    }

    /** operator[]: the element written k writes ago, whether or not it was read since. */
    method At(k: nat) returns (x: T)
      requires Valid() && 1 <= k < g.size && k <= |History|
      ensures x == History[|History| - k]
    {
      x := Buffer[g.Back(BeingWritten, k)];
    }
  }
}
