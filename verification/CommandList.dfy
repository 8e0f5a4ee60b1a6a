/**
 CommandChain.hpp: the linked list of commands, relinked in place by FindByID.
 */
module CommandLists {
  import opened Words
  import opened Recency

  type ID = seq<byte>

  /** NumParamBytes of a command whose first parameter byte says how many follow. */
  const VAR_PARAM_NUM: byte := 255

  /** What a link stores for good. `pFunc` names the handler. */
  datatype Command = Command(ID: ID, pFunc: nat, NumParamBytes: byte)

  /** What the constructor of Link asserts, for a parser of `idSize` bytes and `maxParams`. */
  predicate GoodCommand(c: Command, idSize: nat, maxParams: byte) {
    && |c.ID| == idSize > 0 && c.ID[0] != 0
    && (c.NumParamBytes == VAR_PARAM_NUM || c.NumParamBytes <= maxParams)
  }

  function IDs(cs: seq<Command>): seq<ID> { seq(|cs|, i requires 0 <= i < |cs| => cs[i].ID) }

  /** The first command with this ID. */
  function IndexOf(table: seq<Command>, id: ID): (i: nat)
    ensures i <= |table| && (i < |table| ==> table[i].ID == id)
    ensures forall j :: 0 <= j < i ==> table[j].ID != id
  {
    if table == [] || table[0].ID == id then 0 else IndexOf(table[1..], id) + 1
  }

  lemma FirstIsIndex(table: seq<Command>, id: ID, i: nat)
    requires i <= |table| && (i < |table| ==> table[i].ID == id) && forall j :: 0 <= j < i ==> table[j].ID != id
    ensures i == IndexOf(table, id)
  {
  }

  /** The list after AddCommand, which looks the ID up first. */
  function Added(table: seq<Command>, c: Command, idSize: nat, maxParams: byte): seq<Command> {
    var i := IndexOf(table, c.ID);
    if i < |table| then MoveToFront(table, i) else if GoodCommand(c, idSize, maxParams) then [c] + table else table
  }

  class Link {
    const c: Command
    var pNext: Link?

    constructor (c: Command, pFirst: Link?)
      ensures this.c == c && pNext == pFirst
    {
      this.c := c;
      pNext := pFirst;
    }
  }

  class CommandList {
    const idSize: nat
    const maxParams: byte
    var pFirst: Link?
    ghost var Spine: seq<Link>
    /** The IDs found or added, in time order. */
    ghost var Uses: seq<ID>

    ghost predicate Linked()
      reads this, Spine
    {
      && (Spine == [] <==> pFirst == null)
      && (Spine != [] ==> pFirst == Spine[0] && Spine[|Spine| - 1].pNext == null)
      && (forall i :: 0 <= i < |Spine| - 1 ==> Spine[i].pNext == Spine[i + 1])
      && Distinct(Spine)
    }

    ghost function Commands(): seq<Command>
      reads this
    {
      var s := Spine;
      seq(|s|, i requires 0 <= i < |s| => s[i].c)
    }

    /** Acyclic, without duplicates, and in order of last use. */
    ghost predicate Valid()
      reads this, Spine
    {
      Linked() && InOrder(Commands(), Uses, idSize, maxParams)
    }

    constructor (idSize: nat, maxParams: byte)
      ensures Valid() && Spine == [] && Uses == [] && this.idSize == idSize && this.maxParams == maxParams
    {
      this.idSize, this.maxParams := idSize, maxParams;
      pFirst := null;
      Spine, Uses := [], [];
    }

    /** The search of FindByID: the link and the one before it, and the IsIt comparisons made. */
    method Search(id: ID) returns (pPrev: Link?, p: Link?, ghost i: nat, ghost compared: nat)
      requires Linked()
      ensures i <= |Spine| && forall j :: 0 <= j < i ==> Spine[j].c.ID != id
      ensures if i < |Spine| then p == Spine[i] && p.c.ID == id && compared == i + 1
              else p == null && compared == |Spine|
      ensures i > 0 && p != null ==> pPrev == Spine[i - 1]
    {
      pPrev, p, i, compared := null, pFirst, 0, 0;
      while p != null
        invariant i <= |Spine| && compared == i && (p == null <==> i == |Spine|)
        invariant p != null ==> p == Spine[i]
        invariant p != null && i > 0 ==> pPrev == Spine[i - 1]
        invariant forall j :: 0 <= j < i ==> Spine[j].c.ID != id
        decreases |Spine| - i
      {
        compared := compared + 1;
        if p.c.ID == id {
          return;
        }
        assert i < |Spine| - 1 ==> Spine[i].pNext == Spine[i + 1];
        pPrev, p, i := p, p.pNext, i + 1;
      }
    }

    /** Takes Spine[i] out of its place and links it in as the first. */
    method Relink(pPrev: Link, p: Link, ghost i: nat)
      requires Linked() && 0 < i < |Spine| && pPrev == Spine[i - 1] && p == Spine[i]
      modifies this`pFirst, this`Spine, pPrev`pNext, p`pNext
      ensures Linked() && Spine == MoveToFront(old(Spine), i)
    {
      assert Spine[i - 1] != Spine[i];
      pPrev.pNext := p.pNext;
      p.pNext := pFirst;
      pFirst := p;
      Spine := MoveToFront(Spine, i);
    }

    /** Search and relink, on the links alone. */
    method Touch(id: ID) returns (p: Link?, ghost i: nat, ghost compared: nat)
      requires Linked()
      modifies this`pFirst, this`Spine, Spine
      ensures Linked() && i == IndexOf(old(Commands()), id)
      ensures compared == if p == null then |old(Spine)| else i + 1
      ensures if p == null then i == |old(Spine)| && Spine == old(Spine)
              else i < |old(Spine)| && p == old(Spine)[i] && Spine == MoveToFront(old(Spine), i)
    {
      var pPrev;
      pPrev, p, i, compared := Search(id);
      FirstIsIndex(Commands(), id, i);
      if p != null && p != pFirst {
        Relink(pPrev, p, i);
      }
    }

    /**
     The move-to-front find. It succeeds exactly for registered IDs and compares one ID more
     than the number of distinct others used since this one was.
     */
    method FindByID(id: ID) returns (p: Link?, ghost i: nat, ghost compared: nat)
      requires Valid()
      modifies this, Spine
      ensures Valid() && i == IndexOf(old(Commands()), id)
      ensures p == null <==> id !in old(Uses)
      ensures p == null <==> i == |old(Commands())|
      ensures p == null ==> Uses == old(Uses) && Spine == old(Spine) && compared == |Spine|
      ensures p != null ==>
                && p.c == old(Commands())[i] && Commands() == MoveToFront(old(Commands()), i)
                && Spine == MoveToFront(old(Spine), i)
                && Uses == old(Uses) + [id]
                && compared == 1 + |Elements(Since(old(Uses), id))|
    {
      ghost var cs := Commands();
      MoveOnSpine(id);
      p, i, compared := Touch(id);
      if p == null {
        MissEffect(cs, Uses, id);
      } else {
        FindEffect(cs, Uses, id, i, idSize, maxParams);
        Uses := Uses + [id];
      }
    }

    /**
     Fails, with the program, when the ID exists (FindByID has then moved it to the front
     already) or the command breaks the assertions of Link.
     */
    method AddCommand(c: Command) returns (ok: bool)
      requires Valid()
      modifies this, Spine
      ensures Valid() && ok == (c.ID !in old(Uses) && GoodCommand(c, idSize, maxParams))
      ensures ok <==> && c.ID !in old(Uses) && |c.ID| == idSize > 0 && c.ID[0] != 0
                      && (c.NumParamBytes == 255 || c.NumParamBytes <= maxParams)
      ensures Commands() == Added(old(Commands()), c, idSize, maxParams)
      ensures Uses == old(Uses) + if ok || c.ID in old(Uses) then [c.ID] else []
    {
      var p, _, _ := FindByID(c.ID);
      if p != null || !GoodCommand(c, idSize, maxParams) {
        return false;
      }
      NewEffect(Commands(), Uses, c, idSize, maxParams);
      Insert(c);
      Uses := Uses + [c.ID];
      ok := true;
    }

    /** The new link in front of all others. */
    method Insert(c: Command)
      requires Linked()
      modifies this`pFirst, this`Spine
      ensures Linked() && Commands() == [c] + old(Commands())
      ensures |Spine| == |old(Spine)| + 1 && Spine[1..] == old(Spine) && Spine[0].c == c && fresh(Spine[0])
    {
      var link := new Link(c, pFirst);
      pFirst := link;
      Spine := [link] + Spine;
    }

    lemma MoveOnSpine(id: ID)
      ensures Commands() == CommandsOf(Spine)
      ensures var i := IndexOf(Commands(), id);
              i < |Spine| ==> MoveToFront(Commands(), i) == CommandsOf(MoveToFront(Spine, i))
    {
    }
  }

  /** Valid commands, in order of last use. */
  ghost predicate InOrder(cs: seq<Command>, h: seq<ID>, idSize: nat, maxParams: byte) {
    IDs(cs) == Recent(h) && forall c :: c in cs ==> GoodCommand(c, idSize, maxParams)
  }

  ghost function CommandsOf(s: seq<Link>): seq<Command> { seq(|s|, i requires 0 <= i < |s| => s[i].c) }

  /** The effect of a hit at position i on the order of use. */
  lemma FindEffect(cs: seq<Command>, h: seq<ID>, id: ID, i: nat, idSize: nat, maxParams: byte)
    requires InOrder(cs, h, idSize, maxParams) && i < |cs| && cs[i].ID == id
    ensures InOrder(MoveToFront(cs, i), h + [id], idSize, maxParams)
    ensures i == |Elements(Since(h, id))| && id in h
  {
    assert Recent(h)[i] == id;
    RecentMembers(h);
    PositionIsDistinctSince(h, i);
    FindIsUse(h, i);
    assert IDs(MoveToFront(cs, i)) == MoveToFront(IDs(cs), i);
  }

  lemma NewEffect(cs: seq<Command>, h: seq<ID>, c: Command, idSize: nat, maxParams: byte)
    requires InOrder(cs, h, idSize, maxParams) && c.ID !in h && GoodCommand(c, idSize, maxParams)
    ensures InOrder([c] + cs, h + [c.ID], idSize, maxParams)
  {
    RecentMembers(h);
    AddIsUse(h, c.ID);
    assert IDs([c] + cs) == [c.ID] + IDs(cs);
  }

  lemma MissEffect(cs: seq<Command>, h: seq<ID>, id: ID)
    requires IDs(cs) == Recent(h) && IndexOf(cs, id) == |cs|
    ensures id !in h
  {
    RecentMembers(h);
  }

  /** Moving to the front loses and duplicates nothing. */
  lemma MoveToFrontKeeps<T>(s: seq<T>, i: nat)
    requires i < |s|
    ensures multiset(MoveToFront(s, i)) == multiset(s)
  {
    assert s == s[..i] + [s[i]] + s[i + 1..];
  }
}
