/**
 CommandChain.hpp: the parser object, over its linked list and its input buffer.
 */
module CommandChains {
  import opened Options
  import opened Words
  import opened Checksum
  import opened Recency
  import opened CommandLists
  import opened ParserSpec

  class CommandChain {
    const list: CommandList
    const InputBytes: array<byte>
    /** pInputByte as an offset into InputBytes. */
    var pInputByte: nat
    var pCur: Link?
    var ParamNum: byte
    /** `Count`, a uint32_t. */
    var Count: nat

    function Conf(): Config { Config(list.idSize, list.maxParams) }

    ghost predicate Memory()
      reads this, list, list.Spine, InputBytes
    {
      && list.Valid()
      && InputBytes.Length == list.idSize + list.maxParams + 1
      && pInputByte <= InputBytes.Length
    }

    ghost predicate Valid()
      reads this, list, list.Spine, InputBytes
    {
      Memory() && Sound(Conf(), Abs())
    }

    ghost function Abs(): Parser
      reads this, list, InputBytes
      requires pInputByte <= InputBytes.Length
    {
      Parser(list.Commands(), InputBytes[..pInputByte], if pCur == null then None else Some(pCur.c), ParamNum)
    }

    constructor (idSize: nat, maxParams: byte)
      requires idSize > 0
      ensures Valid() && Abs().input == [] && Abs().table == [] && Count == 0
      ensures list.idSize == idSize && list.maxParams == maxParams && fresh(list) && fresh(InputBytes)
    {
      list := new CommandList(idSize, maxParams);
      InputBytes := new byte[idSize + maxParams + 1];
      pInputByte, pCur, ParamNum, Count := 0, null, 0, 0;
    }

    /** Also in the middle of a packet, whose command stays registered. */
    method AddCommand(c: Command) returns (ok: bool)
      requires Valid()
      modifies list, list.Spine
      ensures Valid() && Abs() == old(Abs()).(table := Added(old(Abs()).table, c, list.idSize, list.maxParams))
      ensures ok == (GoodCommand(c, list.idSize, list.maxParams) && c.ID !in IDs(old(Abs()).table))
    {
      ghost var p := Abs();
      AddedKeeps(Conf(), p, c);
      AbsentIff(p.table, list.Uses, c.ID, list.idSize, list.maxParams);
      ok := list.AddCommand(c);
    }

    method Flush()
      requires Memory() && Sound(Conf(), ParserSpec.Flush(Abs()))
      modifies this`pInputByte
      ensures Valid() && Abs() == ParserSpec.Flush(old(Abs()))
    {
      pInputByte := 0;
    }

    /** The ID is complete: look its command up. */
    method FindCurrent() returns (r: ParseError)
      requires Memory() && pInputByte == list.idSize
      modifies this`pCur, list, list.Spine
      ensures Memory()
      ensures var i := IndexOf(old(Abs()).table, old(Abs()).input);
              if i == |old(Abs()).table| then r == WRONG_ID && Abs() == old(Abs()).(pCur := None)
              else
                && r == NO_ERROR
                && Abs() == old(Abs()).(pCur := Some(old(Abs()).table[i]), table := MoveToFront(old(Abs()).table, i))
    {
      var p, i, _ := list.FindByID(InputBytes[..pInputByte]);
      pCur := p;
      r := if p == null then WRONG_ID else NO_ERROR;
    }

    /** Everything is in: command, parameters and checksum. */
    method Finish() returns (r: ParseError, call: Option<Call>)
      requires Memory() && pCur != null && pInputByte == list.idSize + ParamNum + 1
      modifies this`pInputByte, this`Count
      ensures Memory() && Parsed(Abs(), r, call) == Complete(Conf(), old(Abs()))
      ensures Count == if call.Some? then (old(Count) + 1) % 0x1_0000_0000 else old(Count)
    {
      var n := list.idSize + ParamNum;
      ghost var q := Abs();
      assert q.input[..n] == InputBytes[..n] && q.input[list.idSize..n] == InputBytes[list.idSize..n];
      var DataCS := SumLoop(InputBytes[..n]);
      var SentCS := InputBytes[n];
      if DataCS == SentCS {
        call := Some(Call(pCur.c.pFunc, InputBytes[list.idSize..n]));
        pInputByte := 0;
        Count := (Count + 1) % 0x1_0000_0000;
        r := NO_ERROR;
      } else {
        call := None;
        r := BAD_CHECKSUM;
      }
    }

    /** A byte after the ID was stored. */
    method TakeParameter(NewByte: byte) returns (r: ParseError, call: Option<Call>)
      requires Memory() && pCur != null && pInputByte > list.idSize
      modifies this`pInputByte, this`Count, this`ParamNum
      ensures Memory() && Parsed(Abs(), r, call) == Parameter(Conf(), old(Abs()), NewByte)
      ensures Count == if call.Some? then (old(Count) + 1) % 0x1_0000_0000 else old(Count)
    {
      if pInputByte == list.idSize + 1 {
        ParamNum := if pCur.c.NumParamBytes == VAR_PARAM_NUM then (NewByte + 1) % 256 else pCur.c.NumParamBytes;
        if ParamNum > list.maxParams {
          return WRONG_PARAM_SIZE, None;
        }
      }
      if pInputByte == list.idSize + ParamNum + 1 {
        r, call := Finish();
      } else {
        r, call := NO_ERROR, None;
      }
    }

    method Store(NewByte: byte)
      requires Memory() && pInputByte < InputBytes.Length
      modifies this`pInputByte, InputBytes
      ensures Memory() && Abs() == old(Abs()).(input := old(Abs()).input + [NewByte])
    {
      InputBytes[pInputByte] := NewByte;
      pInputByte := pInputByte + 1;
    }

    /** The body of ParseByte, where the input buffer has room and a started packet its command. */
    method Advance(NewByte: byte) returns (r: ParseError, call: Option<Call>)
      requires Memory() && list.idSize > 0
      requires pInputByte < InputBytes.Length && (pInputByte >= list.idSize ==> pCur != null)
      modifies this`pInputByte, this`pCur, this`ParamNum, this`Count, InputBytes, list, list.Spine
      ensures Memory() && Parsed(Abs(), r, call) == ParserSpec.ParseByte(Conf(), old(Abs()), NewByte)
      ensures Count == if call.Some? then (old(Count) + 1) % 0x1_0000_0000 else old(Count)
    {
      r, call := NO_ERROR, None;
      if pInputByte == 0 && NewByte == 0 {
        return NOOP, None;
      }
      Store(NewByte);
      if pInputByte == list.idSize {
        r := FindCurrent();
      } else if pInputByte > list.idSize {
        r, call := TakeParameter(NewByte);
      }
    }

    /** After an error the caller flushes. */
    method ParseByte(NewByte: byte) returns (r: ParseError, call: Option<Call>)
      requires Valid()
      modifies this, InputBytes, list, list.Spine
      ensures Memory() && Parsed(Abs(), r, call) == ParserSpec.ParseByte(Conf(), old(Abs()), NewByte)
      ensures if r.IsError() then Sound(Conf(), ParserSpec.Flush(Abs())) else Valid()
      ensures Count == if call.Some? then (old(Count) + 1) % 0x1_0000_0000 else old(Count)
    {
      TakeKeeps(Conf(), Abs(), NewByte);
      r, call := Advance(NewByte);
    }
  }
}
