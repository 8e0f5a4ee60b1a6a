/** MyMath.hpp: `sum`, the modulo-256 checksum of the port, the parser and the protocol. */
module Checksum {
  import opened Words

  /** The unbounded sum. */
  function Total(p: seq<byte>): nat {
    if p == [] then 0 else Total(p[..|p| - 1]) + p[|p| - 1]
  }

  function Sum(p: seq<byte>): byte {
    Total(p) % 256
  }

  method SumLoop(p: seq<byte>) returns (out: byte)
    ensures out == Sum(p)
  {
    out := 0;
    for i := 0 to |p|
      invariant out == Sum(p[..i])
    {
      assert p[..i + 1][..i] == p[..i];
      out := (out + p[i]) % 256;
    }
    assert p[..|p|] == p;
  }

  lemma {:induction false} TotalConcat(p: seq<byte>, q: seq<byte>)
    ensures Total(p + q) == Total(p) + Total(q)
  {
    if q == [] {
      assert p + q == p;
    } else {
      assert (p + q)[..|p + q| - 1] == p + q[..|q| - 1];
      TotalConcat(p, q[..|q| - 1]);
    }
  }

  /** Adding up part by part gives the checksum of the whole. */
  lemma SumConcat(p: seq<byte>, q: seq<byte>)
    ensures Sum(p + q) == (Sum(p) + Sum(q)) % 256
  {
    TotalConcat(p, q);
    ModAdd(Total(p), Total(q), 256);
    ModAdd(Total(q), Total(p) % 256, 256);
  }

  lemma TotalOne(x: byte)
    ensures Total([x]) == x
  {
    assert [x][..0] == [];
  }

  /** A single changed byte always changes the checksum. */
  lemma ChangedByteIsSeen(p: seq<byte>, x: byte, y: byte, q: seq<byte>)
    ensures Sum(p + [x] + q) == Sum(p + [y] + q) <==> x == y
  {
    TotalConcat(p + [x], q);
    TotalConcat(p + [y], q);
    TotalConcat(p, [x]);
    TotalConcat(p, [y]);
    TotalOne(x);
    TotalOne(y);
  }
}
