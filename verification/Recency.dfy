/**
 CommandChain.hpp: the self-organising list of commands. FindByID moves what it finds to the
 front, so the list is always in order of last use.
 */
module Recency {

  function Without<T(==)>(s: seq<T>, x: T): seq<T> {
    if s == [] then [] else (if s[0] == x then [] else [s[0]]) + Without(s[1..], x)
  }

  /** The distinct elements of a history, most recently used first. */
  function Recent<T(==)>(h: seq<T>): seq<T> {
    if h == [] then [] else [h[|h| - 1]] + Without(Recent(h[..|h| - 1]), h[|h| - 1])
  }

  function MoveToFront<T>(s: seq<T>, i: nat): seq<T>
    requires i < |s|
  {
    [s[i]] + s[..i] + s[i + 1..]
  }

  predicate Distinct<T(==)>(s: seq<T>) {
    forall i, j :: 0 <= i < j < |s| ==> s[i] != s[j]
  }

  /** The uses after the last use of x. */
  function Since<T(==)>(h: seq<T>, x: T): seq<T> {
    if h == [] || h[|h| - 1] == x then [] else Since(h[..|h| - 1], x) + [h[|h| - 1]]
  }

  ghost function Elements<T>(s: seq<T>): set<T> { set y | y in s }

  lemma DistinctCons<T>(x: T, s: seq<T>)
    ensures Distinct([x] + s) <==> x !in s && Distinct(s)
  {
    var t := [x] + s;
    if Distinct(t) {
      forall i, j | 0 <= i < j < |s|
        ensures s[i] != s[j]
      {
        assert t[i + 1] != t[j + 1];
      }
      forall i | 0 <= i < |s|
        ensures s[i] != x
      {
        assert t[0] != t[i + 1];
      }
    }
  }

  lemma ElementsConcat<T>(p: seq<T>, q: seq<T>)
    ensures Elements(p + q) == Elements(p) + Elements(q)
  {
  }

  lemma {:induction false} ElementsWithout<T>(s: seq<T>, x: T)
    ensures Elements(Without(s, x)) == Elements(s) - {x}
    ensures x !in s ==> Without(s, x) == s
  {
    if s != [] {
      ElementsWithout(s[1..], x);
      assert s == [s[0]] + s[1..];
      ElementsConcat([s[0]], s[1..]);
      ElementsConcat(if s[0] == x then [] else [s[0]], Without(s[1..], x));
    }
  }

  lemma WithoutMembers<T>(s: seq<T>, x: T)
    ensures forall y :: y in Without(s, x) <==> y in s && y != x
    ensures x !in s ==> Without(s, x) == s
  {
    ElementsWithout(s, x);
    assert forall y :: y in Without(s, x) <==> y in Elements(Without(s, x));
  }

  lemma {:induction false} WithoutDistinct<T>(s: seq<T>, x: T)
    requires Distinct(s)
    ensures Distinct(Without(s, x))
  {
    if s != [] {
      assert s == [s[0]] + s[1..];
      DistinctCons(s[0], s[1..]);
      WithoutDistinct(s[1..], x);
      WithoutMembers(s[1..], x);
      DistinctCons(s[0], Without(s[1..], x));
    }
  }

  lemma {:induction false} WithoutConcat<T>(p: seq<T>, q: seq<T>, x: T)
    ensures Without(p + q, x) == Without(p, x) + Without(q, x)
  {
    if p == [] {
      assert p + q == q;
    } else {
      assert (p + q)[1..] == p[1..] + q;
      WithoutConcat(p[1..], q, x);
    }
  }

  lemma {:induction false} RecentMembers<T>(h: seq<T>)
    ensures Distinct(Recent(h)) && forall y :: y in Recent(h) <==> y in h
  {
    if h != [] {
      var rest, x := h[..|h| - 1], h[|h| - 1];
      RecentMembers(rest);
      WithoutMembers(Recent(rest), x);
      WithoutDistinct(Recent(rest), x);
      DistinctCons(x, Without(Recent(rest), x));
      assert h == rest + [x];
    }
  }

  /** Finding what is at position i is using it once more. */
  lemma FindIsUse<T>(h: seq<T>, i: nat)
    requires i < |Recent(h)|
    ensures MoveToFront(Recent(h), i) == Recent(h + [Recent(h)[i]])
  {
    var s, x := Recent(h), Recent(h)[i];
    RecentMembers(h);
    assert (h + [x])[..|h|] == h;
    assert s == s[..i] + ([x] + s[i + 1..]);
    WithoutConcat(s[..i], [x] + s[i + 1..], x);
    WithoutConcat([x], s[i + 1..], x);
    WithoutMembers(s[..i], x);
    WithoutMembers(s[i + 1..], x);
    assert Without([x], x) == [];
  }

  /** Adding a new element is using it for the first time. */
  lemma AddIsUse<T>(h: seq<T>, x: T)
    requires x !in Recent(h)
    ensures [x] + Recent(h) == Recent(h + [x])
  {
    assert (h + [x])[..|h|] == h;
    WithoutMembers(Recent(h), x);
  }

  /** Where an element that survives in Without was before. */
  lemma FormerPosition<T>(s: seq<T>, y: T, i: nat) returns (j: nat)
    requires i < |Without(s, y)|
    ensures j < |s| && s[j] == Without(s, y)[i] && s[j] != y
  {
    var x := Without(s, y)[i];
    ElementsWithout(s, y);
    assert x in Elements(Without(s, y));
    j :| j < |s| && s[j] == x;
  }

  /** Before x in the list stand exactly the elements used since x was. */
  lemma {:induction false} BeforeIsSince<T>(h: seq<T>, i: nat)
    requires i < |Recent(h)|
    ensures Elements(Recent(h)[..i]) == Elements(Since(h, Recent(h)[i]))
  {
    var rest, y := h[..|h| - 1], h[|h| - 1];
    var s := Recent(rest);
    if i > 0 {
      var j := FormerPosition(s, y, i - 1);
      BeforeIsSince(rest, j);
      RecentMembers(rest);
      BeforeInWithout(s, y, i - 1, j);
      assert Recent(h)[..i] == [y] + Without(s, y)[..i - 1];
      ElementsConcat([y], Without(s, y)[..i - 1]);
      ElementsConcat(Since(rest, s[j]), [y]);
    }
  }

  lemma BeforeInWithout<T>(s: seq<T>, y: T, i: nat, j: nat)
    requires Distinct(s) && j < |s| && i < |Without(s, y)| && s[j] == Without(s, y)[i] && s[j] != y
    ensures Elements(Without(s, y)[..i]) == Elements(s[..j]) - {y}
  {
    var p, x, q := s[..j], s[j], s[j + 1..];
    assert s == p + ([x] + q);
    WithoutConcat(p, [x] + q, y);
    assert Without([x] + q, y) == [x] + Without(q, y);
    WithoutDistinct(s, y);
    var k := |Without(p, y)|;
    assert Without(s, y)[k] == x;
    assert i == k;
    assert Without(s, y)[..k] == Without(p, y);
    ElementsWithout(p, y);
  }

  lemma {:induction false} DistinctCount<T>(s: seq<T>)
    requires Distinct(s)
    ensures |Elements(s)| == |s|
  {
    if s != [] {
      DistinctCount(s[1..]);
      assert Elements(s) == {s[0]} + Elements(s[1..]);
    }
  }

  /** Finding x costs one comparison more than the number of distinct others used since x was. */
  lemma PositionIsDistinctSince<T>(h: seq<T>, i: nat)
    requires i < |Recent(h)|
    ensures i == |Elements(Since(h, Recent(h)[i]))|
  {
    BeforeIsSince(h, i);
    RecentMembers(h);
    DistinctCount(Recent(h)[..i]);
  }
}
