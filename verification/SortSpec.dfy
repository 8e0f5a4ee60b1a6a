/** What sort.c and sort_and_median.h promise: sorted sequences, merging, and medians. */
module SortSpec {

  ghost predicate Sorted(s: seq<real>) {
    forall i, j :: 0 <= i < j < |s| ==> s[i] <= s[j]
  }

  // ---------------------------------------------------------------- insertion

  /** s with its element i moved down to position k. */
  function Moved(s: seq<real>, k: nat, i: nat): seq<real>
    requires k <= i < |s|
  {
    s[..k] + [s[i]] + s[k..i] + s[i + 1..]
  }

  /** Moving element i to between the smaller and the larger ones extends the sorted part. */
  lemma MovedSorted(s: seq<real>, k: nat, i: nat)
    requires k <= i < |s| && Sorted(s[..i])
    requires forall j :: 0 <= j < k ==> s[j] <= s[i]
    requires forall j :: k <= j < i ==> s[i] < s[j]
    ensures Sorted(Moved(s, k, i)[..i + 1])
  {
    var t, sorted := Moved(s, k, i), s[..i];
    forall a, b | 0 <= a < b < i + 1
      ensures t[a] <= t[b]
    {
      var x, y := if a < k then a else a - 1, if b < k then b else b - 1;
      if a != k && b != k {
        assert t[a] == sorted[x] && t[b] == sorted[y];
      }
    }
  }

  lemma MovedPermutes(s: seq<real>, k: nat, i: nat)
    requires k <= i < |s|
    ensures multiset(Moved(s, k, i)) == multiset(s)
  {
    assert s == s[..k] + s[k..i] + [s[i]] + s[i + 1..];
  }

  // ---------------------------------------------------------------- merging

  /** Of equal heads the second sequence's goes first. */
  function Merge(a: seq<real>, b: seq<real>): seq<real> {
    if a == [] then b
    else if b == [] then a
    else if a[0] < b[0] then [a[0]] + Merge(a[1..], b)
    else [b[0]] + Merge(a, b[1..])
  }

  lemma HeadCounts(s: seq<real>, x: real)
    ensures multiset([x] + s) == multiset{x} + multiset(s)
  {
  }

  lemma {:induction false} MergePermutes(a: seq<real>, b: seq<real>)
    ensures multiset(Merge(a, b)) == multiset(a) + multiset(b)
  {
    if a != [] && b != [] {
      if a[0] < b[0] {
        MergePermutes(a[1..], b);
        HeadCounts(Merge(a[1..], b), a[0]);
        HeadCounts(a[1..], a[0]);
        assert a == [a[0]] + a[1..];
      } else {
        MergePermutes(a, b[1..]);
        HeadCounts(Merge(a, b[1..]), b[0]);
        HeadCounts(b[1..], b[0]);
        assert b == [b[0]] + b[1..];
      }
    }
  }

  ghost predicate AtMost(x: real, s: seq<real>) { forall k :: 0 <= k < |s| ==> x <= s[k] }

  lemma {:induction false} MergeAbove(x: real, a: seq<real>, b: seq<real>)
    requires AtMost(x, a) && AtMost(x, b)
    ensures AtMost(x, Merge(a, b))
  {
    if a != [] && b != [] {
      if a[0] < b[0] {
        MergeAbove(x, a[1..], b);
      } else {
        MergeAbove(x, a, b[1..]);
      }
    }
  }

  lemma HeadFirst(x: real, s: seq<real>)
    requires AtMost(x, s) && Sorted(s)
    ensures Sorted([x] + s)
  {
  }

  lemma {:induction false} MergeSorted(a: seq<real>, b: seq<real>)
    requires Sorted(a) && Sorted(b)
    ensures Sorted(Merge(a, b))
  {
    if a != [] && b != [] {
      if a[0] < b[0] {
        MergeSorted(a[1..], b);
        MergeAbove(a[0], a[1..], b);
        HeadFirst(a[0], Merge(a[1..], b));
      } else {
        MergeSorted(a, b[1..]);
        MergeAbove(b[0], a, b[1..]);
        HeadFirst(b[0], Merge(a, b[1..]));
      }
    }
  }

  // ---------------------------------------------------------------- medians

  function AtMostCount(s: seq<real>, m: real): nat {
    if s == [] then 0 else (if s[0] <= m then 1 else 0) + AtMostCount(s[1..], m)
  }

  function AtLeastCount(s: seq<real>, m: real): nat {
    if s == [] then 0 else (if s[0] >= m then 1 else 0) + AtLeastCount(s[1..], m)
  }

  lemma {:induction false} CountConcat(s: seq<real>, t: seq<real>, m: real)
    ensures AtMostCount(s + t, m) == AtMostCount(s, m) + AtMostCount(t, m)
    ensures AtLeastCount(s + t, m) == AtLeastCount(s, m) + AtLeastCount(t, m)
  {
    if s == [] {
      assert s + t == t;
    } else {
      assert (s + t)[1..] == s[1..] + t;
      CountConcat(s[1..], t, m);
    }
  }

  lemma Without(t: seq<real>, i: nat)
    requires i < |t|
    ensures multiset(t[..i] + t[i + 1..]) == multiset(t) - multiset{t[i]}
  {
    assert t == t[..i] + [t[i]] + t[i + 1..];
  }

  lemma Occurs(x: real, t: seq<real>) returns (i: nat)
    requires x in multiset(t)
    ensures i < |t| && t[i] == x
  {
    i :| i < |t| && t[i] == x;
  }

  /** Counting does not depend on the order. */
  lemma {:induction false} CountPermutes(s: seq<real>, t: seq<real>, m: real)
    requires multiset(s) == multiset(t)
    ensures AtMostCount(s, m) == AtMostCount(t, m) && AtLeastCount(s, m) == AtLeastCount(t, m)
    decreases |s|
  {
    assert |t| == |multiset(t)| == |multiset(s)| == |s|;
    if s != [] {
      var i := HeadOccurs(s, t);
      CountPermutes(s[1..], t[..i] + t[i + 1..], m);
      CountWithout(t, i, m);
    }
  }

  lemma HeadOccurs(s: seq<real>, t: seq<real>) returns (i: nat)
    requires multiset(s) == multiset(t) && s != []
    ensures i < |t| && t[i] == s[0] && multiset(s[1..]) == multiset(t[..i] + t[i + 1..])
  {
    assert s[0] in multiset(s);
    i := Occurs(s[0], t);
    Without(s, 0);
    Without(t, i);
    assert s[..0] + s[1..] == s[1..];
  }

  lemma CountWithout(t: seq<real>, i: nat, m: real)
    requires i < |t|
    ensures AtMostCount(t, m) == AtMostCount(t[..i] + t[i + 1..], m) + if t[i] <= m then 1 else 0
    ensures AtLeastCount(t, m) == AtLeastCount(t[..i] + t[i + 1..], m) + if t[i] >= m then 1 else 0
  {
    var a, b := t[..i], t[i + 1..];
    assert t == a + ([t[i]] + b);
    assert ([t[i]] + b)[1..] == b;
    CountConcat(a, [t[i]] + b, m);
    CountConcat(a, b, m);
  }

  lemma {:induction false} AllAtMost(s: seq<real>, m: real)
    requires forall k :: 0 <= k < |s| ==> s[k] <= m
    ensures AtMostCount(s, m) == |s|
  {
    if s != [] {
      AllAtMost(s[1..], m);
    }
  }

  lemma {:induction false} AllAtLeast(s: seq<real>, m: real)
    requires forall k :: 0 <= k < |s| ==> s[k] >= m
    ensures AtLeastCount(s, m) == |s|
  {
    if s != [] {
      AllAtLeast(s[1..], m);
    }
  }

  /** The value MEDIAN takes from a sorted sequence. */
  function Median(s: seq<real>): real
    requires s != []
  {
    if |s| % 2 == 1 then s[(|s| - 1) / 2] else (s[|s| / 2] + s[|s| / 2 - 1]) / 2.0
  }

  /** The middle element, or the mean of the two in the middle. */
  lemma MedianIsMean(s: seq<real>)
    requires s != []
    ensures 2.0 * Median(s) == s[|s| / 2] + s[(|s| - 1) / 2]
  {
  }

  ghost predicate Halves(s: seq<real>, m: real) {
    2 * AtMostCount(s, m) >= |s| && 2 * AtLeastCount(s, m) >= |s|
  }

  /** At least half of a sorted sequence is on either side of its median. */
  lemma MedianOfSorted(s: seq<real>)
    requires s != [] && Sorted(s)
    ensures Halves(s, Median(s))
  {
    var m, h, l := Median(s), |s| / 2, (|s| + 1) / 2;
    assert s[..l] + s[l..] == s && s[..h] + s[h..] == s;
    MedianBetween(s);
    AllAtMost(s[..l], m);
    AllAtLeast(s[h..], m);
    CountConcat(s[..l], s[l..], m);
    CountConcat(s[..h], s[h..], m);
  }

  lemma MedianBetween(s: seq<real>)
    requires s != [] && Sorted(s)
    ensures forall k :: 0 <= k < (|s| + 1) / 2 ==> s[k] <= Median(s)
    ensures forall k :: |s| / 2 <= k < |s| ==> s[k] >= Median(s)
  {
    var lo, hi := (|s| - 1) / 2, |s| / 2;
    assert s[lo] <= Median(s) <= s[hi];
    forall k | 0 <= k < (|s| + 1) / 2
      ensures s[k] <= Median(s)
    {
      assert k <= lo;
      assert k < lo ==> s[k] <= s[lo];
    }
    forall k | |s| / 2 <= k < |s|
      ensures s[k] >= Median(s)
    {
      assert hi < k ==> s[hi] <= s[k];
    }
  }

  /** ... and so of any sequence with the same elements. */
  lemma MedianOf(s: seq<real>, sorted: seq<real>)
    requires s != [] && Sorted(sorted) && multiset(s) == multiset(sorted)
    ensures sorted != [] && Halves(s, Median(sorted))
  {
    assert s[0] in multiset(sorted);
    assert |s| == |multiset(s)| == |multiset(sorted)| == |sorted|;
    MedianOfSorted(sorted);
    CountPermutes(s, sorted, Median(sorted));
  }
}
