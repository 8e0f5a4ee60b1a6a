/**
 sort.c and sort_and_median.h: insertion sort of strided elements, merge sort, and medians.
 Elements are real, so they are totally ordered.
 */
module Sorting {
  import opened SortSpec

  const MaxSizeInsertionSortIsBetter := 30

  /** Where element i of N elements spaced by step from p on lies. */
  function Place(p: nat, step: nat, i: int): int { p + i * step }

  ghost predicate Room(length: nat, p: nat, N: nat, step: nat) {
    step > 0 && (N > 0 ==> Place(p, step, N - 1) < length)
  }

  lemma PlaceInRoom(length: nat, p: nat, N: nat, step: nat, i: nat)
    requires Room(length, p, N, step) && i < N
    ensures 0 <= Place(p, step, i) < length
  {
    MulNonNegative(i, step);
    if i < N - 1 {
      PlacesDiffer(p, step, i, N - 1);
    }
  }

  lemma PlacesDiffer(p: nat, step: nat, i: int, j: int)
    requires step > 0 && i < j
    ensures Place(p, step, i) < Place(p, step, j)
  {
    MulNonNegative(j - i - 1, step);
    assert (j - i - 1) * step == j * step - i * step - step;
  }

  lemma MulNonNegative(a: nat, b: nat)
    ensures a * b >= 0
  {
  }

  ghost predicate OnStride(p: nat, N: nat, step: nat, j: int) {
    exists i :: 0 <= i < N && j == Place(p, step, i)
  }

  /** The elements themselves. */
  ghost function Strided(s: seq<real>, p: nat, N: nat, step: nat): seq<real>
    requires Room(|s|, p, N, step)
  {
    seq(N, i requires 0 <= i < N => PlaceInRoom(|s|, p, N, step, i); s[Place(p, step, i)])
  }

  /** All other cells. */
  ghost predicate Untouched(s: seq<real>, t: seq<real>, p: nat, N: nat, step: nat) {
    |s| == |t| && forall j :: 0 <= j < |s| && !OnStride(p, N, step, j) ==> s[j] == t[j]
  }

  /** Storing at a place changes that one element. */
  lemma StoreAt(s: seq<real>, p: nat, N: nat, step: nat, i: nat, x: real)
    requires Room(|s|, p, N, step) && i < N && 0 <= Place(p, step, i) < |s|
    ensures Strided(s[Place(p, step, i) := x], p, N, step) == Strided(s, p, N, step)[i := x]
  {
    var u := s[Place(p, step, i) := x];
    forall k | 0 <= k < N
      ensures Strided(u, p, N, step)[k] == Strided(s, p, N, step)[i := x][k]
    {
      PlaceInRoom(|s|, p, N, step, k);
      if k < i {
        PlacesDiffer(p, step, k, i);
      } else if i < k {
        PlacesDiffer(p, step, i, k);
      }
    }
  }

  lemma StoreLeavesOthers(t: seq<real>, s: seq<real>, p: nat, N: nat, step: nat, i: nat, x: real)
    requires Untouched(t, s, p, N, step) && i < N && 0 <= Place(p, step, i) < |s|
    ensures Untouched(t, s[Place(p, step, i) := x], p, N, step)
  {
    assert OnStride(p, N, step, Place(p, step, i));
  }

  method Load(a: array<real>, p: nat, N: nat, step: nat, i: nat) returns (x: real)
    requires Room(a.Length, p, N, step) && i < N
    ensures x == Strided(a[..], p, N, step)[i]
  {
    PlaceInRoom(a.Length, p, N, step, i);
    x := a[p + i * step];
  }

  method Store(a: array<real>, p: nat, N: nat, step: nat, i: nat, x: real, ghost was: seq<real>)
    requires Room(a.Length, p, N, step) && i < N && Untouched(was, a[..], p, N, step)
    modifies a
    ensures Strided(a[..], p, N, step) == Strided(old(a[..]), p, N, step)[i := x]
    ensures Untouched(was, a[..], p, N, step)
  {
    PlaceInRoom(a.Length, p, N, step, i);
    StoreAt(a[..], p, N, step, i, x);
    StoreLeavesOthers(was, a[..], p, N, step, i, x);
    a[p + i * step] := x;
    assert a[..] == old(a[..])[Place(p, step, i) := x];
  }

  // ---------------------------------------------------------------- insertion sort

  /** Elements k to i - 1 copied up by one; element k is free to be overwritten. */
  function Shifted(w: seq<real>, k: nat, i: nat): seq<real>
    requires k < i < |w|
  {
    w[..k + 1] + w[k..i] + w[i + 1..]
  }

  lemma ShiftedMore(w: seq<real>, k: nat, i: nat)
    requires 0 < k < i < |w|
    ensures Shifted(w, k, i)[k - 1] == w[k - 1]
    ensures Shifted(w, k, i)[k := w[k - 1]] == Shifted(w, k - 1, i)
  {
  }

  lemma ShiftedEnds(w: seq<real>, k: nat, i: nat)
    requires k < i < |w|
    ensures Shifted(w, i - 1, i) == w[i := w[i - 1]]
    ensures Shifted(w, k, i)[k := w[i]] == Moved(w, k, i)
  {
  }

  /** Elements up to k are at most x when element k is. */
  lemma BelowIsBelow(w: seq<real>, i: nat, k: nat, x: real)
    requires k < i <= |w| && Sorted(w[..i]) && w[k] <= x
    ensures forall j :: 0 <= j <= k ==> w[j] <= x
  {
    var s := w[..i];
    forall j | 0 <= j <= k
      ensures w[j] <= x
    {
      assert s[j] <= s[k];
    }
  }

  /** A step of the outer loop: element i goes down to its place among the i before it. */
  method Insert(a: array<real>, p: nat, N: nat, step: nat, i: nat, ghost was: seq<real>)
    requires Room(a.Length, p, N, step) && 1 <= i < N && Untouched(was, a[..], p, N, step)
    requires Sorted(Strided(a[..], p, N, step)[..i])
    requires Strided(a[..], p, N, step)[i] < Strided(a[..], p, N, step)[i - 1]
    modifies a
    ensures Sorted(Strided(a[..], p, N, step)[..i + 1])
    ensures multiset(Strided(a[..], p, N, step)) == multiset(Strided(old(a[..]), p, N, step))
    ensures Untouched(was, a[..], p, N, step)
  {
    ghost var w := Strided(a[..], p, N, step);
    var x := Load(a, p, N, step, i);
    var y := Load(a, p, N, step, i - 1);
    Store(a, p, N, step, i, y, was);
    ShiftedEnds(w, i - 1, i);
    var k := i - 1; // p_insert is one step below
    while k > 0
      invariant k < i && Untouched(was, a[..], p, N, step)
      invariant Strided(a[..], p, N, step) == Shifted(w, k, i)
      invariant forall j :: k <= j < i ==> x < w[j]
      invariant x == w[i]
    {
      ShiftedMore(w, k, i);
      y := Load(a, p, N, step, k - 1);
      if y > x {
        Store(a, p, N, step, k, y, was);
      } else {
        BelowIsBelow(w, i, k - 1, x);
        break;
      }
      k := k - 1;
    }
    ShiftedEnds(w, k, i);
    Store(a, p, N, step, k, x, was);
    MovedSorted(w, k, i);
    MovedPermutes(w, k, i);
  }

  method insertion_sort_step(a: array<real>, p: nat, N: nat, step: nat)
    requires Room(a.Length, p, N, step)
    modifies a
    ensures Sorted(Strided(a[..], p, N, step))
    ensures multiset(Strided(a[..], p, N, step)) == multiset(Strided(old(a[..]), p, N, step))
    ensures Untouched(old(a[..]), a[..], p, N, step)
  {
    ghost var was := a[..];
    var i := 1;
    while i < N
      invariant 1 <= i && (i <= N || N == 0)
      invariant Sorted(Strided(a[..], p, N, step)[..if i <= N then i else N])
      invariant multiset(Strided(a[..], p, N, step)) == multiset(Strided(was, p, N, step))
      invariant Untouched(was, a[..], p, N, step)
    {
      var x := Load(a, p, N, step, i);
      var y := Load(a, p, N, step, i - 1);
      if x < y {
        Insert(a, p, N, step, i, was);
      } else {
        OneMore(Strided(a[..], p, N, step), i);
      }
      i := i + 1;
    }
    assert Strided(a[..], p, N, step)[..N] == Strided(a[..], p, N, step);
  }

  lemma OneMore(s: seq<real>, i: nat)
    requires 1 <= i < |s| && Sorted(s[..i]) && s[i - 1] <= s[i]
    ensures Sorted(s[..i + 1])
  {
    BelowIsBelow(s, i, i - 1, s[i]);
    forall k, l | 0 <= k < l < i + 1
      ensures s[k] <= s[l]
    {
      if l < i {
        assert s[..i][k] <= s[..i][l];
      }
    }
  }

  // ---------------------------------------------------------------- contiguous elements

  /** Cells p to p + N - 1 hold a sorted permutation of what they held; the others are as they were. */
  ghost predicate SortedRange(was: seq<real>, now: seq<real>, p: nat, N: nat) {
    && |was| == |now| && p + N <= |now|
    && Sorted(now[p..p + N]) && multiset(now[p..p + N]) == multiset(was[p..p + N])
    && now[..p] == was[..p] && now[p + N..] == was[p + N..]
  }

  lemma StrideOne(s: seq<real>, p: nat, N: nat)
    requires p + N <= |s|
    ensures Room(|s|, p, N, 1) && Strided(s, p, N, 1) == s[p..p + N]
  {
  }

  lemma UntouchedOne(was: seq<real>, now: seq<real>, p: nat, N: nat)
    requires Untouched(was, now, p, N, 1) && p + N <= |now|
    ensures now[..p] == was[..p] && now[p + N..] == was[p + N..]
  {
  }

  method insertion_sort(a: array<real>, p: nat, N: nat)
    requires p + N <= a.Length
    modifies a
    ensures SortedRange(old(a[..]), a[..], p, N)
  {
    StrideOne(a[..], p, N);
    insertion_sort_step(a, p, N, 1);
    StrideOne(a[..], p, N);
    UntouchedOne(old(a[..]), a[..], p, N);
  }

  // ---------------------------------------------------------------- merge sort

  /** memcpy of n elements into c from k on. */
  method Copy(c: array<real>, k: nat, a: array<real>, from: nat, n: nat)
    requires c != a && k + n <= c.Length && from + n <= a.Length
    modifies c
    ensures c[..] == old(c[..k]) + a[from..from + n] + old(c[k + n..])
  {
    forall i | 0 <= i < n {
      c[k + i] := a[from + i];
    }
  }

  /** ... to the end of c. */
  method CopyTail(c: array<real>, k: nat, a: array<real>, from: nat, ghost tail: seq<real>)
    requires c != a && k <= c.Length && |tail| == c.Length - k
    requires from + |tail| <= a.Length && a[from..from + |tail|] == tail
    modifies c
    ensures c[..] == old(c[..])[..k] + tail
  {
    Copy(c, k, a, from, c.Length - k);
  }

  /** What merging has still to produce once the heads x were taken. */
  ghost predicate Merging(c: seq<real>, a: seq<real>, b: seq<real>, pa: nat, pb: nat) {
    && pa <= |a| && pb <= |b| && |c| == |a| + |b|
    && c[..pa + pb] + Merge(a[pa..], b[pb..]) == Merge(a, b)
  }

  lemma TakeA(c: seq<real>, a: seq<real>, b: seq<real>, pa: nat, pb: nat)
    requires Merging(c, a, b, pa, pb) && pa < |a| && pb < |b| && a[pa] < b[pb]
    ensures Merging(c[pa + pb := a[pa]], a, b, pa + 1, pb)
  {
    var k := pa + pb;
    assert a[pa..][1..] == a[pa + 1..];
    assert c[k := a[pa]][..k + 1] == c[..k] + [a[pa]];
    Assoc(c[..k], [a[pa]], Merge(a[pa + 1..], b[pb..]));
  }

  lemma TakeB(c: seq<real>, a: seq<real>, b: seq<real>, pa: nat, pb: nat)
    requires Merging(c, a, b, pa, pb) && pa < |a| && pb < |b| && !(a[pa] < b[pb])
    ensures Merging(c[pa + pb := b[pb]], a, b, pa, pb + 1)
  {
    var k := pa + pb;
    assert b[pb..][1..] == b[pb + 1..];
    assert c[k := b[pb]][..k + 1] == c[..k] + [b[pb]];
    Assoc(c[..k], [b[pb]], Merge(a[pa..], b[pb + 1..]));
  }

  lemma Assoc(x: seq<real>, y: seq<real>, z: seq<real>)
    ensures (x + y) + z == x + (y + z)
  {
  }

  /** One of the two ran out. */
  lemma Remnant(c: seq<real>, a: seq<real>, b: seq<real>, pa: nat, pb: nat)
    requires Merging(c, a, b, pa, pb)
    ensures pa == |a| ==> c[..pa + pb] + b[pb..] == Merge(a, b)
    ensures pb == |b| ==> c[..pa + pb] + a[pa..] == Merge(a, b)
  {
  }

  /** One turn of the loop below; pa and pb count what was taken from each half. */
  method TakeSmaller(
      comb: array<real>, a: array<real>, p: nat, q: nat, pa: nat, pb: nat, ghost A: seq<real>, ghost B: seq<real>)
    returns (pa': nat, pb': nat)
    requires comb != a && p + |A| == q && q + |B| <= a.Length && pa < |A| && pb < |B|
    requires a[p..q] == A && a[q..q + |B|] == B && Merging(comb[..], A, B, pa, pb)
    modifies comb
    ensures Merging(comb[..], A, B, pa', pb')
    ensures (pa' == pa + 1 && pb' == pb) || (pa' == pa && pb' == pb + 1)
  {
    assert a[p + pa] == A[pa] && a[q + pb] == B[pb];
    ghost var c := comb[..];
    if a[p + pa] < a[q + pb] {
      TakeA(c, A, B, pa, pb);
      comb[pa + pb] := a[p + pa];
      assert comb[..] == c[pa + pb := A[pa]];
      pa', pb' := pa + 1, pb;
    } else {
      TakeB(c, A, B, pa, pb);
      comb[pa + pb] := a[q + pb];
      assert comb[..] == c[pa + pb := B[pb]];
      pa', pb' := pa, pb + 1;
    }
  }

  /** One half ran out: the rest of the other follows. */
  method CopyRemnant(
      comb: array<real>, a: array<real>, p: nat, q: nat, pa: nat, pb: nat, ghost A: seq<real>, ghost B: seq<real>)
    requires comb != a && p + |A| == q && q + |B| <= a.Length && pa <= |A| && pb <= |B|
    requires a[p..q] == A && a[q..q + |B|] == B && Merging(comb[..], A, B, pa, pb)
    requires pa == |A| || pb == |B|
    modifies comb
    ensures comb[..] == Merge(A, B)
  {
    Remnant(comb[..], A, B, pa, pb);
    if pa == q - p {
      assert a[q + pb..q + pb + |B[pb..]|] == B[pb..];
      CopyTail(comb, pa + pb, a, q + pb, B[pb..]);
    } else {
      assert a[p + pa..p + pa + |A[pa..]|] == A[pa..];
      CopyTail(comb, pa + pb, a, p + pa, A[pa..]);
    }
  }

  /** The loop of merge_sort that combines the two sorted halves. */
  method Combine(a: array<real>, p: nat, N1: nat, N: nat) returns (comb: array<real>)
    requires 0 < N1 < N && p + N <= a.Length
    ensures fresh(comb) && comb[..] == Merge(a[p..p + N1], a[p + N1..p + N])
  {
    ghost var A, B := a[p..p + N1], a[p + N1..p + N];
    comb := new real[N];
    var pa: nat, pb: nat := 0, 0;
    while pa < N1 && pb < N - N1
      invariant pa <= N1 && pb <= N - N1 && (pa < N1 || pb < N - N1)
      invariant Merging(comb[..], A, B, pa, pb)
      decreases N - pa - pb
    {
      pa, pb := TakeSmaller(comb, a, p, p + N1, pa, pb, A, B);
    }
    CopyRemnant(comb, a, p, p + N1, pa, pb, A, B);
  }

  /** A range of `now` is replaced by m. */
  lemma Replaced(s: seq<real>, m: seq<real>, p: nat, N: nat)
    requires p + N <= |s| && |m| == N
    ensures var now := s[..p] + m + s[p + N..];
            |now| == |s| && now[p..p + N] == m && now[..p] == s[..p] && now[p + N..] == s[p + N..]
  {
  }

  /** Sorting the two halves and merging them sorts the whole. */
  lemma HalvesMerge(was: seq<real>, s1: seq<real>, s2: seq<real>, p: nat, N1: nat, N: nat)
    requires N1 <= N && SortedRange(was, s1, p, N1) && SortedRange(s1, s2, p + N1, N - N1)
    ensures SortedRange(was, s2[..p] + Merge(s2[p..p + N1], s2[p + N1..p + N]) + s2[p + N..], p, N)
  {
    var A, B := s2[p..p + N1], s2[p + N1..p + N];
    FirstHalf(was, s1, s2, p, N1, N);
    MergePermutes(A, B);
    MergeSorted(A, B);
    Sizes(A, B, N1, N - N1);
    Replaced(s2, Merge(A, B), p, N);
    Halved(was, p, N1, N);
  }

  lemma Halved(s: seq<real>, p: nat, N1: nat, N: nat)
    requires N1 <= N && p + N <= |s|
    ensures multiset(s[p..p + N]) == multiset(s[p..p + N1]) + multiset(s[p + N1..p + N])
  {
    assert s[p..p + N] == s[p..p + N1] + s[p + N1..p + N];
  }

  lemma Sizes(A: seq<real>, B: seq<real>, n: nat, m: nat)
    requires |A| == n && |B| == m && multiset(Merge(A, B)) == multiset(A) + multiset(B)
    ensures |Merge(A, B)| == n + m
  {
    assert |multiset(Merge(A, B))| == |multiset(A)| + |multiset(B)|;
  }

  /** The second half's sort leaves the first alone, and the first's the second. */
  lemma FirstHalf(was: seq<real>, s1: seq<real>, s2: seq<real>, p: nat, N1: nat, N: nat)
    requires N1 <= N && SortedRange(was, s1, p, N1) && SortedRange(s1, s2, p + N1, N - N1)
    ensures s2[p..p + N1] == s1[p..p + N1] && s2[..p] == was[..p]
    ensures s1[p + N1..p + N] == was[p + N1..p + N] && s2[p + N..] == was[p + N..]
  {
    assert s2[p..p + N1] == s2[..p + N1][p..] && s1[p..p + N1] == s1[..p + N1][p..];
    assert s2[..p] == s2[..p + N1][..p] && s1[..p] == s1[..p + N1][..p];
    assert s1[p + N1..p + N] == s1[p + N1..][..N - N1] && was[p + N1..p + N] == was[p + N1..][..N - N1];
    assert s1[p + N..] == s1[p + N1..][N - N1..] && was[p + N..] == was[p + N1..][N - N1..];
  }

  method merge_sort(a: array<real>, p: nat, N: nat)
    requires p + N <= a.Length
    modifies a
    ensures SortedRange(old(a[..]), a[..], p, N)
    decreases N
  {
    if N <= MaxSizeInsertionSortIsBetter {
      insertion_sort(a, p, N);
    } else {
      ghost var was := a[..];
      var N1 := N / 2;
      merge_sort(a, p, N1);
      ghost var s1 := a[..];
      merge_sort(a, p + N1, N - N1);
      CombineInPlace(a, p, N1, N, was, s1);
    }
  }

  method CopyBack(a: array<real>, p: nat, comb: array<real>)
    requires a != comb && p + comb.Length <= a.Length
    modifies a
    ensures a[..] == old(a[..])[..p] + comb[..] + old(a[..])[p + comb.Length..]
  {
    ghost var s := a[..];
    Copy(a, p, comb, 0, comb.Length);
    assert s[..p] == old(a[..p]) && s[p + comb.Length..] == old(a[p + comb.Length..]);
    assert comb[0..0 + comb.Length] == comb[..];
  }

  /** The halves are sorted: combine them, and copy the result back. */
  method CombineInPlace(a: array<real>, p: nat, N1: nat, N: nat, ghost was: seq<real>, ghost s1: seq<real>)
    requires 0 < N1 < N && p + N <= a.Length
    requires SortedRange(was, s1, p, N1) && SortedRange(s1, a[..], p + N1, N - N1)
    modifies a
    ensures SortedRange(was, a[..], p, N)
  {
    ghost var s2 := a[..];
    var comb := Combine(a, p, N1, N);
    assert s2[p..p + N1] == a[p..p + N1] && s2[p + N1..p + N] == a[p + N1..p + N];
    HalvesMerge(was, s1, s2, p, N1, N);
    CopyBack(a, p, comb);
  }

  // ---------------------------------------------------------------- medians

  /** MEDIAN_STEP. */
  method MedianStep(a: array<real>, p: nat, step: nat, N: nat) returns (m: real)
    requires N > 0 && Room(a.Length, p, N, step)
    ensures m == Median(Strided(a[..], p, N, step))
    ensures var s := Strided(a[..], p, N, step); 2.0 * m == s[N / 2] + s[(N - 1) / 2]
  {
    if N % 2 == 1 {
      var h := (N - 1) / 2;
      HalfStride(step, h);
      PlaceInRoom(a.Length, p, N, step, h);
      m := a[p + step * (2 * h) / 2];
    } else {
      var h := N / 2;
      var x := Load(a, p, N, step, h);
      var y := Load(a, p, N, step, h - 1);
      m := (x + y) / 2.0;
    }
  }

  lemma HalfStride(step: nat, h: nat)
    ensures step * (2 * h) / 2 == h * step
  {
    assert step * (2 * h) == 2 * (h * step);
  }

  /** SORT_AND_MEDIAN_STEP: a value with at least half the elements on either side. */
  method SortAndMedianStep(a: array<real>, p: nat, step: nat, N: nat) returns (m: real)
    requires N > 0 && Room(a.Length, p, N, step)
    modifies a
    ensures Halves(Strided(old(a[..]), p, N, step), m)
    ensures var s := Strided(a[..], p, N, step);
            && Sorted(s) && multiset(s) == multiset(Strided(old(a[..]), p, N, step))
            && 2.0 * m == s[N / 2] + s[(N - 1) / 2]
    ensures Untouched(old(a[..]), a[..], p, N, step)
  {
    ghost var s := Strided(a[..], p, N, step);
    insertion_sort_step(a, p, N, step);
    m := MedianStep(a, p, step, N);
    MedianOf(s, Strided(a[..], p, N, step));
  }

  /** SORT_AND_MEDIAN. */
  method SortAndMedian(a: array<real>, p: nat, N: nat) returns (m: real)
    requires N > 0 && p + N <= a.Length
    modifies a
    ensures Halves(old(a[p..p + N]), m) && SortedRange(old(a[..]), a[..], p, N)
    ensures 2.0 * m == a[p + N / 2] + a[p + (N - 1) / 2]
  {
    ghost var was := a[..];
    merge_sort(a, p, N);
    StrideOne(a[..], p, N);
    m := MedianStep(a, p, 1, N);
    MedianInPlace(was, a[..], p, N, m);
    assert was[p..p + N] == old(a[p..p + N]);
  }

  /** The median of a sorted range, as the mean of its two middle elements where they stand. */
  lemma MedianInPlace(was: seq<real>, s: seq<real>, p: nat, N: nat, m: real)
    requires N > 0 && p + N <= |s| && SortedRange(was, s, p, N)
    requires Room(|s|, p, N, 1) && m == Median(Strided(s, p, N, 1))
    ensures Halves(was[p..p + N], m) && 2.0 * m == s[p + N / 2] + s[p + (N - 1) / 2]
  {
    StrideOne(s, p, N);
    MedianOf(was[p..p + N], s[p..p + N]);
    MedianIsMean(s[p..p + N]);
  }
}
