/** Median and HistogramPoint: selection by sampling.  A middle chunk is sorted, its middle
    element splits the array, and the part that holds the answer is copied and searched. */
module Statistics {

  const THRESHOLD: nat := 50

  type Comparison<!T> = (T, T) -> int

  /** What qsort asks of a comparison: it orders the elements totally, ties allowed. */
  ghost predicate Consistent<T(!new)>(cmp: Comparison<T>)
  {
    && (forall x, y :: cmp(x, y) < 0 <==> cmp(y, x) > 0)
    && (forall x, y, z :: cmp(x, y) <= 0 && cmp(y, z) <= 0 ==> cmp(x, z) <= 0)
  }

  lemma Flip<T(!new)>(cmp: Comparison<T>, x: T, y: T)
    requires Consistent(cmp)
    ensures (cmp(x, y) < 0 <==> cmp(y, x) > 0) && (cmp(x, y) > 0 <==> cmp(y, x) < 0)
  {
  }

  lemma Chain<T(!new)>(cmp: Comparison<T>, x: T, y: T, z: T)
    requires Consistent(cmp) && cmp(x, y) <= 0 && cmp(y, z) <= 0
    ensures cmp(x, z) <= 0
    ensures cmp(x, y) < 0 || cmp(y, z) < 0 ==> cmp(x, z) < 0
  {
  }

  predicate Counted<T>(cmp: Comparison<T>, x: T, r: T, strict: bool)
  {
    if strict then cmp(x, r) < 0 else cmp(x, r) <= 0
  }

  /** How many elements are below r, or at most r when not strict. */
  function Count<T>(s: seq<T>, cmp: Comparison<T>, r: T, strict: bool): (n: nat)
    ensures n <= |s|
  {
    if s == [] then 0
    else Count(s[..|s| - 1], cmp, r, strict) + if Counted(cmp, s[|s| - 1], r, strict) then 1 else 0
  }

  function Less<T>(s: seq<T>, cmp: Comparison<T>, r: T): nat { Count(s, cmp, r, true) }

  function AtMost<T>(s: seq<T>, cmp: Comparison<T>, r: T): nat { Count(s, cmp, r, false) }

  ghost predicate Sorted<T>(s: seq<T>, cmp: Comparison<T>)
  {
    forall i, j :: 0 <= i <= j < |s| ==> cmp(s[i], s[j]) <= 0
  }

  /** The library's qsort: some function that sorts, with ties in any order. */
  ghost predicate Sorter<T(!new)>(qsort: seq<T> -> seq<T>, cmp: Comparison<T>)
  {
    forall s: seq<T> :: Sorted(qsort(s), cmp) && multiset(qsort(s)) == multiset(s)
  }

  /** The elements below t (above t), in their order. */
  function Part<T>(s: seq<T>, cmp: Comparison<T>, t: T, below: bool): seq<T>
  {
    if s == [] then []
    else
      var x := s[|s| - 1];
      Part(s[..|s| - 1], cmp, t, below)
      + if (if below then cmp(t, x) > 0 else cmp(t, x) < 0) then [x] else []
  }

  // ---------------------------------------------------------------- counting

  lemma {:induction false} CountSplit<T>(a: seq<T>, b: seq<T>, cmp: Comparison<T>, r: T, strict: bool)
    ensures Count(a + b, cmp, r, strict) == Count(a, cmp, r, strict) + Count(b, cmp, r, strict)
    decreases |b|
  {
    if b == [] {
      assert a + b == a;
    } else {
      assert (a + b)[..|a + b| - 1] == a + b[..|b| - 1];
      CountSplit(a, b[..|b| - 1], cmp, r, strict);
    }
  }

  lemma {:induction false} CountPermuted<T>(a: seq<T>, b: seq<T>, cmp: Comparison<T>, r: T, strict: bool)
    requires multiset(a) == multiset(b)
    ensures Count(a, cmp, r, strict) == Count(b, cmp, r, strict)
    decreases |a|
  {
    SameSize(a, b);
    if a != [] {
      var x := a[|a| - 1];
      assert a == a[..|a| - 1] + [x];
      assert x in multiset(b);
      var j :| 0 <= j < |b| && b[j] == x;
      var rest := b[..j] + b[j + 1..];
      assert b == b[..j] + [x] + b[j + 1..];
      assert multiset(rest) == multiset(b) - multiset{x};
      CountPermuted(a[..|a| - 1], rest, cmp, r, strict);
      CountSplit(b[..j], [x], cmp, r, strict);
      CountSplit(b[..j] + [x], b[j + 1..], cmp, r, strict);
      CountSplit(b[..j], b[j + 1..], cmp, r, strict);
    }
  }

  lemma SameSize<T>(a: seq<T>, b: seq<T>)
    requires multiset(a) == multiset(b)
    ensures |a| == |b|
  {
    assert |multiset(a)| == |a| && |multiset(b)| == |b|;
  }

  /** Elements that compare equal have the same counts. */
  lemma {:induction false} CountCongruent<T(!new)>(s: seq<T>, cmp: Comparison<T>, q: T, r: T, strict: bool)
    requires Consistent(cmp) && cmp(q, r) == 0
    ensures Count(s, cmp, q, strict) == Count(s, cmp, r, strict)
    decreases |s|
  {
    hide Consistent;
    if s != [] {
      CountCongruent(s[..|s| - 1], cmp, q, r, strict);
      var x := s[|s| - 1];
      Flip(cmp, q, r);
      if cmp(x, q) <= 0 {
        Chain(cmp, x, q, r);
      }
      if cmp(x, r) <= 0 {
        Chain(cmp, x, r, q);
      }
    }
  }

  /** In a sorted sequence, position k lies between the counts of its element. */
  lemma {:induction false} SortedRank<T(!new)>(q: seq<T>, cmp: Comparison<T>, k: nat)
    requires Consistent(cmp) && Sorted(q, cmp) && k < |q|
    ensures Less(q, cmp, q[k]) <= k < AtMost(q, cmp, q[k])
  {
    hide Count, Consistent;
    assert q == q[..k] + q[k..];
    assert forall i :: 0 <= i < |q[k..]| ==> q[k..][i] == q[k + i];
    CountSplit(q[..k], q[k..], cmp, q[k], true);
    CountNone(q[k..], cmp, q[k]);
    assert q == q[..k + 1] + q[k + 1..];
    CountSplit(q[..k + 1], q[k + 1..], cmp, q[k], false);
    CountAll(q[..k + 1], cmp, q[k]);
  }

  lemma {:induction false} CountNone<T(!new)>(s: seq<T>, cmp: Comparison<T>, r: T)
    requires Consistent(cmp) && forall i :: 0 <= i < |s| ==> cmp(r, s[i]) <= 0
    ensures Less(s, cmp, r) == 0
    decreases |s|
  {
    hide Consistent;
    if s != [] {
      CountNone(s[..|s| - 1], cmp, r);
      Flip(cmp, r, s[|s| - 1]);
    }
  }

  lemma {:induction false} CountAll<T(!new)>(s: seq<T>, cmp: Comparison<T>, r: T)
    requires forall i :: 0 <= i < |s| ==> cmp(s[i], r) <= 0
    ensures AtMost(s, cmp, r) == |s|
    decreases |s|
  {
    if s != [] {
      CountAll(s[..|s| - 1], cmp, r);
    }
  }

  lemma {:induction false} LessIsFewer<T>(s: seq<T>, cmp: Comparison<T>, r: T)
    ensures Less(s, cmp, r) <= AtMost(s, cmp, r)
    decreases |s|
  {
    if s != [] {
      LessIsFewer(s[..|s| - 1], cmp, r);
    }
  }

  /** The counts below the pivot are those in the part below it. */
  lemma {:induction false} BelowCounts<T(!new)>(s: seq<T>, cmp: Comparison<T>, t: T, r: T, strict: bool)
    requires Consistent(cmp) && cmp(r, t) < 0
    ensures Count(Part(s, cmp, t, true), cmp, r, strict) == Count(s, cmp, r, strict)
    decreases |s|
  {
    hide Consistent;
    if s != [] {
      var n := |s| - 1;
      var x := s[n];
      BelowCounts(s[..n], cmp, t, r, strict);
      CountSplit(Part(s[..n], cmp, t, true), if cmp(t, x) > 0 then [x] else [], cmp, r, strict);
      Flip(cmp, r, t);
      if cmp(t, x) <= 0 && cmp(x, r) <= 0 {
        Chain(cmp, t, x, r);
      }
    }
  }

  /** Above the pivot the counts start after everything up to the pivot. */
  lemma {:induction false} AboveCounts<T(!new)>(s: seq<T>, cmp: Comparison<T>, t: T, r: T, strict: bool)
    requires Consistent(cmp) && cmp(t, r) < 0
    ensures AtMost(s, cmp, t) + Count(Part(s, cmp, t, false), cmp, r, strict) == Count(s, cmp, r, strict)
    decreases |s|
  {
    hide Consistent;
    if s != [] {
      var n := |s| - 1;
      var x := s[n];
      AboveCounts(s[..n], cmp, t, r, strict);
      CountSplit(Part(s[..n], cmp, t, false), if cmp(t, x) < 0 then [x] else [], cmp, r, strict);
      Flip(cmp, t, x);
      if cmp(x, t) <= 0 {
        Chain(cmp, x, t, r);
      }
    }
  }

  lemma {:induction false} PartSizes<T(!new)>(s: seq<T>, cmp: Comparison<T>, t: T)
    requires Consistent(cmp)
    ensures |Part(s, cmp, t, true)| == Less(s, cmp, t)
    ensures |Part(s, cmp, t, false)| == |s| - AtMost(s, cmp, t)
    decreases |s|
  {
    hide Consistent;
    if s != [] {
      PartSizes(s[..|s| - 1], cmp, t);
      var x := s[|s| - 1];
      Flip(cmp, x, t);
    }
  }

  lemma {:induction false} PartMembers<T>(s: seq<T>, cmp: Comparison<T>, t: T, below: bool, x: T)
    requires x in Part(s, cmp, t, below)
    ensures x in s && (if below then cmp(t, x) > 0 else cmp(t, x) < 0)
    decreases |s|
  {
    if s != [] {
      if x in Part(s[..|s| - 1], cmp, t, below) {
        PartMembers(s[..|s| - 1], cmp, t, below, x);
      }
    }
  }

  lemma {:induction false} CountPositive<T>(s: seq<T>, cmp: Comparison<T>, i: nat, strict: bool, r: T)
    requires i < |s| && Counted(cmp, s[i], r, strict)
    ensures Count(s, cmp, r, strict) > 0
    decreases |s|
  {
    if i < |s| - 1 {
      CountPositive(s[..|s| - 1], cmp, i, strict, r);
    }
  }

  /** The pivot itself is counted among the elements up to it, not among those below it. */
  lemma {:induction false} PivotCounts<T(!new)>(s: seq<T>, cmp: Comparison<T>, i: nat)
    requires Consistent(cmp) && i < |s|
    ensures Less(s, cmp, s[i]) < AtMost(s, cmp, s[i])
    decreases |s|
  {
    Flip(cmp, s[i], s[i]);
    LessIsFewer(s[..|s| - 1], cmp, s[i]);
    if i < |s| - 1 {
      PivotCounts(s[..|s| - 1], cmp, i);
    }
  }

  // ---------------------------------------------------------------- one round

  function ChunkStart(n: nat): nat
    requires n > THRESHOLD
  {
    (n - THRESHOLD) / 2
  }

  /** The array once its middle chunk is sorted. */
  ghost function ChunkSorted<T(!new)>(s: seq<T>, cmp: Comparison<T>, qsort: seq<T> -> seq<T>): (c: seq<T>)
    requires Sorter(qsort, cmp) && |s| > THRESHOLD
    ensures |c| == |s| && multiset(c) == multiset(s)
  {
    var m := ChunkStart(|s|);
    var chunk := s[m..m + THRESHOLD];
    SameSize(qsort(chunk), chunk);
    assert s == s[..m] + chunk + s[m + THRESHOLD..];
    s[..m] + qsort(chunk) + s[m + THRESHOLD..]
  }

  ghost function Pivot<T(!new)>(s: seq<T>, cmp: Comparison<T>, qsort: seq<T> -> seq<T>): T
    requires Sorter(qsort, cmp) && |s| > THRESHOLD
  {
    ChunkSorted(s, cmp, qsort)[ChunkStart(|s|) + THRESHOLD / 2]
  }

  /** The search runs into a pivot with exactly k elements up to it: the closed test
      (L+E) >= k then takes the pivot although position k holds a larger element. */
  ghost predicate Slips<T(!new)>(s: seq<T>, k: nat, cmp: Comparison<T>, qsort: seq<T> -> seq<T>)
    requires Consistent(cmp) && Sorter(qsort, cmp) && k < |s|
    decreases |s|
  {
    |s| > THRESHOLD &&
    var c := ChunkSorted(s, cmp, qsort);
    var t := Pivot(s, cmp, qsort);
    PivotCounts(c, cmp, ChunkStart(|s|) + THRESHOLD / 2);
    PartSizes(c, cmp, t);
    if k < Less(c, cmp, t) then Slips(Part(c, cmp, t, true), k, cmp, qsort)
    else if k <= AtMost(c, cmp, t) then k == AtMost(c, cmp, t)
    else Slips(Part(c, cmp, t, false), k - AtMost(c, cmp, t), cmp, qsort)
  }

  /** r stands at sorted position k, or, if the selection slipped, just before it. */
  ghost predicate Selected<T>(s: seq<T>, cmp: Comparison<T>, r: T, k: nat, slipped: bool)
  {
    && r in s
    && Less(s, cmp, r) <= k
    && (if slipped then k == AtMost(s, cmp, r) else k < AtMost(s, cmp, r))
  }

  lemma SelectedPermuted<T(!new)>(a: seq<T>, b: seq<T>, cmp: Comparison<T>, r: T, k: nat, slipped: bool)
    requires multiset(a) == multiset(b) && Selected(a, cmp, r, k, slipped)
    ensures Selected(b, cmp, r, k, slipped)
  {
    CountPermuted(a, b, cmp, r, true);
    CountPermuted(a, b, cmp, r, false);
    assert r in multiset(a);
    assert r in multiset(b);
  }

  lemma SelectedCongruent<T(!new)>(s: seq<T>, cmp: Comparison<T>, q: T, r: T, k: nat, slipped: bool)
    requires Consistent(cmp) && Selected(s, cmp, q, k, slipped) && cmp(q, r) == 0 && r in s
    ensures Selected(s, cmp, r, k, slipped)
  {
    CountCongruent(s, cmp, q, r, true);
    CountCongruent(s, cmp, q, r, false);
  }

  /** What is selected in a part, at the rank the part calls for, is selected in the whole. */
  lemma SelectedFromPart<T(!new)>(s: seq<T>, cmp: Comparison<T>, t: T, below: bool, r: T, k: nat, slipped: bool)
    requires Consistent(cmp) && Selected(Part(s, cmp, t, below), cmp, r, k, slipped)
    ensures Selected(s, cmp, r, if below then k else k + AtMost(s, cmp, t), slipped)
  {
    PartMembers(s, cmp, t, below, r);
    Flip(cmp, t, r);
    if below {
      BelowCounts(s, cmp, t, r, true);
      BelowCounts(s, cmp, t, r, false);
    } else {
      AboveCounts(s, cmp, t, r, true);
      AboveCounts(s, cmp, t, r, false);
    }
  }

  /** The counts say where r stands once the elements are sorted. */
  lemma SelectedPosition<T(!new)>(s: seq<T>, q: seq<T>, cmp: Comparison<T>, r: T, k: nat, slipped: bool)
    requires Consistent(cmp) && Sorted(q, cmp) && multiset(s) == multiset(q) && k < |s|
    requires Selected(s, cmp, r, k, slipped)
    ensures |q| == |s|
    ensures !slipped ==> cmp(r, q[k]) == 0
    ensures slipped ==> k > 0 && cmp(r, q[k - 1]) == 0 && cmp(r, q[k]) < 0
  {
    hide Consistent;
    SameSize(s, q);
    SelectedPermuted(s, q, cmp, r, k, slipped);
    RankOrder(q, cmp, r, k);
    assert r in q;
    var i :| 0 <= i < |q| && q[i] == r;
    SortedRank(q, cmp, i);
    if slipped {
      RankOrder(q, cmp, r, k - 1);
    }
  }

  /** Comparing an element with sorted position k is comparing k with its counts. */
  lemma RankOrder<T(!new)>(q: seq<T>, cmp: Comparison<T>, r: T, k: nat)
    requires Consistent(cmp) && Sorted(q, cmp) && k < |q|
    ensures k < Less(q, cmp, r) <==> cmp(q[k], r) < 0
    ensures k < AtMost(q, cmp, r) <==> cmp(q[k], r) <= 0
    ensures (cmp(q[k], r) < 0 <==> cmp(r, q[k]) > 0) && (cmp(q[k], r) > 0 <==> cmp(r, q[k]) < 0)
  {
    hide Consistent, Count;
    Flip(cmp, q[k], r);
    RankOrderFor(q, cmp, r, k, true);
    RankOrderFor(q, cmp, r, k, false);
  }

  lemma {:induction false} RankOrderFor<T(!new)>(q: seq<T>, cmp: Comparison<T>, r: T, k: nat, strict: bool)
    requires Consistent(cmp) && Sorted(q, cmp) && k < |q|
    ensures k < Count(q, cmp, r, strict) <==> Counted(cmp, q[k], r, strict)
    decreases |q|
  {
    hide Consistent;
    var n := |q| - 1;
    if k < n {
      RankOrderFor(q[..n], cmp, r, k, strict);
      if Counted(cmp, q[n], r, strict) {
        Chain(cmp, q[k], q[n], r);
      }
    } else {
      if Counted(cmp, q[n], r, strict) {
        forall i | 0 <= i < |q| ensures Counted(cmp, q[i], r, strict) {
          Chain(cmp, q[i], q[n], r);
        }
        CountEvery(q, cmp, r, strict);
      }
    }
  }

  lemma {:induction false} CountEvery<T(!new)>(s: seq<T>, cmp: Comparison<T>, r: T, strict: bool)
    requires forall i :: 0 <= i < |s| ==> Counted(cmp, s[i], r, strict)
    ensures Count(s, cmp, r, strict) == |s|
    decreases |s|
  {
    if s != [] {
      CountEvery(s[..|s| - 1], cmp, r, strict);
    }
  }

  lemma SmallSelected<T(!new)>(s: seq<T>, k: nat, cmp: Comparison<T>, qsort: seq<T> -> seq<T>)
    requires Consistent(cmp) && Sorter(qsort, cmp) && k < |s| <= THRESHOLD
    ensures |qsort(s)| == |s| && multiset(qsort(s)) == multiset(s) && !Slips(s, k, cmp, qsort)
    ensures Selected(qsort(s), cmp, qsort(s)[k], k, false)
  {
    SameSize(qsort(s), s);
    SortedRank(qsort(s), cmp, k);
  }

  /** One round of the search, as the predicate sees it. */
  lemma SlipsStep<T(!new)>(s: seq<T>, k: nat, cmp: Comparison<T>, qsort: seq<T> -> seq<T>)
    requires Consistent(cmp) && Sorter(qsort, cmp) && k < |s| && |s| > THRESHOLD
    ensures var c := ChunkSorted(s, cmp, qsort);
            var t := Pivot(s, cmp, qsort);
            && |Part(c, cmp, t, true)| == Less(c, cmp, t) < AtMost(c, cmp, t)
            && |Part(c, cmp, t, false)| == |s| - AtMost(c, cmp, t)
            && (k < Less(c, cmp, t) ==> (Slips(s, k, cmp, qsort) <==> Slips(Part(c, cmp, t, true), k, cmp, qsort)))
            && (k > AtMost(c, cmp, t) ==>
                 (Slips(s, k, cmp, qsort) <==> Slips(Part(c, cmp, t, false), k - AtMost(c, cmp, t), cmp, qsort)))
            && (Less(c, cmp, t) <= k <= AtMost(c, cmp, t) ==> Selected(c, cmp, t, k, Slips(s, k, cmp, qsort)))
  {
    var c := ChunkSorted(s, cmp, qsort);
    var t := Pivot(s, cmp, qsort);
    PivotCounts(c, cmp, ChunkStart(|s|) + THRESHOLD / 2);
    PartSizes(c, cmp, t);
  }

  lemma SortedHalf<T(!new)>(q: seq<T>, cmp: Comparison<T>, n: nat)
    requires Consistent(cmp) && Sorted(q, cmp) && n < |q|
    ensures AtMost(q, cmp, q[n]) > n
  {
    hide Count, Consistent;
    var low, high := q[..n + 1], q[n + 1..];
    assert q == low + high;
    Flip(cmp, q[n], q[n]);
    CountAll(low, cmp, q[n]);
    CountSplit(low, high, cmp, q[n], false);
  }

  lemma PivotOfChunk<T(!new)>(s: seq<T>, cmp: Comparison<T>, qsort: seq<T> -> seq<T>)
    requires Sorter(qsort, cmp) && |s| > THRESHOLD
    ensures var m := ChunkStart(|s|);
            var q := qsort(s[m..m + THRESHOLD]);
            && |q| == THRESHOLD && Sorted(q, cmp) && Pivot(s, cmp, qsort) == q[THRESHOLD / 2]
            && ChunkSorted(s, cmp, qsort) == s[..m] + q + s[m + THRESHOLD..]
  {
    hide Sorted;
    var m := ChunkStart(|s|);
    SameSize(qsort(s[m..m + THRESHOLD]), s[m..m + THRESHOLD]);
  }

  lemma CountMiddle<T>(a: seq<T>, q: seq<T>, b: seq<T>, cmp: Comparison<T>, r: T)
    ensures AtMost(a + q + b, cmp, r) >= AtMost(q, cmp, r)
  {
    CountSplit(a, q, cmp, r, false);
    CountSplit(a + q, b, cmp, r, false);
  }

  /** The pivot has half of its chunk, and itself, up to it. */
  lemma PivotRank<T(!new)>(s: seq<T>, cmp: Comparison<T>, qsort: seq<T> -> seq<T>)
    requires Consistent(cmp) && Sorter(qsort, cmp) && |s| > THRESHOLD
    ensures AtMost(ChunkSorted(s, cmp, qsort), cmp, Pivot(s, cmp, qsort)) > THRESHOLD / 2
  {
    hide AtMost, Consistent, Sorter, Sorted, Pivot, ChunkSorted;
    var m := ChunkStart(|s|);
    var q := qsort(s[m..m + THRESHOLD]);
    PivotOfChunk(s, cmp, qsort);
    SortedHalf(q, cmp, THRESHOLD / 2);
    CountMiddle(s[..m], q, s[m + THRESHOLD..], cmp, q[THRESHOLD / 2]);
  }

  /** The search can only slip in more than fifty elements, and never for the first twenty-six
      positions: below them the selection is exact at any size. */
  lemma {:induction false} SlipsOnlyBeyond<T(!new)>(s: seq<T>, k: nat, cmp: Comparison<T>, qsort: seq<T> -> seq<T>)
    requires Consistent(cmp) && Sorter(qsort, cmp) && k < |s| && Slips(s, k, cmp, qsort)
    ensures |s| > THRESHOLD && k > THRESHOLD / 2
    decreases |s|
  {
    hide Pivot, ChunkSorted;
    SlipsStep(s, k, cmp, qsort);
    PivotRank(s, cmp, qsort);
    var c, t := ChunkSorted(s, cmp, qsort), Pivot(s, cmp, qsort);
    if k < Less(c, cmp, t) {
      SlipsOnlyBeyond(Part(c, cmp, t, true), k, cmp, qsort);
    }
  }

  lemma AnswerInside<T(!new)>(part: seq<T>, s: seq<T>, cmp: Comparison<T>, t: T, below: bool, j: nat)
    requires multiset(part) == multiset(Part(s, cmp, t, below)) && j < |part|
    ensures part[j] in s
  {
    assert part[j] in multiset(part);
    PartMembers(s, cmp, t, below, part[j]);
  }

  // ---------------------------------------------------------------- the methods

  /** Sorts a stretch of the array in place and points at one element of it. */
  method MedianSmall<T(!new)>(base: array<T>, start: nat, nElements: nat, selected: nat,
                              ghost cmp: Comparison<T>, qsort: seq<T> -> seq<T>)
    returns (i: nat)
    requires Sorter(qsort, cmp) && start + nElements <= base.Length && selected < nElements
    modifies base
    ensures i == start + selected
    ensures base[..] == old(base[..start]) + qsort(old(base[start..start + nElements])) + old(base[start + nElements..])
  {
    var sorted := qsort(base[start..start + nElements]);
    SameSize(sorted, base[start..start + nElements]);
    ghost var before := base[..];
    for j := 0 to nElements
      invariant base[..start] == before[..start] && base[start + nElements..] == before[start + nElements..]
      invariant forall x :: 0 <= x < j ==> base[start + x] == sorted[x]
    {
      base[start + j] := sorted[j];
    }
    assert base[start..start + nElements] == sorted;
    assert base[..] == base[..start] + base[start..start + nElements] + base[start + nElements..];
    i := start + selected;
  }

  /** Copies the elements below (or above) the trial value into a new array. */
  method CopyPart<T(!new)>(base: array<T>, cmp: Comparison<T>, trial: T, below: bool, size: nat)
    returns (newBase: array<T>)
    requires |Part(base[..], cmp, trial, below)| == size
    ensures fresh(newBase) && newBase[..] == Part(base[..], cmp, trial, below)
  {
    newBase := new T[size](_ => trial);
    var next := 0;
    for j := 0 to base.Length
      invariant next == |Part(base[..j], cmp, trial, below)| <= size
      invariant newBase[..next] == Part(base[..j], cmp, trial, below)
    {
      PartGrows(base[..], cmp, trial, below, j + 1);
      assert base[..j + 1][..j] == base[..j];
      assert base[..][..j + 1] == base[..j + 1];
      var comp := cmp(trial, base[j]);
      if if below then comp > 0 else comp < 0 {
        newBase[next] := base[j];
        next := next + 1;
      }
    }
    assert base[..base.Length] == base[..];
  }

  lemma {:induction false} PartGrows<T>(s: seq<T>, cmp: Comparison<T>, t: T, below: bool, n: nat)
    requires n <= |s|
    ensures |Part(s[..n], cmp, t, below)| <= |Part(s, cmp, t, below)|
    decreases |s|
  {
    if n < |s| {
      PartGrows(s[..|s| - 1], cmp, t, below, n);
      assert s[..|s| - 1][..n] == s[..n];
    } else {
      assert s[..n] == s;
    }
  }

  /** Three-way count of the array against the trial value. */
  method ThreeWayCount<T(!new)>(base: array<T>, cmp: Comparison<T>, trial: T) returns (less: nat, equal: nat, more: nat)
    requires Consistent(cmp)
    ensures less == Less(base[..], cmp, trial)
    ensures less + equal == AtMost(base[..], cmp, trial)
    ensures less + equal + more == base.Length
  {
    less, equal, more := 0, 0, 0;
    for i := 0 to base.Length
      invariant less == Less(base[..i], cmp, trial)
      invariant less + equal == AtMost(base[..i], cmp, trial)
      invariant less + equal + more == i
    {
      assert base[..i + 1][..i] == base[..i];
      Flip(cmp, trial, base[i]);
      var comp := cmp(trial, base[i]);
      if comp == 0 {
        equal := equal + 1;
      }
      if comp < 0 {
        more := more + 1;
      }
      if comp > 0 {
        less := less + 1;
      }
    }
    assert base[..base.Length] == base[..];
  }

  /** Points back into the array at an element equal to the answer found in a copy. */
  method FindEqual<T(!new)>(base: array<T>, cmp: Comparison<T>, answer: T) returns (i: nat)
    requires Consistent(cmp) && answer in base[..]
    ensures i < base.Length && cmp(answer, base[i]) == 0
  {
    ghost var k :| 0 <= k < base.Length && base[k] == answer;
    Flip(cmp, answer, answer);
    i := 0;
    while cmp(answer, base[i]) != 0
      invariant i <= k
      decreases k - i
    {
      i := i + 1;
    }
  }

  /** The middle element of the middle chunk, which is sorted for it. */
  method TrialValue<T(!new)>(base: array<T>, ghost cmp: Comparison<T>, qsort: seq<T> -> seq<T>) returns (at: nat)
    requires Sorter(qsort, cmp) && base.Length > THRESHOLD
    modifies base
    ensures base[..] == ChunkSorted(old(base[..]), cmp, qsort)
    ensures at == ChunkStart(base.Length) + THRESHOLD / 2 && base[at] == Pivot(old(base[..]), cmp, qsort)
  {
    var sample := (base.Length - THRESHOLD) / 2;
    ghost var s := base[..];
    assert base[..sample] == s[..sample] && base[sample + THRESHOLD..] == s[sample + THRESHOLD..];
    assert base[sample..sample + THRESHOLD] == s[sample..sample + THRESHOLD];
    at := MedianSmall(base, sample, THRESHOLD, THRESHOLD / 2, cmp, qsort);
    assert base[at] == base[..][at];
  }

  /** The index of an element at sorted position k: exactly there unless the search slips. */
  method MedianSelect<T(!new)>(base: array<T>, selected: nat, cmp: Comparison<T>, qsort: seq<T> -> seq<T>)
    returns (i: nat)
    requires Consistent(cmp) && Sorter(qsort, cmp) && selected < base.Length
    modifies base
    ensures i < base.Length
    ensures multiset(base[..]) == multiset(old(base[..]))
    ensures Selected(base[..], cmp, base[i], selected, Slips(old(base[..]), selected, cmp, qsort))
    decreases base.Length, 1
  {
    hide Consistent, Sorter, Count, Slips, Selected;
    if base.Length <= THRESHOLD {
      ghost var before := base[..];
      assert before[..0] == [] && before[base.Length..] == [] && before[0..base.Length] == before;
      i := MedianSmall(base, 0, base.Length, selected, cmp, qsort);
      assert base[..] == [] + qsort(before) + [] == qsort(before);
      SmallSelected(before, selected, cmp, qsort);
    } else {
      i := SelectBySampling(base, selected, cmp, qsort);
    }
  }

  method SelectBySampling<T(!new)>(base: array<T>, selected: nat, cmp: Comparison<T>, qsort: seq<T> -> seq<T>)
    returns (i: nat)
    requires Consistent(cmp) && Sorter(qsort, cmp) && selected < base.Length && base.Length > THRESHOLD
    modifies base
    ensures i < base.Length
    ensures multiset(base[..]) == multiset(old(base[..]))
    ensures Selected(base[..], cmp, base[i], selected, Slips(old(base[..]), selected, cmp, qsort))
    decreases base.Length, 0
  {
    hide Consistent, Sorter, Count, Part, Slips, Selected, Pivot, ChunkSorted;
    ghost var before := base[..];
    var at := TrialValue(base, cmp, qsort);
    var trial := base[at];
    var less, equal, more := ThreeWayCount(base, cmp, trial);
    SlipsStep(before, selected, cmp, qsort);
    if less <= selected <= less + equal {
      return at;
    }
    if less > selected {
      i := SearchPart(base, cmp, trial, true, less, selected, qsort);
    } else {
      i := SearchPart(base, cmp, trial, false, more, selected - less - equal, qsort);
    }
  }

  /** Searches a copy of one part and points back into the array. */
  method SearchPart<T(!new)>(base: array<T>, cmp: Comparison<T>, trial: T, below: bool, size: nat, rank: nat,
                             qsort: seq<T> -> seq<T>)
    returns (i: nat)
    requires Consistent(cmp) && Sorter(qsort, cmp) && rank < size < base.Length
    requires |Part(base[..], cmp, trial, below)| == size
    ensures i < base.Length
    ensures Selected(base[..], cmp, base[i], if below then rank else rank + AtMost(base[..], cmp, trial),
                     Slips(Part(base[..], cmp, trial, below), rank, cmp, qsort))
    decreases base.Length - 1, 2
  {
    hide Consistent, Sorter, Count, Part, Slips, Selected;
    ghost var part := Part(base[..], cmp, trial, below);
    ghost var slipped := Slips(part, rank, cmp, qsort);
    var newBase := CopyPart(base, cmp, trial, below, size);
    var j := MedianSelect(newBase, rank, cmp, qsort);
    var answer := newBase[j];
    AnswerInside(newBase[..], base[..], cmp, trial, below, j);
    SelectedPermuted(newBase[..], part, cmp, answer, rank, slipped);
    SelectedFromPart(base[..], cmp, trial, below, answer, rank, slipped);
    i := FindEqual(base, cmp, answer);
    SelectedCongruent(base[..], cmp, answer, base[i],
                      if below then rank else rank + AtMost(base[..], cmp, trial), slipped);
  }

  method Median<T(!new)>(base: array<T>, cmp: Comparison<T>, qsort: seq<T> -> seq<T>) returns (i: nat)
    requires Consistent(cmp) && Sorter(qsort, cmp) && base.Length > 0
    modifies base
    ensures i < base.Length && multiset(base[..]) == multiset(old(base[..]))
    ensures Selected(base[..], cmp, base[i], base.Length / 2, Slips(old(base[..]), base.Length / 2, cmp, qsort))
  {
    i := MedianSelect(base, base.Length / 2, cmp, qsort);
  }

  method HistogramPoint<T(!new)>(base: array<T>, lowerLimit: nat, cmp: Comparison<T>, qsort: seq<T> -> seq<T>)
    returns (i: nat)
    requires Consistent(cmp) && Sorter(qsort, cmp) && lowerLimit < base.Length
    modifies base
    ensures i < base.Length && multiset(base[..]) == multiset(old(base[..]))
    ensures Selected(base[..], cmp, base[i], lowerLimit, Slips(old(base[..]), lowerLimit, cmp, qsort))
  {
    i := MedianSelect(base, lowerLimit, cmp, qsort);
  }

  // ---------------------------------------------------------------- a median that slips

  function CompareInts(x: int, y: int): int { if x < y then -1 else if x > y then 1 else 0 }

  /** The numbers from lo up. */
  function Range(lo: int, n: nat): (s: seq<int>)
    ensures |s| == n && forall i :: 0 <= i < n ==> s[i] == lo + i
  {
    seq(n, i => lo + i)
  }

  lemma {:induction false} RangeCounts(n: nat, r: int, strict: bool)
    requires 0 <= r < n
    ensures Count(Range(0, n), CompareInts, r, strict) == if strict then r else r + 1
    decreases n
  {
    var s := Range(0, n);
    assert s[..n - 1] == Range(0, n - 1);
    if r < n - 1 {
      RangeCounts(n - 1, r, strict);
    } else {
      RangeAll(n - 1, r, strict);
    }
  }

  lemma {:induction false} RangeAll(n: nat, r: int, strict: bool)
    requires n <= r
    ensures Count(Range(0, n), CompareInts, r, strict) == n
    decreases n
  {
    if n > 0 {
      assert Range(0, n)[..n - 1] == Range(0, n - 1);
      RangeAll(n - 1, r, strict);
    }
  }

  const Slippery: seq<int> := [100] + Range(0, 50) + [101]

  lemma SlipperyChunk(qsort: seq<int> -> seq<int>)
    requires Sorter(qsort, CompareInts)
    ensures Pivot(Slippery, CompareInts, qsort) == 25
  {
    var chunk := Range(0, 50);
    assert Slippery[1..51] == chunk;
    SameSize(qsort(chunk), chunk);
    var r := qsort(chunk)[25];
    SortedRank(qsort(chunk), CompareInts, 25);
    CountPermuted(qsort(chunk), chunk, CompareInts, r, true);
    CountPermuted(qsort(chunk), chunk, CompareInts, r, false);
    assert r in multiset(qsort(chunk));
    assert r in multiset(chunk);
    RangeCounts(50, r, true);
    RangeCounts(50, r, false);
  }

  /** The median of 100, 0, 1, ..., 49, 101 comes out as 25, whatever qsort does with ties;
      sorted position 26 holds 26. */
  lemma MedianCanSlip(qsort: seq<int> -> seq<int>)
    requires Sorter(qsort, CompareInts)
    ensures Consistent(CompareInts) && |Slippery| == 52
    ensures Slips(Slippery, 26, CompareInts, qsort)
    ensures Selected(Slippery, CompareInts, 25, 26, true) && Selected(Slippery, CompareInts, 26, 26, false)
  {
    hide Count, ChunkSorted, Slips, Pivot, Consistent;
    IntsConsistent();
    var c := ChunkSorted(Slippery, CompareInts, qsort);
    SlipperyChunk(qsort);
    SlipperyCounts(25);
    SlipperyCounts(26);
    SlipsStep(Slippery, 26, CompareInts, qsort);
    CountPermuted(c, Slippery, CompareInts, 25, true);
    CountPermuted(c, Slippery, CompareInts, 25, false);
    assert Slippery[26] == 25 && Slippery[27] == 26;
  }

  lemma IntsConsistent()
    ensures Consistent(CompareInts)
  {
  }

  lemma SlipperyCounts(r: int)
    requires 0 <= r < 50
    ensures Less(Slippery, CompareInts, r) == r && AtMost(Slippery, CompareInts, r) == r + 1
  {
    RangeCounts(50, r, true);
    RangeCounts(50, r, false);
    CountSplit([100], Range(0, 50), CompareInts, r, true);
    CountSplit([100], Range(0, 50), CompareInts, r, false);
    CountSplit([100] + Range(0, 50), [101], CompareInts, r, true);
    CountSplit([100] + Range(0, 50), [101], CompareInts, r, false);
  }
}
