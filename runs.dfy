/**
 * The merge of hw3/112550139.cpp as a function: two runs a and b are read
 * from positions i and j; while both have elements the smaller head is
 * emitted, the head of a on a tie, and then the remainder of a and of b
 * are copied. MergeSource records, for every emitted element, where it came
 * from (i for a[i], |a| + j for b[j]), which is what stability is about.
 */
module Runs {
  predicate Sorted(s: seq<int>)
  {
    forall p, q :: 0 <= p < q < |s| ==> s[p] <= s[q]
  }

  /** The elements merge pushes into temp from positions i of a and j of b on. */
  function MergeFrom(a: seq<int>, b: seq<int>, i: nat, j: nat): (m: seq<int>)
    requires i <= |a| && j <= |b|
    decreases |a| - i + |b| - j
  {
    if i < |a| && (j == |b| || a[i] <= b[j]) then [a[i]] + MergeFrom(a, b, i + 1, j)
    else if j < |b| then [b[j]] + MergeFrom(a, b, i, j + 1)
    else []
  }

  /**
   * The loop invariant of merge: what has been pushed so far, followed by
   * the merge of what is left from positions i and j, is the whole merge.
   */
  predicate Merging(a: seq<int>, b: seq<int>, i: nat, j: nat, emitted: seq<int>)
    requires i <= |a| && j <= |b|
  {
    emitted + MergeFrom(a, b, i, j) == MergeFrom(a, b, 0, 0)
  }

  /** Pushing x = a[i] keeps the invariant when a[i] is the head merge takes. */
  lemma TakeLeft(a: seq<int>, b: seq<int>, i: nat, j: nat, emitted: seq<int>, x: int)
    requires i < |a| && j <= |b| && (j == |b| || a[i] <= b[j]) && x == a[i]
    requires Merging(a, b, i, j, emitted)
    ensures Merging(a, b, i + 1, j, emitted + [x])
  {
    assert emitted + MergeFrom(a, b, i, j) == (emitted + [a[i]]) + MergeFrom(a, b, i + 1, j);
  }

  /** Pushing x = b[j] keeps the invariant when b[j] is the head merge takes. */
  lemma TakeRight(a: seq<int>, b: seq<int>, i: nat, j: nat, emitted: seq<int>, x: int)
    requires i <= |a| && j < |b| && (i == |a| || b[j] < a[i]) && x == b[j]
    requires Merging(a, b, i, j, emitted)
    ensures Merging(a, b, i, j + 1, emitted + [x])
  {
    assert emitted + MergeFrom(a, b, i, j) == (emitted + [b[j]]) + MergeFrom(a, b, i, j + 1);
  }

  /** The merge emits exactly the elements left in the two runs. */
  lemma {:induction false} MergeFromLength(a: seq<int>, b: seq<int>, i: nat, j: nat)
    requires i <= |a| && j <= |b|
    ensures |MergeFrom(a, b, i, j)| == |a| - i + |b| - j
    decreases |a| - i + |b| - j
  {
    if i < |a| && (j == |b| || a[i] <= b[j]) {
      MergeFromLength(a, b, i + 1, j);
    } else if j < |b| {
      MergeFromLength(a, b, i, j + 1);
    }
  }

  /** The merge of two whole runs. */
  function MergeRuns(a: seq<int>, b: seq<int>): seq<int>
  {
    MergeFrom(a, b, 0, 0)
  }

  /** Where each element of MergeFrom(a, b, i, j) comes from. */
  function MergeSource(a: seq<int>, b: seq<int>, i: nat, j: nat): (src: seq<nat>)
    requires i <= |a| && j <= |b|
    ensures |src| == |MergeFrom(a, b, i, j)|
    decreases |a| - i + |b| - j
  {
    if i < |a| && (j == |b| || a[i] <= b[j]) then [i] + MergeSource(a, b, i + 1, j)
    else if j < |b| then [|a| + j] + MergeSource(a, b, i, j + 1)
    else []
  }

  /** The merge keeps every element, each exactly as often as in the two runs. */
  lemma {:induction false} MergeFromPermutes(a: seq<int>, b: seq<int>, i: nat, j: nat)
    requires i <= |a| && j <= |b|
    ensures multiset(MergeFrom(a, b, i, j)) == multiset(a[i..]) + multiset(b[j..])
    decreases |a| - i + |b| - j
  {
    if i < |a| && (j == |b| || a[i] <= b[j]) {
      MergeFromPermutes(a, b, i + 1, j);
      assert a[i..] == [a[i]] + a[i + 1..];
      ConsPermutes(a[i], MergeFrom(a, b, i + 1, j), a[i + 1..], multiset(b[j..]));
    } else if j < |b| {
      MergeFromPermutes(a, b, i, j + 1);
      assert b[j..] == [b[j]] + b[j + 1..];
      ConsPermutes(b[j], MergeFrom(a, b, i, j + 1), b[j + 1..], multiset(a[i..]));
    }
  }

  /** Putting the same element in front of two sequences keeps their multisets related. */
  lemma ConsPermutes(x: int, m: seq<int>, s: seq<int>, u: multiset<int>)
    requires multiset(m) == multiset(s) + u
    ensures multiset([x] + m) == multiset([x] + s) + u
  {
    assert multiset([x] + m) == multiset{x} + multiset(m);
    assert multiset([x] + s) == multiset{x} + multiset(s);
  }

  /**
   * Element k of the merge is the run element its source names, and that
   * source lies at or after the read positions i and j.
   */
  lemma {:induction false} MergeSourceAt(a: seq<int>, b: seq<int>, i: nat, j: nat, k: nat)
    requires i <= |a| && j <= |b| && k < |MergeFrom(a, b, i, j)|
    ensures var x, s := MergeFrom(a, b, i, j)[k], MergeSource(a, b, i, j)[k];
      (s < |a| ==> i <= s && x == a[s]) &&
      (s >= |a| ==> |a| + j <= s < |a| + |b| && x == b[s - |a|])
    decreases k
  {
    var takeA := i < |a| && (j == |b| || a[i] <= b[j]);
    var (i', j') := if takeA then (i + 1, j) else (i, j + 1);
    var m, src := MergeFrom(a, b, i, j), MergeSource(a, b, i, j);
    if takeA {
      assert m == [a[i]] + MergeFrom(a, b, i', j') && src == [i] + MergeSource(a, b, i', j');
    } else {
      assert m == [b[j]] + MergeFrom(a, b, i', j') && src == [|a| + j] + MergeSource(a, b, i', j');
    }
    if k > 0 {
      MergeSourceAt(a, b, i', j', k - 1);
      assert m[k] == MergeFrom(a, b, i', j')[k - 1] && src[k] == MergeSource(a, b, i', j')[k - 1];
    }
  }

  /** Merging from positions of two sorted runs gives a sorted sequence. */
  lemma {:induction false} MergeFromOrdered(a: seq<int>, b: seq<int>, i: nat, j: nat, p: nat, q: nat)
    requires i <= |a| && j <= |b| && Sorted(a) && Sorted(b)
    requires p < q < |MergeFrom(a, b, i, j)|
    ensures MergeFrom(a, b, i, j)[p] <= MergeFrom(a, b, i, j)[q]
    decreases p
  {
    var takeA := i < |a| && (j == |b| || a[i] <= b[j]);
    var (i', j') := if takeA then (i + 1, j) else (i, j + 1);
    if p > 0 {
      MergeFromOrdered(a, b, i', j', p - 1, q - 1);
    } else {
      MergeSourceAt(a, b, i', j', q - 1);
      var s := MergeSource(a, b, i', j')[q - 1];
      if s < |a| {
        assert i <= s && (takeA ==> i < s);
      }
    }
  }

  /** Merging two sorted runs gives a sorted sequence. */
  lemma MergeFromSorted(a: seq<int>, b: seq<int>, i: nat, j: nat)
    requires i <= |a| && j <= |b| && Sorted(a) && Sorted(b)
    ensures Sorted(MergeFrom(a, b, i, j))
  {
    var m := MergeFrom(a, b, i, j);
    forall p, q | 0 <= p < q < |m| ensures m[p] <= m[q] {
      MergeFromOrdered(a, b, i, j, p, q);
    }
  }

  /**
   * The tie rule for one pair of output positions p < q: if both come from
   * the same run they keep that run's order, and an element of the right
   * run precedes an element of the left run only when it is strictly smaller.
   */
  lemma {:induction false} MergeFromStableAt(a: seq<int>, b: seq<int>, i: nat, j: nat, p: nat, q: nat)
    requires i <= |a| && j <= |b| && Sorted(a) && Sorted(b)
    requires p < q < |MergeFrom(a, b, i, j)|
    ensures var m, src := MergeFrom(a, b, i, j), MergeSource(a, b, i, j);
      ((src[p] < |a|) == (src[q] < |a|) ==> src[p] < src[q]) &&
      (src[q] < |a| <= src[p] ==> m[p] < m[q])
    decreases p
  {
    var takeA := i < |a| && (j == |b| || a[i] <= b[j]);
    var (i', j') := if takeA then (i + 1, j) else (i, j + 1);
    var m, src := MergeFrom(a, b, i, j), MergeSource(a, b, i, j);
    var m', src' := MergeFrom(a, b, i', j'), MergeSource(a, b, i', j');
    var head, from := if takeA then a[i] else b[j], if takeA then i else |a| + j;
    assert m == [head] + m' && src == [from] + src';
    assert m[q] == m'[q - 1] && src[q] == src'[q - 1];
    if p > 0 {
      MergeFromStableAt(a, b, i', j', p - 1, q - 1);
      assert m[p] == m'[p - 1] && src[p] == src'[p - 1];
    } else {
      MergeSourceAt(a, b, i', j', q - 1);
      var x, s := m'[q - 1], src'[q - 1];
      if takeA {
        assert s < |a| ==> i < s;
      } else {
        assert s >= |a| ==> |a| + j < s;
        if s < |a| {
          assert x == a[s] && i <= s;
          assert b[j] < a[i] <= x;
        }
      }
    }
  }

  /**
   * merge is stable: elements of one run keep their order, and an element
   * of the right run is placed before an element of the left run only when
   * it is strictly smaller, so equal elements are taken from the left first.
   */
  lemma MergeRunsStable(a: seq<int>, b: seq<int>)
    requires Sorted(a) && Sorted(b)
    ensures var m, src := MergeRuns(a, b), MergeSource(a, b, 0, 0);
      |src| == |m| &&
      (forall k :: 0 <= k < |src| ==>
        if src[k] < |a| then m[k] == a[src[k]] else src[k] - |a| < |b| && m[k] == b[src[k] - |a|]) &&
      (forall p, q :: 0 <= p < q < |src| ==>
        ((src[p] < |a|) == (src[q] < |a|) ==> src[p] < src[q]) &&
        (src[q] < |a| <= src[p] ==> m[p] < m[q]))
  {
    var m, src := MergeRuns(a, b), MergeSource(a, b, 0, 0);
    forall k | 0 <= k < |src|
      ensures if src[k] < |a| then m[k] == a[src[k]] else src[k] - |a| < |b| && m[k] == b[src[k] - |a|]
    {
      MergeSourceAt(a, b, 0, 0, k);
    }
    forall p, q | 0 <= p < q < |src|
      ensures ((src[p] < |a|) == (src[q] < |a|) ==> src[p] < src[q]) &&
              (src[q] < |a| <= src[p] ==> m[p] < m[q])
    {
      MergeFromStableAt(a, b, 0, 0, p, q);
    }
  }

  /** The merge of two sorted runs is a sorted permutation of their concatenation. */
  lemma MergeRunsCorrect(a: seq<int>, b: seq<int>)
    requires Sorted(a) && Sorted(b)
    ensures Sorted(MergeRuns(a, b))
    ensures multiset(MergeRuns(a, b)) == multiset(a + b)
    ensures |MergeRuns(a, b)| == |a| + |b|
  {
    MergeFromSorted(a, b, 0, 0);
    MergeFromPermutes(a, b, 0, 0);
    MergeFromLength(a, b, 0, 0);
    assert a[0..] == a && b[0..] == b;
  }
}
