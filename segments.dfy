/**
 * The work decomposition of hw3/112550139.cpp: n input elements are cut into
 * eight consecutive segments, each sorted by a bubble job (jobs 0..7), and
 * the sorted segments are merged pairwise up a binary tree of merge jobs
 * (jobs 8..14, job 14 being the root).
 */
module Segments {
  const SEGMENTS: nat := 8
  const JOBS: nat := 15
  /** The parent entry of the root job: no parent. */
  const NO_PARENT: int := -1

  /** segLen[i]: n/8, plus one for the first n%8 segments. */
  function SegLen(n: nat, i: nat): nat
    requires i < SEGMENTS
  {
    n / SEGMENTS + (if i < n % SEGMENTS then 1 else 0)
  }

  /** segStartIdx[i]: the running sum of the lengths of the segments before i. */
  function SegStart(n: nat, i: nat): nat
    requires i <= SEGMENTS
  {
    if i == 0 then 0 else SegStart(n, i - 1) + SegLen(n, i - 1)
  }

  /** Closed form of the segment starts. */
  lemma {:induction false} SegStartClosed(n: nat, i: nat)
    requires i <= SEGMENTS
    ensures SegStart(n, i) == i * (n / SEGMENTS) + (if i < n % SEGMENTS then i else n % SEGMENTS)
  {
    if i > 0 {
      SegStartClosed(n, i - 1);
      assert i * (n / SEGMENTS) == (i - 1) * (n / SEGMENTS) + n / SEGMENTS;
    }
  }

  /**
   * The partition covers the input exactly: the first segment starts at 0,
   * the last one ends at n, and the starts never decrease.
   */
  lemma SegStartBounds(n: nat, i: nat, j: nat)
    requires i <= j <= SEGMENTS
    ensures SegStart(n, 0) == 0 && SegStart(n, SEGMENTS) == n
    ensures SegStart(n, i) <= SegStart(n, j) <= n
  {
    var q, r := n / SEGMENTS, n % SEGMENTS;
    assert n == SEGMENTS * q + r;
    SegStartClosed(n, i);
    SegStartClosed(n, j);
    SegStartClosed(n, SEGMENTS);
    MulMonotone(i, j, q);
    MulMonotone(j, SEGMENTS, q);
  }

  lemma MulMonotone(a: nat, b: nat, q: nat)
    requires a <= b
    ensures a * q <= b * q
  {
    assert b * q == a * q + (b - a) * q;
  }

  /**
   * The segments are balanced: lengths never grow from one segment to a
   * later one and differ by at most one, so exactly the first n % 8 are
   * one longer than n / 8.
   */
  lemma SegLenBalanced(n: nat, i: nat, j: nat)
    requires i < j < SEGMENTS
    ensures SegLen(n, j) <= SegLen(n, i) <= SegLen(n, j) + 1
    ensures SegLen(n, i) == n / SEGMENTS + 1 <==> i < n % SEGMENTS
    ensures forall k :: 0 <= k < SEGMENTS ==> (SegLen(n, k) == n / SEGMENTS + 1 <==> k < n % SEGMENTS)
  {
  }

  /** parentJob: the merge job that consumes each job; the root has none. */
  const PARENT: seq<int> := [8, 8, 9, 9, 10, 10, 11, 11, 12, 12, 13, 13, 14, 14, NO_PARENT]
  /** firstSegIdx: the first segment in the range of each job. */
  const FIRST_SEG: seq<nat> := [0, 1, 2, 3, 4, 5, 6, 7, 0, 2, 4, 6, 0, 4, 0]
  /** lastSegIdx: the last segment in the range of each job. */
  const LAST_SEG: seq<nat> := [0, 1, 2, 3, 4, 5, 6, 7, 1, 3, 5, 7, 3, 7, 7]

  function Parent(j: nat): int
    requires j < JOBS
  {
    PARENT[j]
  }

  function FirstSeg(j: nat): nat
    requires j < JOBS
  {
    FIRST_SEG[j]
  }

  function LastSeg(j: nat): nat
    requires j < JOBS
  {
    LAST_SEG[j]
  }

  /** The segment at which mergeSort splits the range of job j. */
  function MidSeg(j: nat): nat
    requires j < JOBS
  {
    (FirstSeg(j) + LastSeg(j) + 1) / 2
  }

  /** The job whose completion together with j's enables their parent. */
  function Buddy(j: nat): nat
  {
    if j % 2 == 0 then j + 1 else j - 1
  }

  /** The job ranges: a bubble job owns its one segment; job 14 owns all eight. */
  lemma JobRanges(j: nat)
    requires j < JOBS
    ensures FirstSeg(j) <= LastSeg(j) < SEGMENTS
    ensures j < SEGMENTS ==> FirstSeg(j) == j == LastSeg(j)
    ensures FirstSeg(JOBS - 1) == 0 && LastSeg(JOBS - 1) == SEGMENTS - 1
  {
  }

  /**
   * Buddies are paired for a common parent: every non-root job and its
   * buddy are distinct non-root jobs with the same parent.
   */
  lemma BuddyParent(j: nat)
    requires j < JOBS - 1
    ensures Buddy(j) < JOBS - 1 && Buddy(j) != j && Buddy(Buddy(j)) == j
    ensures Parent(Buddy(j)) == Parent(j)
    ensures SEGMENTS <= Parent(j) < JOBS && Parent(j) > j
  {
  }

  /**
   * The halves of mergeSort are the ranges of the job's two children: the
   * left child 2(j-8) runs from the job's first segment to just before the
   * split segment, the right child from the split segment to the job's last
   * segment, and no other job has j as its parent.
   */
  lemma ChildrenSplit(j: nat)
    requires SEGMENTS <= j < JOBS
    ensures var c := 2 * (j - SEGMENTS);
      c + 1 < j && c % 2 == 0 && Parent(c) == j && Parent(c + 1) == j &&
      FirstSeg(c) == FirstSeg(j) && LastSeg(c) + 1 == MidSeg(j) &&
      FirstSeg(c + 1) == MidSeg(j) && LastSeg(c + 1) == LastSeg(j)
    ensures forall c :: 0 <= c < JOBS && Parent(c) == j ==> c / 2 == j - SEGMENTS
  {
  }

  /** The index range [JobStart, JobEnd) of arr that job j works on. */
  function JobStart(n: nat, j: nat): nat
    requires j < JOBS
  {
    SegStart(n, FirstSeg(j))
  }

  function JobEnd(n: nat, j: nat): nat
    requires j < JOBS
  {
    SegStart(n, LastSeg(j) + 1)
  }

  /** Every job's range lies inside arr, and the root's range is all of it. */
  lemma JobBounds(n: nat, j: nat)
    requires j < JOBS
    ensures JobStart(n, j) <= JobEnd(n, j) <= n
    ensures JobStart(n, JOBS - 1) == 0 && JobEnd(n, JOBS - 1) == n
  {
    JobRanges(j);
    SegStartBounds(n, FirstSeg(j), LastSeg(j) + 1);
  }

  /**
   * A job that finished before job j and whose parent comes after j owns
   * segments wholly to one side of j's.
   */
  lemma SegmentsDisjoint(c: nat, j: nat)
    requires c < j < JOBS && Parent(c) > j
    ensures LastSeg(c) < FirstSeg(j) || LastSeg(j) < FirstSeg(c)
  {
    if j < SEGMENTS {
      assert LastSeg(c) == c && FirstSeg(j) == j;
    } else if j < 12 {
      assert FirstSeg(j) == 2 * (j - SEGMENTS) && LastSeg(j) == FirstSeg(j) + 1;
    } else {
      assert FirstSeg(j) == 4 * (j - 12) && LastSeg(j) == FirstSeg(j) + 3;
    }
  }

  /** So the index ranges of such jobs do not overlap either. */
  lemma JobsDisjoint(n: nat, c: nat, j: nat)
    requires c < j < JOBS && Parent(c) > j
    ensures JobEnd(n, c) <= JobStart(n, j) || JobEnd(n, j) <= JobStart(n, c)
  {
    JobRanges(c);
    JobRanges(j);
    SegmentsDisjoint(c, j);
    if LastSeg(c) < FirstSeg(j) {
      SegStartBounds(n, LastSeg(c) + 1, FirstSeg(j));
    } else {
      SegStartBounds(n, LastSeg(j) + 1, FirstSeg(c));
    }
  }
}
