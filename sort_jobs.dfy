/**
 * The sequential pieces of hw3/112550139.cpp: the globals arr, segLen,
 * segStartIdx, parentJob, firstSegIdx and lastSegIdx as the fields of one
 * Benchmark, the table set-up of main as its constructor, and the jobs
 * bubble, merge and mergeSort as methods on arr.
 */
module SortJobs {
  import opened Segments
  import opened Runs

  class Benchmark {
    const arr: array<int>
    const segLen: array<nat>
    const segStartIdx: array<nat>
    const parentJob: array<int>
    const firstSegIdx: array<nat>
    const lastSegIdx: array<nat>

    /** The tables hold the partition of arr and the job tree. */
    ghost predicate Valid()
      reads segLen, segStartIdx, parentJob, firstSegIdx, lastSegIdx
    {
      arr != parentJob &&
      segLen.Length == SEGMENTS && segStartIdx.Length == SEGMENTS + 1 &&
      (forall i :: 0 <= i < SEGMENTS ==> segLen[i] == SegLen(arr.Length, i)) &&
      (forall i :: 0 <= i <= SEGMENTS ==> segStartIdx[i] == SegStart(arr.Length, i)) &&
      parentJob[..] == PARENT && firstSegIdx[..] == FIRST_SEG && lastSegIdx[..] == LAST_SEG
    }

    /**
     * main after reading the input: arr holds the input and the partition
     * and job tables are filled in.
     */
    constructor (input: seq<int>)
      ensures Valid() && arr[..] == input
    {
      arr := new int[|input|](k requires 0 <= k < |input| => input[k]);
      var n := |input|;
      var lens := FillSegLen(n);
      var starts := FillSegStart(n, lens);
      var parents := FillParents();
      var firsts := FillFirstSegs();
      var lasts := FillLastSegs();
      segLen, segStartIdx := lens, starts;
      parentJob, firstSegIdx, lastSegIdx := parents, firsts, lasts;
    }

    /** Exchange arr[i] and arr[j]. */
    method Swap(i: nat, j: nat)
      requires i < arr.Length && j < arr.Length
      modifies arr
      ensures arr[..] == old(arr[..])[i := old(arr[j])][j := old(arr[i])]
      ensures multiset(arr[..]) == multiset(old(arr[..]))
    {
      arr[i], arr[j] := arr[j], arr[i];
    }

    /**
     * bubble(segIndex): the exchange sort of one segment. The segment ends
     * up sorted and holding the same elements; the rest of arr is untouched.
     */
    method Bubble(segIndex: nat)
      requires Valid() && segIndex < SEGMENTS
      modifies arr
      ensures Valid()
      ensures var lo, hi := SegStart(arr.Length, segIndex), SegStart(arr.Length, segIndex + 1);
        lo <= hi <= arr.Length &&
        Sorted(arr[lo..hi]) && multiset(arr[lo..hi]) == multiset(old(arr[lo..hi])) &&
        arr[..lo] == old(arr[..lo]) && arr[hi..] == old(arr[hi..])
      ensures multiset(arr[..]) == multiset(old(arr[..]))
    {
      var start, end := segStartIdx[segIndex], segStartIdx[segIndex + 1];
      SegStartBounds(arr.Length, segIndex, segIndex + 1);
      ExchangeSort(start, end);
    }

    /** The outer loop of bubble: position i receives the least of arr[i..end). */
    method ExchangeSort(start: nat, end: nat)
      requires start <= end <= arr.Length
      modifies arr
      ensures Sorted(arr[start..end]) && multiset(arr[start..end]) == multiset(old(arr[start..end]))
      ensures arr[..start] == old(arr[..start]) && arr[end..] == old(arr[end..])
      ensures multiset(arr[..]) == multiset(old(arr[..]))
    {
      var i := start;
      while i + 1 < end
        invariant start <= i <= end && (start < end ==> i < end)
        invariant forall p, q :: start <= p < q < i ==> arr[p] <= arr[q]
        invariant forall p, q :: start <= p < i <= q < end ==> arr[p] <= arr[q]
        invariant multiset(arr[..]) == multiset(old(arr[..]))
        invariant arr[..start] == old(arr[..start]) && arr[end..] == old(arr[end..])
      {
        SettleMin(start, i, end);
        i := i + 1;
      }
      SliceMultiset(arr[..], old(arr[..]), start, end);
    }

    /** The inner loop of bubble: swap every smaller later element into position i. */
    method SettleMin(start: nat, i: nat, end: nat)
      requires start <= i < end <= arr.Length
      requires forall p, q :: start <= p < i <= q < end ==> arr[p] <= arr[q]
      modifies arr
      ensures forall k :: i < k < end ==> arr[i] <= arr[k]
      ensures forall p, q :: start <= p < i <= q < end ==> arr[p] <= arr[q]
      ensures multiset(arr[..]) == multiset(old(arr[..]))
      ensures arr[..i] == old(arr[..i]) && arr[end..] == old(arr[end..])
    {
      var j := i + 1;
      while j < end
        invariant i < j <= end
        invariant forall k :: i < k < j ==> arr[i] <= arr[k]
        invariant forall p, q :: start <= p < i <= q < end ==> arr[p] <= arr[q]
        invariant multiset(arr[..]) == multiset(old(arr[..]))
        invariant arr[..i] == old(arr[..i]) && arr[end..] == old(arr[end..])
      {
        if arr[i] > arr[j] {
          Swap(i, j);
        }
        j := j + 1;
      }
    }

    /**
     * merge(start, mid, end): the two runs arr[start..mid) and arr[mid..end)
     * are merged through temp and copied back; the rest of arr is untouched.
     */
    method Merge(start: nat, mid: nat, end: nat)
      requires start <= mid <= end <= arr.Length
      modifies arr
      ensures arr[start..end] == MergeRuns(old(arr[start..mid]), old(arr[mid..end]))
      ensures arr[..start] == old(arr[..start]) && arr[end..] == old(arr[end..])
      ensures multiset(arr[start..end]) == multiset(old(arr[start..end]))
      ensures multiset(arr[..]) == multiset(old(arr[..]))
      ensures old(Sorted(arr[start..mid]) && Sorted(arr[mid..end])) ==> Sorted(arr[start..end])
    {
      ghost var a, b := arr[start..mid], arr[mid..end];
      assert arr[start..end] == a + b;
      var temp := MergeInto(start, mid, end);
      MergeFromLength(a, b, 0, 0);
      MergeFromPermutes(a, b, 0, 0);
      assert a[0..] == a && b[0..] == b;
      CopyBack(start, end, temp);
      OutsideMultiset(arr[..], old(arr[..]), start, end);
      if Sorted(a) && Sorted(b) {
        MergeRunsCorrect(a, b);
      }
    }

    /** The three loops of merge: temp receives the merge of the two runs. */
    method MergeInto(start: nat, mid: nat, end: nat) returns (temp: seq<int>)
      requires start <= mid <= end <= arr.Length
      ensures temp == MergeRuns(arr[start..mid], arr[mid..end])
    {
      var i, j, heads := MergeHeads(start, mid, end);
      temp := MergeTails(start, mid, end, i, j, heads);
    }

    /**
     * The last two loops of merge: once one run is used up, the rest of
     * the other is pushed in order.
     */
    method MergeTails(start: nat, mid: nat, end: nat, i0: nat, j0: nat, heads: seq<int>) returns (temp: seq<int>)
      requires start <= i0 <= mid <= j0 <= end <= arr.Length && (i0 == mid || j0 == end)
      requires Merging(arr[start..mid], arr[mid..end], i0 - start, j0 - mid, heads)
      ensures temp == MergeRuns(arr[start..mid], arr[mid..end])
    {
      ghost var a, b := arr[start..mid], arr[mid..end];
      var i, j := i0, j0;
      temp := heads;
      while i < mid
        invariant start <= i <= mid && (i < mid ==> j == end) && mid <= j <= end
        invariant Merging(a, b, i - start, j - mid, temp)
      {
        assert arr[i] == a[i - start];
        TakeLeft(a, b, i - start, j - mid, temp, arr[i]);
        temp := temp + [arr[i]];
        i := i + 1;
      }
      while j < end
        invariant i == mid <= j <= end
        invariant Merging(a, b, i - start, j - mid, temp)
      {
        assert arr[j] == b[j - mid];
        TakeRight(a, b, i - start, j - mid, temp, arr[j]);
        temp := temp + [arr[j]];
        j := j + 1;
      }
      assert MergeFrom(a, b, |a|, |b|) == [];
      assert temp + [] == temp;
    }

    /**
     * The first loop of merge: while both runs have elements the smaller
     * head is pushed, the left one on a tie, until one run is used up.
     */
    method MergeHeads(start: nat, mid: nat, end: nat) returns (i: nat, j: nat, temp: seq<int>)
      requires start <= mid <= end <= arr.Length
      ensures start <= i <= mid <= j <= end && (i == mid || j == end)
      ensures Merging(arr[start..mid], arr[mid..end], i - start, j - mid, temp)
    {
      ghost var a, b := arr[start..mid], arr[mid..end];
      i, j := start, mid;
      temp := [];
      assert [] + MergeFrom(a, b, 0, 0) == MergeFrom(a, b, 0, 0);
      while i < mid && j < end
        invariant start <= i <= mid <= j <= end
        invariant Merging(a, b, i - start, j - mid, temp)
      {
        assert arr[i] == a[i - start] && arr[j] == b[j - mid];
        if arr[i] <= arr[j] {
          TakeLeft(a, b, i - start, j - mid, temp, arr[i]);
          temp := temp + [arr[i]];
          i := i + 1;
        } else {
          TakeRight(a, b, i - start, j - mid, temp, arr[j]);
          temp := temp + [arr[j]];
          j := j + 1;
        }
      }
    }

    method CopyBack(start: nat, end: nat, temp: seq<int>)
      requires start <= end <= arr.Length && |temp| == end - start
      modifies arr
      ensures arr[start..end] == temp
      ensures arr[..start] == old(arr[..start]) && arr[end..] == old(arr[end..])
    {
      for k := 0 to |temp|
        invariant arr[start..start + k] == temp[..k]
        invariant arr[..start] == old(arr[..start]) && arr[end..] == old(arr[end..])
      {
        arr[start + k] := temp[k];
        assert arr[start..start + k + 1] == arr[start..start + k] + [temp[k]];
      }
    }

    /**
     * mergeSort(jobId) for a merge job: the job's range is merged at the
     * start of its split segment. When the two halves are sorted, as the two
     * child jobs leave them, the range ends up sorted and holding the same
     * elements.
     */
    method MergeSort(jobId: nat)
      requires Valid() && SEGMENTS <= jobId < JOBS
      modifies arr
      ensures Valid()
      ensures var n := arr.Length;
        var lo, mid, hi := JobStart(n, jobId), SegStart(n, MidSeg(jobId)), JobEnd(n, jobId);
        lo <= mid <= hi <= n &&
        arr[lo..hi] == MergeRuns(old(arr[lo..mid]), old(arr[mid..hi])) &&
        arr[..lo] == old(arr[..lo]) && arr[hi..] == old(arr[hi..]) &&
        (old(Sorted(arr[lo..mid]) && Sorted(arr[mid..hi])) ==> Sorted(arr[lo..hi]))
      ensures multiset(arr[..]) == multiset(old(arr[..]))
    {
      var leftSeg, rightSeg := firstSegIdx[jobId], lastSegIdx[jobId];
      assert leftSeg == FirstSeg(jobId) && rightSeg == LastSeg(jobId);
      JobRanges(jobId);
      var midSeg := (leftSeg + rightSeg + 1) / 2;
      assert midSeg == MidSeg(jobId);
      var startIdx, midIdx, endIdx := segStartIdx[leftSeg], segStartIdx[midSeg], segStartIdx[rightSeg + 1];
      ghost var n := arr.Length;
      assert startIdx == SegStart(n, leftSeg) && midIdx == SegStart(n, midSeg) && endIdx == SegStart(n, rightSeg + 1);
      SegStartBounds(n, leftSeg, midSeg);
      SegStartBounds(n, midSeg, rightSeg + 1);
      assert startIdx == JobStart(n, jobId) && midIdx == SegStart(n, MidSeg(jobId)) && endIdx == JobEnd(n, jobId);
      Merge(startIdx, midIdx, endIdx);
    }

    /** The range of job j is sorted. */
    ghost predicate JobSorted(j: nat)
      requires j < JOBS
      reads arr
    {
      RangeSorted(arr[..], j)
    }

    /**
     * The fifteen jobs in the order a single worker takes them from the
     * queue: the eight bubble jobs, then each merge job once both of its
     * children are done. The whole of arr ends up sorted and holding the
     * elements it started with.
     */
    method SortAll()
      requires Valid()
      modifies arr
      ensures Valid()
      ensures Sorted(arr[..]) && multiset(arr[..]) == multiset(old(arr[..]))
    {
      for s := 0 to SEGMENTS
        invariant Valid()
        invariant forall k :: 0 <= k < s ==> JobSorted(k)
        invariant multiset(arr[..]) == multiset(old(arr[..]))
      {
        BubbleStep(s);
      }
      for j := SEGMENTS to JOBS
        invariant Valid()
        invariant forall c :: 0 <= c < j && (c == JOBS - 1 || Parent(c) >= j) ==> JobSorted(c)
        invariant multiset(arr[..]) == multiset(old(arr[..]))
      {
        MergeStepJob(j);
      }
      assert JobSorted(JOBS - 1);
      JobBounds(arr.Length, JOBS - 1);
      assert arr[..] == arr[0..arr.Length];
    }

    /** Bubble job s keeps the ranges of the earlier bubble jobs sorted. */
    method BubbleStep(s: nat)
      requires Valid() && s < SEGMENTS
      requires forall k :: 0 <= k < s ==> JobSorted(k)
      modifies arr
      ensures Valid()
      ensures forall k :: 0 <= k <= s ==> JobSorted(k)
      ensures multiset(arr[..]) == multiset(old(arr[..]))
    {
      ghost var n := arr.Length;
      JobRanges(s);
      ghost var before := arr[..];
      forall k | 0 <= k < s ensures RangeSorted(before, k) {
        assert JobSorted(k);
      }
      Bubble(s);
      ghost var after, lo, hi := arr[..], SegStart(n, s), SegStart(n, s + 1);
      assert |after| == |before| == n && lo <= n;
      assert after[..lo] == before[..lo];
      BubbleKeeps(before, after, s);
      assert JobStart(n, s) == lo && JobEnd(n, s) == hi && after[lo..hi] == arr[lo..hi];
    }

    /**
     * Merge job j, run once both children are done, leaves its own range
     * sorted and the ranges of the other finished jobs untouched.
     */
    method MergeStepJob(j: nat)
      requires Valid() && SEGMENTS <= j < JOBS
      requires forall c :: 0 <= c < j && (c == JOBS - 1 || Parent(c) >= j) ==> JobSorted(c)
      modifies arr
      ensures Valid()
      ensures forall c :: 0 <= c <= j && (c == JOBS - 1 || Parent(c) >= j + 1) ==> JobSorted(c)
      ensures multiset(arr[..]) == multiset(old(arr[..]))
    {
      ghost var n := arr.Length;
      ghost var left := 2 * (j - SEGMENTS);
      ghost var lo, mid, hi := JobStart(n, j), SegStart(n, MidSeg(j)), JobEnd(n, j);
      ChildrenSplit(j);
      assert JobStart(n, left) == lo && JobEnd(n, left) == mid;
      assert JobStart(n, left + 1) == mid && JobEnd(n, left + 1) == hi;
      assert JobSorted(left) && JobSorted(left + 1);
      assert Sorted(arr[lo..mid]) && Sorted(arr[mid..hi]);
      ghost var before := arr[..];
      forall c | 0 <= c < j && Parent(c) >= j ensures RangeSorted(before, c) {
        assert JobSorted(c);
      }
      MergeSort(j);
      ghost var after := arr[..];
      assert Sorted(arr[lo..hi]) && after[lo..hi] == arr[lo..hi];
      assert after[..lo] == before[..lo] && after[hi..] == before[hi..];
      MergeKeeps(before, after, j);
      forall c | 0 <= c <= j && (c == JOBS - 1 || Parent(c) >= j + 1) ensures JobSorted(c) {
        if c < j {
          assert RangeSorted(after, c);
        }
      }
    }
  }

  /** segLen: the lengths of the eight segments of n elements. */
  method FillSegLen(n: nat) returns (segLen: array<nat>)
    ensures fresh(segLen) && segLen.Length == SEGMENTS
    ensures forall i :: 0 <= i < SEGMENTS ==> segLen[i] == SegLen(n, i)
  {
    segLen := new nat[SEGMENTS];
    var baseLen, remainder := n / SEGMENTS, n % SEGMENTS;
    for i := 0 to SEGMENTS
      invariant forall i' :: 0 <= i' < i ==> segLen[i'] == SegLen(n, i')
    {
      segLen[i] := baseLen + (if i < remainder then 1 else 0);
    }
  }

  /** segStartIdx: the running sums of the segment lengths. */
  method FillSegStart(n: nat, segLen: array<nat>) returns (segStartIdx: array<nat>)
    requires segLen.Length == SEGMENTS
    requires forall i :: 0 <= i < SEGMENTS ==> segLen[i] == SegLen(n, i)
    ensures fresh(segStartIdx) && segStartIdx.Length == SEGMENTS + 1
    ensures forall i :: 0 <= i <= SEGMENTS ==> segStartIdx[i] == SegStart(n, i)
  {
    segStartIdx := new nat[SEGMENTS + 1];
    segStartIdx[0] := 0;
    for i := 1 to SEGMENTS + 1
      invariant segStartIdx[0] == 0
      invariant forall i' :: 0 <= i' < i ==> segStartIdx[i'] == SegStart(n, i')
    {
      segStartIdx[i] := segStartIdx[i - 1] + (if i - 1 < SEGMENTS then segLen[i - 1] else 0);
    }
  }

  /** parentJob: every job's parent in the merge tree, as main writes it. */
  method FillParents() returns (parentJob: array<int>)
    ensures fresh(parentJob) && parentJob[..] == PARENT
  {
    parentJob := new int[JOBS];
    parentJob[0], parentJob[1] := 8, 8;
    parentJob[2], parentJob[3] := 9, 9;
    parentJob[4], parentJob[5] := 10, 10;
    parentJob[6], parentJob[7] := 11, 11;
    parentJob[8], parentJob[9] := 12, 12;
    parentJob[10], parentJob[11] := 13, 13;
    parentJob[12], parentJob[13] := 14, 14;
    parentJob[14] := NO_PARENT;
    assert parentJob[..] == [8, 8, 9, 9, 10, 10, 11, 11, 12, 12, 13, 13, 14, 14, NO_PARENT];
  }

  /**
   * firstSegIdx: the first segment of every job's range, as main writes it:
   * a bubble job's own segment, then the merge jobs level by level.
   */
  method FillFirstSegs() returns (firstSegIdx: array<nat>)
    ensures fresh(firstSegIdx) && firstSegIdx[..] == FIRST_SEG
  {
    firstSegIdx := new nat[JOBS];
    for i := 0 to SEGMENTS
      invariant forall i' :: 0 <= i' < i ==> firstSegIdx[i'] == i'
    {
      firstSegIdx[i] := i;
    }
    firstSegIdx[8], firstSegIdx[9], firstSegIdx[10], firstSegIdx[11] := 0, 2, 4, 6;
    firstSegIdx[12], firstSegIdx[13] := 0, 4;
    firstSegIdx[14] := 0;
    assert firstSegIdx[..] == [0, 1, 2, 3, 4, 5, 6, 7, 0, 2, 4, 6, 0, 4, 0];
  }

  /** lastSegIdx: the last segment of every job's range, as main writes it. */
  method FillLastSegs() returns (lastSegIdx: array<nat>)
    ensures fresh(lastSegIdx) && lastSegIdx[..] == LAST_SEG
  {
    lastSegIdx := new nat[JOBS];
    for i := 0 to SEGMENTS
      invariant forall i' :: 0 <= i' < i ==> lastSegIdx[i'] == i'
    {
      lastSegIdx[i] := i;
    }
    lastSegIdx[8], lastSegIdx[9], lastSegIdx[10], lastSegIdx[11] := 1, 3, 5, 7;
    lastSegIdx[12], lastSegIdx[13] := 3, 7;
    lastSegIdx[14] := 7;
    assert lastSegIdx[..] == [0, 1, 2, 3, 4, 5, 6, 7, 1, 3, 5, 7, 3, 7, 7];
  }

  /** The range of job j in s is sorted. */
  predicate RangeSorted(s: seq<int>, j: nat)
    requires j < JOBS
  {
    var lo, hi := JobStart(|s|, j), JobEnd(|s|, j);
    lo <= hi <= |s| && Sorted(s[lo..hi])
  }

  /** Bubble job s touches only segment s, so the earlier bubble jobs stay sorted. */
  lemma BubbleKeeps(before: seq<int>, after: seq<int>, s: nat)
    requires s < SEGMENTS && |after| == |before|
    requires SegStart(|before|, s) <= |before|
    requires after[..SegStart(|before|, s)] == before[..SegStart(|before|, s)]
    requires forall k :: 0 <= k < s ==> RangeSorted(before, k)
    ensures forall k :: 0 <= k < s ==> RangeSorted(after, k)
  {
    var n, lo := |before|, SegStart(|before|, s);
    forall k | 0 <= k < s
      ensures RangeSorted(after, k)
    {
      var x, y := JobStart(n, k), JobEnd(n, k);
      BubbleBefore(n, k, s);
      SliceInside(after, before, lo, x, y);
      assert RangeSorted(before, k);
    }
  }

  /** The range of bubble job k lies before the segment of a later bubble job s. */
  lemma BubbleBefore(n: nat, k: nat, s: nat)
    requires k < s < SEGMENTS
    ensures JobStart(n, k) <= JobEnd(n, k) <= SegStart(n, s) <= n
  {
    JobRanges(k);
    SegStartBounds(n, k, k + 1);
    SegStartBounds(n, k + 1, s);
  }

  /**
   * Merge job j touches only its own range, so every finished job whose
   * parent comes after j stays sorted.
   */
  lemma MergeKeeps(before: seq<int>, after: seq<int>, j: nat)
    requires SEGMENTS <= j < JOBS && |after| == |before|
    requires JobStart(|before|, j) <= JobEnd(|before|, j) <= |before|
    requires after[..JobStart(|before|, j)] == before[..JobStart(|before|, j)]
    requires after[JobEnd(|before|, j)..] == before[JobEnd(|before|, j)..]
    requires forall c :: 0 <= c < j && Parent(c) >= j ==> RangeSorted(before, c)
    ensures forall c :: 0 <= c < j && Parent(c) >= j + 1 ==> RangeSorted(after, c)
  {
    var n := |before|;
    forall c | 0 <= c < j && Parent(c) >= j + 1
      ensures RangeSorted(after, c)
    {
      var x, y := JobStart(n, c), JobEnd(n, c);
      JobBounds(n, c);
      JobsDisjoint(n, c, j);
      if y <= JobStart(n, j) {
        SliceInside(after, before, JobStart(n, j), x, y);
      } else {
        SliceAfter(after, before, JobEnd(n, j), x, y);
      }
      assert RangeSorted(before, c);
    }
  }

  /** Equal outside [lo, hi) and equal as multisets means equal as multisets inside. */
  lemma SliceMultiset(s: seq<int>, t: seq<int>, lo: nat, hi: nat)
    requires lo <= hi <= |s| == |t|
    requires multiset(s) == multiset(t) && s[..lo] == t[..lo] && s[hi..] == t[hi..]
    ensures multiset(s[lo..hi]) == multiset(t[lo..hi])
  {
    assert s == s[..lo] + s[lo..hi] + s[hi..];
    assert t == t[..lo] + t[lo..hi] + t[hi..];
    forall x ensures multiset(s[lo..hi])[x] == multiset(t[lo..hi])[x] {
      assert multiset(s)[x] == multiset(s[..lo])[x] + multiset(s[lo..hi])[x] + multiset(s[hi..])[x];
      assert multiset(t)[x] == multiset(t[..lo])[x] + multiset(t[lo..hi])[x] + multiset(t[hi..])[x];
    }
  }

  /** Equal outside [lo, hi) and equal as multisets inside means equal as multisets. */
  lemma OutsideMultiset(s: seq<int>, t: seq<int>, lo: nat, hi: nat)
    requires lo <= hi <= |s| == |t|
    requires multiset(s[lo..hi]) == multiset(t[lo..hi]) && s[..lo] == t[..lo] && s[hi..] == t[hi..]
    ensures multiset(s) == multiset(t)
  {
    assert s == s[..lo] + s[lo..hi] + s[hi..];
    assert t == t[..lo] + t[lo..hi] + t[hi..];
  }

  /** Slices that lie before lo are unchanged when everything before lo is. */
  lemma SliceInside(s: seq<int>, t: seq<int>, lo: nat, x: nat, y: nat)
    requires x <= y <= lo <= |s| == |t| && s[..lo] == t[..lo]
    ensures s[x..y] == t[x..y]
  {
    assert s[x..y] == s[..lo][x..y];
    assert t[x..y] == t[..lo][x..y];
  }

  /** Slices that lie after hi are unchanged when everything after hi is. */
  lemma SliceAfter(s: seq<int>, t: seq<int>, hi: nat, x: nat, y: nat)
    requires hi <= x <= y <= |s| == |t| && s[hi..] == t[hi..]
    ensures s[x..y] == t[x..y]
  {
    forall k | x <= k < y
      ensures s[k] == t[k]
    {
      assert s[k] == s[hi..][k - hi] && t[k] == t[hi..][k - hi];
    }
  }
}
