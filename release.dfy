/**
 * free of hw4/multilevelBF.c on the arena: the block is marked free, absorbs
 * a free physical successor, is absorbed by a free physical predecessor, and
 * the resulting block is appended to the tail of its class list.
 */
module Release {
  import opened SizeClass
  import opened PoolModel
  import opened Allocation

  /** No two adjacent blocks are both free, except possibly next to index i. */
  predicate SeparatedExcept(chain: seq<nat>, hdr: map<nat, Header>, i: nat)
  {
    forall k :: 0 <= k < |chain| - 1 && k != i && k + 1 != i ==>
      !(IsFree(hdr, chain[k]) && IsFree(hdr, chain[k + 1]))
  }

  /** The successor of block i, if any, is in use. */
  predicate RightClear(chain: seq<nat>, hdr: map<nat, Header>, i: nat)
  {
    i + 1 < |chain| ==> !IsFree(hdr, chain[i + 1])
  }

  function MarkFree(p: Pool, o: nat): (q: Pool)
    requires o in p.hdr
    ensures q.chain == p.chain && q.lists == p.lists && q.hdr.Keys == p.hdr.Keys
  {
    p.(hdr := p.hdr[o := Header(p.hdr[o].size, true)])
  }

  /**
   * Block i absorbs its physical successor: its size grows by the
   * successor's header and payload and the successor leaves the chain.
   */
  function Absorb(p: Pool, i: nat): (q: Pool)
    requires i + 1 < |p.chain| && Headed(p.chain, p.hdr)
    ensures q.lists == p.lists && q.hdr.Keys == p.hdr.Keys
    ensures |q.chain| == |p.chain| - 1 && Headed(q.chain, q.hdr)
    ensures forall k :: 0 <= k <= i ==> q.chain[k] == p.chain[k]
    ensures forall k :: i < k < |q.chain| ==> q.chain[k] == p.chain[k + 1]
  {
    var o, r := p.chain[i], p.chain[i + 1];
    Pool(p.chain[..i + 1] + p.chain[i + 2..],
         p.hdr[o := Header(p.hdr[o].size + HEADER_SIZE + p.hdr[r].size, p.hdr[o].free)],
         p.lists)
  }

  /** The right merge: absorb the successor of block i when it is free. */
  function MergeRight(p: Pool, i: nat): (q: Pool)
    requires i < |p.chain| && Headed(p.chain, p.hdr) && |p.lists| == LEVELS
    ensures |q.lists| == LEVELS && q.hdr.Keys == p.hdr.Keys && Headed(q.chain, q.hdr)
    ensures i < |q.chain| && forall k :: 0 <= k <= i ==> q.chain[k] == p.chain[k]
  {
    if i + 1 < |p.chain| && IsFree(p.hdr, p.chain[i + 1]) then
      var r := p.chain[i + 1];
      Absorb(Unlink(p, ClassOf(p.hdr, r), r), i)
    else p
  }

  /**
   * The left merge: when the predecessor of block i is free it absorbs block
   * i and becomes the block to file; otherwise block i stays that block.
   */
  function MergeLeft(p: Pool, i: nat): (r: (Pool, nat))
    requires i < |p.chain| && Headed(p.chain, p.hdr) && |p.lists| == LEVELS
    ensures |r.0.lists| == LEVELS && Headed(r.0.chain, r.0.hdr) && r.1 in r.0.hdr
    ensures r.0.hdr.Keys == p.hdr.Keys
  {
    if i > 0 && IsFree(p.hdr, p.chain[i - 1]) then
      var lf := p.chain[i - 1];
      (Absorb(Unlink(p, ClassOf(p.hdr, lf), lf), i - 1), lf)
    else (p, p.chain[i])
  }

  /** Append block b to the tail of the list of its current class. */
  function File(p: Pool, b: nat): (q: Pool)
    requires b in p.hdr && |p.lists| == LEVELS
    ensures q.chain == p.chain && q.hdr == p.hdr && |q.lists| == LEVELS
  {
    Append(p, ClassOf(p.hdr, b), b)
  }

  /** free(o + HEADER_SIZE) for a block o in use. */
  function Free(p: Pool, o: nat): (q: Pool)
    requires Headed(p.chain, p.hdr) && |p.lists| == LEVELS && o in p.chain
    ensures q.hdr.Keys == p.hdr.Keys && |q.lists| == LEVELS
  {
    Coalesce(MarkFree(p, o), IndexOf(p.chain, o))
  }

  // ---------------------------------------------------------------------
  // The invariant through the steps of free

  /** Marking a block in use as free leaves it as the one unfiled free block. */
  lemma MarkFreeStep(p: Pool, o: nat)
    requires Valid(p) && o in p.chain && !IsFree(p.hdr, o)
    ensures var q, i := MarkFree(p, o), IndexOf(p.chain, o);
      Pending(q, o) && SeparatedExcept(q.chain, q.hdr, i) &&
      forall x :: x != o && x in p.hdr ==> q.hdr[x] == p.hdr[x]
  {
    MarkFreeTiles(p, o);
    MarkFreeListed(p, o);
    MarkFreeSeparated(p, o);
  }

  /** Marking a block free moves no block and changes no size. */
  lemma MarkFreeTiles(p: Pool, o: nat)
    requires Tiles(p.chain, p.hdr) && Aligned(p.chain, p.hdr) && o in p.hdr
    ensures var q := MarkFree(p, o); Tiles(q.chain, q.hdr) && Aligned(q.chain, q.hdr)
  {
    var q := MarkFree(p, o);
    forall k | 0 <= k < |p.chain|
      ensures p.chain[k] in p.hdr && p.chain[k] in q.hdr && End(q.hdr, p.chain[k]) == End(p.hdr, p.chain[k])
    {
    }
  }

  /** The block marked free is on no list, and the lists are otherwise as they were. */
  lemma MarkFreeListed(p: Pool, o: nat)
    requires Listed(p) && Filed(p, {}) && o in p.chain && o in p.hdr && !IsFree(p.hdr, o)
    ensures var q := MarkFree(p, o); Listed(q) && Unlisted(q, o) && Filed(q, {o})
  {
    var q := MarkFree(p, o);
    forall l | 0 <= l < LEVELS
      ensures forall x :: x in q.lists[l] ==> x != o && q.hdr[x] == p.hdr[x]
    {
    }
  }

  /** Only the neighbours of the block marked free can be free next to it. */
  lemma MarkFreeSeparated(p: Pool, o: nat)
    requires Separated(p.chain, p.hdr) && Linked(p.chain, p.hdr) && o in p.chain && o in p.hdr
    ensures SeparatedExcept(MarkFree(p, o).chain, MarkFree(p, o).hdr, IndexOf(p.chain, o))
  {
    var q, i := MarkFree(p, o), IndexOf(p.chain, o);
    ChainDistinct(p.chain, p.hdr);
    forall k | 0 <= k < |q.chain| - 1 && k != i && k + 1 != i
      ensures !(IsFree(q.hdr, q.chain[k]) && IsFree(q.hdr, q.chain[k + 1]))
    {
      assert !(IsFree(p.hdr, p.chain[k]) && IsFree(p.hdr, p.chain[k + 1]));
    }
  }


  /** What absorbing does to the headers: only block i changes, and it grows. */
  lemma AbsorbHeaders(p: Pool, i: nat)
    requires Linked(p.chain, p.hdr) && i + 1 < |p.chain|
    ensures var q, o, r := Absorb(p, i), p.chain[i], p.chain[i + 1];
      q.hdr[o] == Header(p.hdr[o].size + HEADER_SIZE + p.hdr[r].size, p.hdr[o].free) &&
      End(q.hdr, o) == End(p.hdr, r) &&
      forall x :: x in p.hdr && x != o ==> q.hdr[x] == p.hdr[x]
  {
  }

  /** After absorbing, the chain still tiles the pool with aligned blocks. */
  lemma AbsorbTiles(p: Pool, i: nat)
    requires Tiles(p.chain, p.hdr) && Aligned(p.chain, p.hdr) && i + 1 < |p.chain|
    ensures var q := Absorb(p, i); Tiles(q.chain, q.hdr) && Aligned(q.chain, q.hdr)
  {
    AbsorbLinked(p, i);
    AbsorbAligned(p, i);
  }

  lemma AbsorbLinked(p: Pool, i: nat)
    requires Tiles(p.chain, p.hdr) && i + 1 < |p.chain|
    ensures var q := Absorb(p, i); Tiles(q.chain, q.hdr)
  {
    var q, o := Absorb(p, i), p.chain[i];
    forall k | 0 <= k < |q.chain| - 1 ensures q.chain[k + 1] == End(q.hdr, q.chain[k]) {
      AbsorbEndAt(p, i, k);
    }
    if i + 1 == |p.chain| - 1 {
      AbsorbHeaders(p, i);
      assert q.chain[|q.chain| - 1] == o;
    } else {
      AbsorbEndAt(p, i, |q.chain| - 1);
      assert q.chain[|q.chain| - 1] == p.chain[|p.chain| - 1];
    }
  }

  /** Each block of the absorbed chain ends where it did, except block i, which ends where its successor did. */
  lemma AbsorbEndAt(p: Pool, i: nat, k: nat)
    requires Linked(p.chain, p.hdr) && i + 1 < |p.chain| && k < |p.chain| - 1
    ensures var q := Absorb(p, i);
      End(q.hdr, q.chain[k]) == if k == i then End(p.hdr, p.chain[i + 1]) else if k < i then End(p.hdr, p.chain[k]) else End(p.hdr, p.chain[k + 1])
    ensures k + 1 < |p.chain| - 1 ==> Absorb(p, i).chain[k + 1] == End(Absorb(p, i).hdr, Absorb(p, i).chain[k])
  {
    var q, o := Absorb(p, i), p.chain[i];
    ChainDistinct(p.chain, p.hdr);
    AbsorbHeaders(p, i);
    if k < i {
      assert q.chain[k] == p.chain[k] != o;
    } else if k > i {
      assert q.chain[k] == p.chain[k + 1] != o;
    }
  }

  lemma AbsorbAligned(p: Pool, i: nat)
    requires Linked(p.chain, p.hdr) && Aligned(p.chain, p.hdr) && i + 1 < |p.chain|
    ensures var q := Absorb(p, i); Aligned(q.chain, q.hdr)
  {
    var q := Absorb(p, i);
    AbsorbHeaders(p, i);
    forall k | 0 <= k < |q.chain| ensures q.hdr[q.chain[k]].size % ALIGNMENT == 0 && q.hdr[q.chain[k]].size >= ALIGNMENT {
      if k > i {
        assert q.chain[k] == p.chain[k + 1];
      }
    }
  }

  /** The blocks of the chain after absorbing: all but the absorbed one. */
  lemma AbsorbMembers(p: Pool, i: nat)
    requires Linked(p.chain, p.hdr) && i + 1 < |p.chain|
    ensures forall x :: x in Absorb(p, i).chain <==> x in p.chain && x != p.chain[i + 1]
  {
    var q, r := Absorb(p, i), p.chain[i + 1];
    ChainDistinct(p.chain, p.hdr);
    assert p.chain == p.chain[..i + 1] + [r] + p.chain[i + 2..];
    assert q.chain == p.chain[..i + 1] + p.chain[i + 2..];
    assert r !in p.chain[..i + 1] + p.chain[i + 2..] by {
      forall k | 0 <= k < |q.chain| ensures q.chain[k] != r {
      }
    }
  }

  /** Absorbing two unlisted blocks keeps every list entry a free block of its class. */
  lemma AbsorbListed(p: Pool, i: nat)
    requires Linked(p.chain, p.hdr) && Listed(p) && i + 1 < |p.chain|
    requires Unlisted(p, p.chain[i]) && Unlisted(p, p.chain[i + 1])
    ensures Listed(Absorb(p, i))
  {
    var q, o, r := Absorb(p, i), p.chain[i], p.chain[i + 1];
    AbsorbMembers(p, i);
    AbsorbHeaders(p, i);
    forall l | 0 <= l < LEVELS
      ensures forall x :: x in q.lists[l] ==> x in q.chain && IsFree(q.hdr, x) && ClassOf(q.hdr, x) == l
    {
      forall x | x in q.lists[l] ensures x != o && x != r {
      }
    }
  }

  /** After absorbing, every free block other than the survivor is still filed. */
  lemma AbsorbFiled(p: Pool, i: nat)
    requires Linked(p.chain, p.hdr) && |p.lists| == LEVELS && i + 1 < |p.chain|
    requires Filed(p, {p.chain[i], p.chain[i + 1]})
    ensures Filed(Absorb(p, i), {p.chain[i]})
  {
    AbsorbMembers(p, i);
    AbsorbHeaders(p, i);
  }

  /**
   * Absorbing, when neither block is on a list and the surviving block is
   * free, leaves the surviving block as the one unfiled free block.
   */
  lemma AbsorbPending(p: Pool, i: nat)
    requires Tiles(p.chain, p.hdr) && Aligned(p.chain, p.hdr) && Listed(p) && i + 1 < |p.chain|
    requires Unlisted(p, p.chain[i]) && Unlisted(p, p.chain[i + 1]) && IsFree(p.hdr, p.chain[i])
    requires Filed(p, {p.chain[i], p.chain[i + 1]})
    ensures Pending(Absorb(p, i), p.chain[i])
  {
    AbsorbTiles(p, i);
    AbsorbListed(p, i);
    AbsorbFiled(p, i);
    AbsorbHeaders(p, i);
  }

  /** The right merge keeps block i as the one unfiled free block and clears its right side. */
  lemma MergeRightStep(p: Pool, i: nat)
    requires i < |p.chain| && Pending(p, p.chain[i]) && SeparatedExcept(p.chain, p.hdr, i)
    ensures var q := MergeRight(p, i);
      Pending(q, p.chain[i]) && SeparatedExcept(q.chain, q.hdr, i) && RightClear(q.chain, q.hdr, i) &&
      (i > 0 ==> IsFree(q.hdr, q.chain[i - 1]) == IsFree(p.hdr, p.chain[i - 1]))
  {
    var o := p.chain[i];
    if i + 1 < |p.chain| && IsFree(p.hdr, p.chain[i + 1]) {
      var r := p.chain[i + 1];
      var u := Unlink(p, ClassOf(p.hdr, r), r);
      UnlinkFree(p, r, {o});
      assert {o} + {r} == {o, r};
      AbsorbPending(u, i);
      AbsorbSeparated(u, i);
    }
  }

  /**
   * Absorbing a free successor keeps adjacent blocks apart away from block
   * i, the block after the merged one is in use, and the block before it
   * is unchanged.
   */
  lemma AbsorbSeparated(p: Pool, i: nat)
    requires Linked(p.chain, p.hdr) && i + 1 < |p.chain| && IsFree(p.hdr, p.chain[i + 1])
    requires SeparatedExcept(p.chain, p.hdr, i)
    ensures var q := Absorb(p, i);
      SeparatedExcept(q.chain, q.hdr, i) && RightClear(q.chain, q.hdr, i) &&
      (i > 0 ==> IsFree(q.hdr, q.chain[i - 1]) == IsFree(p.hdr, p.chain[i - 1]))
  {
    var q, o := Absorb(p, i), p.chain[i];
    ChainDistinct(p.chain, p.hdr);
    AbsorbHeaders(p, i);
    forall k | 0 <= k < |q.chain| - 1 && k != i && k + 1 != i
      ensures !(IsFree(q.hdr, q.chain[k]) && IsFree(q.hdr, q.chain[k + 1]))
    {
      if k < i {
        assert q.chain[k] == p.chain[k] && q.chain[k + 1] == p.chain[k + 1];
      } else {
        assert q.chain[k] == p.chain[k + 1] && q.chain[k + 1] == p.chain[k + 2];
      }
    }
    if i + 1 < |q.chain| {
      assert q.chain[i + 1] == p.chain[i + 2];
      assert !(IsFree(p.hdr, p.chain[i + 1]) && IsFree(p.hdr, p.chain[i + 2]));
    }
    if i > 0 {
      assert q.chain[i - 1] == p.chain[i - 1] != o;
    }
  }

  lemma MergeLeftPending(p: Pool, i: nat)
    requires i < |p.chain| && Pending(p, p.chain[i])
    ensures var (q, b) := MergeLeft(p, i); Pending(q, b)
  {
    var o := p.chain[i];
    if i > 0 && IsFree(p.hdr, p.chain[i - 1]) {
      var lf := p.chain[i - 1];
      var u := Unlink(p, ClassOf(p.hdr, lf), lf);
      UnlinkFree(p, lf, {o});
      assert {o} + {lf} == {lf, o};
      AbsorbPending(u, i - 1);
    }
  }

  /** After the right merge cleared its right side, the left merge separates the pool. */
  lemma MergeLeftSeparated(p: Pool, i: nat)
    requires i < |p.chain| && Linked(p.chain, p.hdr) && |p.lists| == LEVELS
    requires SeparatedExcept(p.chain, p.hdr, i) && RightClear(p.chain, p.hdr, i)
    ensures var (q, b) := MergeLeft(p, i); Separated(q.chain, q.hdr)
  {
    if i > 0 && IsFree(p.hdr, p.chain[i - 1]) {
      var lf := p.chain[i - 1];
      var u := Unlink(p, ClassOf(p.hdr, lf), lf);
      var q := Absorb(u, i - 1);
      ChainDistinct(p.chain, p.hdr);
      AbsorbHeaders(u, i - 1);
      forall k | 0 <= k < |q.chain| - 1 ensures !(IsFree(q.hdr, q.chain[k]) && IsFree(q.hdr, q.chain[k + 1])) {
        if k + 1 < i - 1 {
          assert q.chain[k] == p.chain[k] && q.chain[k + 1] == p.chain[k + 1];
        } else if k + 1 == i - 1 {
          assert q.chain[k] == p.chain[k] && q.chain[k + 1] == lf == p.chain[k + 1];
        } else if k == i - 1 {
          assert q.chain[k + 1] == p.chain[i + 1];
        } else {
          assert q.chain[k] == p.chain[k + 1] && q.chain[k + 1] == p.chain[k + 2];
        }
      }
    } else {
      forall k | 0 <= k < |p.chain| - 1 ensures !(IsFree(p.hdr, p.chain[k]) && IsFree(p.hdr, p.chain[k + 1])) {
      }
    }
  }

  /** Filing the one unfiled free block of a separated pool makes it valid. */
  lemma FileValid(p: Pool, b: nat)
    requires Pending(p, b) && Separated(p.chain, p.hdr)
    ensures Valid(File(p, b))
  {
    var q, lv := File(p, b), ClassOf(p.hdr, b);
    assert b !in p.lists[lv];
    DistinctSnoc(p.lists[lv], b);
  }

  /** free keeps the pool invariant: coverage, alignment, separation and filing. */
  lemma FreeValid(p: Pool, o: nat)
    requires Valid(p) && o in p.chain && !IsFree(p.hdr, o)
    ensures Valid(Free(p, o))
  {
    var i := IndexOf(p.chain, o);
    var p1 := MarkFree(p, o);
    MarkFreeStep(p, o);
    var p2 := MergeRight(p1, i);
    MergeRightStep(p1, i);
    MergeLeftPending(p2, i);
    MergeLeftSeparated(p2, i);
    var (q, b) := MergeLeft(p2, i);
    FileValid(q, b);
  }

  // ---------------------------------------------------------------------
  // What free does

  /** The right merge, block by block. */
  lemma MergeRightShape(p: Pool, i: nat)
    requires i < |p.chain| && Linked(p.chain, p.hdr) && |p.lists| == LEVELS
    ensures var q, o := MergeRight(p, i), p.chain[i];
      var right := i + 1 < |p.chain| && IsFree(p.hdr, p.chain[i + 1]);
      var hi := if right then i + 2 else i + 1;
      q.chain == p.chain[..i + 1] + p.chain[hi..] &&
      q.hdr[o] == Header(p.hdr[o].size + (if right then HEADER_SIZE + p.hdr[p.chain[i + 1]].size else 0), p.hdr[o].free) &&
      (forall x :: x in p.hdr && x != o ==> q.hdr[x] == p.hdr[x]) &&
      (right ==> q.lists == Unlink(p, ClassOf(p.hdr, p.chain[i + 1]), p.chain[i + 1]).lists) &&
      (!right ==> q.lists == p.lists)
  {
    if i + 1 < |p.chain| && IsFree(p.hdr, p.chain[i + 1]) {
      AbsorbHeaders(Unlink(p, ClassOf(p.hdr, p.chain[i + 1]), p.chain[i + 1]), i);
    } else {
      assert p.chain[i + 1..] == p.chain[i + 1..];
      assert p.chain == p.chain[..i + 1] + p.chain[i + 1..];
    }
  }

  /** The left merge, block by block. */
  lemma MergeLeftShape(p: Pool, i: nat)
    requires i < |p.chain| && Linked(p.chain, p.hdr) && |p.lists| == LEVELS
    ensures var (q, b) := MergeLeft(p, i);
      var o := p.chain[i];
      var left := i > 0 && IsFree(p.hdr, p.chain[i - 1]);
      var lo := if left then i - 1 else i;
      b == p.chain[lo] &&
      q.chain == p.chain[..lo] + [b] + p.chain[i + 1..] &&
      q.hdr[b] == Header(p.hdr[o].size + (if left then HEADER_SIZE + p.hdr[b].size else 0), p.hdr[b].free) &&
      (forall x :: x in p.hdr && x != b ==> q.hdr[x] == p.hdr[x]) &&
      (left ==> q.lists == Unlink(p, ClassOf(p.hdr, b), b).lists) &&
      (!left ==> q.lists == p.lists)
  {
    if i > 0 && IsFree(p.hdr, p.chain[i - 1]) {
      var lf := p.chain[i - 1];
      var u := Unlink(p, ClassOf(p.hdr, lf), lf);
      AbsorbHeaders(u, i - 1);
      assert p.chain[..i] == p.chain[..i - 1] + [lf];
    } else {
      assert p.chain == p.chain[..i] + [p.chain[i]] + p.chain[i + 1..];
    }
  }

  /** The merges and the filing after block i has been marked free. */
  function Coalesce(p: Pool, i: nat): (q: Pool)
    requires i < |p.chain| && Headed(p.chain, p.hdr) && |p.lists| == LEVELS
    ensures q.hdr.Keys == p.hdr.Keys && |q.lists| == LEVELS
  {
    var (q, b) := MergeLeft(MergeRight(p, i), i);
    File(q, b)
  }

  /** The state between the two merges, in terms of the state before them. */
  lemma BetweenMerges(p: Pool, i: nat)
    requires i < |p.chain| && Linked(p.chain, p.hdr) && |p.lists| == LEVELS
    requires forall k :: 0 <= k < |p.chain| && k != i ==> p.chain[k] != p.chain[i]
    ensures var p2, o := MergeRight(p, i), p.chain[i];
      var right := i + 1 < |p.chain| && IsFree(p.hdr, p.chain[i + 1]);
      var hi := if right then i + 2 else i + 1;
      p2.chain[i] == o && p2.chain[..i] == p.chain[..i] && p2.chain[i + 1..] == p.chain[hi..] &&
      p2.hdr[o] == Header(p.hdr[o].size + (if right then HEADER_SIZE + p.hdr[p.chain[i + 1]].size else 0), p.hdr[o].free) &&
      (i > 0 ==> p2.chain[i - 1] == p.chain[i - 1] && p2.hdr[p.chain[i - 1]] == p.hdr[p.chain[i - 1]]) &&
      (forall x :: x in p.hdr && x != o ==> p2.hdr[x] == p.hdr[x])
  {
    MergeRightShape(p, i);
  }

  /** The predecessor of block i is free, so the left merge happens. */
  predicate LeftFree(p: Pool, i: nat)
    requires i < |p.chain|
  {
    i > 0 && IsFree(p.hdr, p.chain[i - 1])
  }

  /** The successor of block i is free, so the right merge happens. */
  predicate RightFree(p: Pool, i: nat)
    requires i < |p.chain|
  {
    i + 1 < |p.chain| && IsFree(p.hdr, p.chain[i + 1])
  }

  /** Chain index of the block that survives freeing block i. */
  function MergeLo(p: Pool, i: nat): (lo: nat)
    requires i < |p.chain|
    ensures lo <= i
  {
    if LeftFree(p, i) then i - 1 else i
  }

  /** Chain index just past the blocks merged when freeing block i. */
  function MergeHi(p: Pool, i: nat): (hi: nat)
    requires i < |p.chain|
    ensures i < hi <= |p.chain|
  {
    if RightFree(p, i) then i + 2 else i + 1
  }

  /**
   * Payload of the merged block: the merged payloads plus one header for
   * every block absorbed.
   */
  function MergedSize(p: Pool, i: nat): nat
    requires i < |p.chain| && Headed(p.chain, p.hdr)
  {
    (if LeftFree(p, i) then p.hdr[p.chain[i - 1]].size + HEADER_SIZE else 0) +
    p.hdr[p.chain[i]].size +
    (if RightFree(p, i) then HEADER_SIZE + p.hdr[p.chain[i + 1]].size else 0)
  }

  /** The chain after both merges: the absorbed blocks are gone. */
  lemma CoalesceChain(p: Pool, i: nat)
    requires i < |p.chain| && Linked(p.chain, p.hdr) && |p.lists| == LEVELS
    requires forall k :: 0 <= k < |p.chain| && k != i ==> p.chain[k] != p.chain[i]
    ensures Coalesce(p, i).chain ==
      p.chain[..MergeLo(p, i)] + [p.chain[MergeLo(p, i)]] + p.chain[MergeHi(p, i)..]
  {
    var p2 := MergeRight(p, i);
    RightMergedChain(p, i);
    LeftMergedChain(p2, i);
    var (q2, b2) := MergeLeft(p2, i);
    assert Coalesce(p, i).chain == q2.chain;
    var tail := p.chain[MergeHi(p, i)..];
    if LeftFree(p, i) {
      assert LeftFree(p2, i);
      var head := p.chain[..i - 1];
      assert p2.chain[..i - 1] == head by {
        assert p2.chain[..i - 1] == p2.chain[..i][..i - 1];
        assert head == p.chain[..i][..i - 1];
      }
      assert q2.chain == head + [p.chain[i - 1]] + tail;
    } else {
      assert !LeftFree(p2, i);
      assert q2.chain == p.chain[..i] + [p.chain[i]] + tail;
    }
  }

  /** The chain after the right merge: the successor is gone when it was free. */
  lemma RightMergedChain(p: Pool, i: nat)
    requires i < |p.chain| && Linked(p.chain, p.hdr) && |p.lists| == LEVELS
    requires forall k :: 0 <= k < |p.chain| && k != i ==> p.chain[k] != p.chain[i]
    ensures var p2 := MergeRight(p, i);
      Linked(p2.chain, p2.hdr) && p2.chain[i] == p.chain[i] && p2.chain[..i] == p.chain[..i] &&
      p2.chain[i + 1..] == p.chain[MergeHi(p, i)..] &&
      (i > 0 ==> p2.chain[i - 1] == p.chain[i - 1] && p2.hdr[p.chain[i - 1]] == p.hdr[p.chain[i - 1]])
  {
    BetweenMerges(p, i);
    MergeRightStructure(p, i);
  }

  /** The chain after the left merge: block i is gone when its predecessor was free. */
  lemma LeftMergedChain(p: Pool, i: nat)
    requires i < |p.chain| && Linked(p.chain, p.hdr) && |p.lists| == LEVELS
    ensures var (q, b) := MergeLeft(p, i);
      var lo := if LeftFree(p, i) then i - 1 else i;
      b == p.chain[lo] && q.chain == p.chain[..lo] + [b] + p.chain[i + 1..] &&
      File(q, b).chain == q.chain
  {
    MergeLeftShape(p, i);
  }

  /** The right merge keeps the chain linked. */
  lemma MergeRightStructure(p: Pool, i: nat)
    requires i < |p.chain| && Linked(p.chain, p.hdr) && |p.lists| == LEVELS
    ensures Linked(MergeRight(p, i).chain, MergeRight(p, i).hdr)
  {
    if i + 1 < |p.chain| && IsFree(p.hdr, p.chain[i + 1]) {
      var u := Unlink(p, ClassOf(p.hdr, p.chain[i + 1]), p.chain[i + 1]);
      var q := Absorb(u, i);
      ChainDistinct(p.chain, p.hdr);
      AbsorbHeaders(u, i);
      forall k | 0 <= k < |q.chain| - 1 ensures q.chain[k + 1] == End(q.hdr, q.chain[k]) {
        if k < i {
          assert q.chain[k + 1] == p.chain[k + 1] == End(p.hdr, p.chain[k]);
        } else if k == i {
          assert q.chain[k + 1] == p.chain[i + 2];
        } else {
          assert q.chain[k + 1] == p.chain[k + 2] == End(p.hdr, p.chain[k + 1]);
        }
      }
    }
  }

  /** The surviving block after both merges and the filing. */
  lemma CoalesceBlock(p: Pool, i: nat)
    requires i < |p.chain| && Linked(p.chain, p.hdr) && |p.lists| == LEVELS
    requires forall k :: 0 <= k < |p.chain| && k != i ==> p.chain[k] != p.chain[i]
    ensures var q, o, b := Coalesce(p, i), p.chain[i], p.chain[MergeLo(p, i)];
      var size := MergedSize(p, i);
      q.hdr[b] == Header(size, if LeftFree(p, i) then p.hdr[b].free else p.hdr[o].free) &&
      |q.lists[Level(size)]| > 0 && q.lists[Level(size)][|q.lists[Level(size)]| - 1] == b &&
      (forall x :: x in p.hdr && x != o && x != b ==> q.hdr[x] == p.hdr[x])
  {
    MergedBlock(p, i);
    MergedOthers(p, i);
    var b := p.chain[MergeLo(p, i)];
    var (q2, b2) := MergeLeft(MergeRight(p, i), i);
    var lv := Level(MergedSize(p, i));
    assert Coalesce(p, i) == File(q2, b2) && ClassOf(q2.hdr, b2) == lv;
    assert Coalesce(p, i).lists[lv] == q2.lists[lv] + [b];
  }

  /** After both merges the surviving block holds the merged size. */
  lemma MergedBlock(p: Pool, i: nat)
    requires i < |p.chain| && Linked(p.chain, p.hdr) && |p.lists| == LEVELS
    requires forall k :: 0 <= k < |p.chain| && k != i ==> p.chain[k] != p.chain[i]
    ensures var (q, b) := MergeLeft(MergeRight(p, i), i);
      var o := p.chain[i];
      b == p.chain[MergeLo(p, i)] && b in q.hdr &&
      q.hdr[b] == Header(MergedSize(p, i), if LeftFree(p, i) then p.hdr[b].free else p.hdr[o].free)
  {
    var p2 := MergeRight(p, i);
    RightMergedHeaders(p, i);
    LeftMergedHeader(p2, i);
    if LeftFree(p, i) {
      assert LeftFree(p2, i);
    } else {
      assert !LeftFree(p2, i);
    }
  }

  /** The headers the left merge reads after the right merge. */
  lemma RightMergedHeaders(p: Pool, i: nat)
    requires i < |p.chain| && Linked(p.chain, p.hdr) && |p.lists| == LEVELS
    requires forall k :: 0 <= k < |p.chain| && k != i ==> p.chain[k] != p.chain[i]
    ensures var p2, o := MergeRight(p, i), p.chain[i];
      Linked(p2.chain, p2.hdr) && p2.chain[i] == o &&
      p2.hdr[o] == Header(p.hdr[o].size + (if RightFree(p, i) then HEADER_SIZE + p.hdr[p.chain[i + 1]].size else 0), p.hdr[o].free) &&
      (i > 0 ==> p2.chain[i - 1] == p.chain[i - 1] && p2.hdr[p.chain[i - 1]] == p.hdr[p.chain[i - 1]])
  {
    BetweenMerges(p, i);
    MergeRightStructure(p, i);
  }

  /** The block the left merge leaves for filing, and its header. */
  lemma LeftMergedHeader(p: Pool, i: nat)
    requires i < |p.chain| && Linked(p.chain, p.hdr) && |p.lists| == LEVELS
    ensures var (q, b) := MergeLeft(p, i);
      var o := p.chain[i];
      b == p.chain[if LeftFree(p, i) then i - 1 else i] &&
      q.hdr[b] == Header(p.hdr[o].size + (if LeftFree(p, i) then HEADER_SIZE + p.hdr[b].size else 0), p.hdr[b].free)
  {
    MergeLeftShape(p, i);
  }

  /** Both merges change no header but those of block i and of the surviving block. */
  lemma MergedOthers(p: Pool, i: nat)
    requires i < |p.chain| && Linked(p.chain, p.hdr) && |p.lists| == LEVELS
    requires forall k :: 0 <= k < |p.chain| && k != i ==> p.chain[k] != p.chain[i]
    ensures var (q, b) := MergeLeft(MergeRight(p, i), i);
      forall x :: x in p.hdr && x != p.chain[i] && x != b ==> q.hdr[x] == p.hdr[x]
  {
    BetweenMerges(p, i);
    var p2 := MergeRight(p, i);
    MergeRightStructure(p, i);
    MergeLeftShape(p2, i);
  }

  /** Marking block i free changes none of the quantities of its merge. */
  lemma MarkFreeMerge(p: Pool, i: nat)
    requires i < |p.chain| && Linked(p.chain, p.hdr)
    requires forall k :: 0 <= k < |p.chain| && k != i ==> p.chain[k] != p.chain[i]
    ensures var p1 := MarkFree(p, p.chain[i]);
      Linked(p1.chain, p1.hdr) &&
      LeftFree(p1, i) == LeftFree(p, i) && RightFree(p1, i) == RightFree(p, i) &&
      MergedSize(p1, i) == MergedSize(p, i)
  {
    var p1 := MarkFree(p, p.chain[i]);
    forall k | 0 <= k < |p1.chain| - 1 ensures p1.chain[k + 1] == End(p1.hdr, p1.chain[k]) {
      assert End(p1.hdr, p1.chain[k]) == End(p.hdr, p.chain[k]);
    }
  }

  /**
   * Coalescing: free(o) merges block o with a free successor and then with a
   * free predecessor. The chain loses the absorbed blocks; the surviving
   * block b is the predecessor when it was free, else o; its size is the sum
   * of the merged payloads plus one header per absorbed block; it is free
   * and is the last entry of the list of its new class. No other block
   * changes.
   */
  lemma FreeShape(p: Pool, o: nat)
    requires Linked(p.chain, p.hdr) && |p.lists| == LEVELS && o in p.chain
    ensures var q, i := Free(p, o), IndexOf(p.chain, o);
      var b, size := p.chain[MergeLo(p, i)], MergedSize(p, i);
      q.chain == p.chain[..MergeLo(p, i)] + [b] + p.chain[MergeHi(p, i)..] &&
      q.hdr[b] == Header(size, true) &&
      |q.lists[Level(size)]| > 0 && q.lists[Level(size)][|q.lists[Level(size)]| - 1] == b &&
      (forall x :: x in p.chain && x != o && x != b ==> q.hdr[x] == p.hdr[x])
  {
    var i := IndexOf(p.chain, o);
    ChainDistinct(p.chain, p.hdr);
    MarkFreeMerge(p, i);
    var p1 := MarkFree(p, o);
    assert p1.chain == p.chain && p.chain[i] == o;
    assert MergeLo(p1, i) == MergeLo(p, i) && MergeHi(p1, i) == MergeHi(p, i);
    var b := p.chain[MergeLo(p, i)];
    CoalesceChain(p1, i);
    CoalesceBlock(p1, i);
    assert LeftFree(p, i) ==> IsFree(p1.hdr, b);
    assert forall x :: x in p.hdr && x != o ==> p1.hdr[x] == p.hdr[x];
  }

  /** Two neighbours of a separated chain are never both free. */
  lemma SeparatedAt(chain: seq<nat>, hdr: map<nat, Header>, k: nat)
    requires Separated(chain, hdr) && k + 1 < |chain|
    ensures !IsFree(hdr, chain[k]) || !IsFree(hdr, chain[k + 1])
  {
  }

  /** Entry j of list l: a block of the chain, of class l, not repeated later. */
  lemma ListedAt(p: Pool, l: nat, j: nat)
    requires Listed(p) && l < LEVELS && j < |p.lists[l]|
    ensures p.lists[l][j] in p.chain && ClassOf(p.hdr, p.lists[l][j]) == l
    ensures forall k :: j < k < |p.lists[l]| ==> p.lists[l][k] != p.lists[l][j]
  {
  }

  /**
   * Coalescing closure: a valid pool in which every block is free is a
   * single free block spanning the usable capacity, alone on its list.
   */
  lemma AllFreeIsInitial(p: Pool)
    requires Valid(p) && forall x :: x in p.chain ==> IsFree(p.hdr, x)
    ensures p.chain == [0] && p.hdr[0] == Header(INITIAL_SIZE, true)
    ensures p.lists == InitialPool().lists
  {
    if |p.chain| > 1 {
      SeparatedAt(p.chain, p.hdr, 0);
      assert false;
    }
    assert p.chain == [0] && End(p.hdr, 0) == POOL_SIZE && IsFree(p.hdr, p.chain[0]);
    assert p.hdr[0] == Header(INITIAL_SIZE, true);
    InitialPoolValid();
    OnlyInitialListed(p);
  }

  /** The free lists of a valid pool whose only block is the whole free pool. */
  lemma OnlyInitialListed(p: Pool)
    requires Listed(p) && Filed(p, {}) && p.chain == [0] && 0 in p.hdr
    requires p.hdr[0] == Header(INITIAL_SIZE, true)
    ensures p.lists == InitialPool().lists
  {
    InitialPoolValid();
    var l0 := Level(INITIAL_SIZE);
    assert 0 in p.chain && IsFree(p.hdr, 0) && ClassOf(p.hdr, 0) == l0;
    assert 0 in p.lists[l0];
    forall l | 0 <= l < LEVELS ensures p.lists[l] == InitialPool().lists[l] {
      if l == l0 {
        var s := p.lists[l];
        assert forall x :: x in s ==> x == 0;
        if |s| > 1 {
          ListedAt(p, l, 0);
          ListedAt(p, l, 1);
          assert false;
        }
        assert s == [0];
      } else if |p.lists[l]| > 0 {
        ListedAt(p, l, 0);
        assert false;
      }
    }
  }

  // ---------------------------------------------------------------------
  // Freeing what malloc handed over

  /** The lists of p with block o moved from its place on list l to that list's tail. */
  function MovedToTail(p: Pool, l: nat, o: nat): (lists: seq<seq<nat>>)
    requires l < |p.lists|
    ensures |lists| == |p.lists|
    ensures o in p.lists[l] ==> multiset(lists[l]) == multiset(p.lists[l])
    ensures forall l' :: 0 <= l' < |p.lists| && l' != l ==> lists[l'] == p.lists[l']
  {
    assert o in p.lists[l] ==> multiset(Remove(p.lists[l], o)) + multiset{o} == multiset(p.lists[l]) by {
      if o in p.lists[l] {
        RemoveMultiset(p.lists[l], o);
      }
    }
    p.lists[l := Remove(p.lists[l], o) + [o]]
  }

  /**
   * q is a valid pool with p's chain and p's headers on it, and p's lists up
   * to the block at o moving to the tail of its own; so each list holds the
   * same blocks as in p.
   */
  predicate Returned(p: Pool, q: Pool, o: nat)
    requires |p.lists| == LEVELS && o in p.hdr
  {
    Valid(q) && q.chain == p.chain &&
    (forall x :: x in p.chain ==> x in p.hdr && x in q.hdr && q.hdr[x] == p.hdr[x]) &&
    q.lists == MovedToTail(p, ClassOf(p.hdr, o), o) &&
    (forall l :: 0 <= l < LEVELS ==> multiset(q.lists[l]) == multiset(p.lists[l]))
  }

  /**
   * free(ptr) on c, a valid pool in which the block before ptr is in use,
   * returns the pool to p in the sense of Returned.
   */
  predicate Restores(p: Pool, c: Pool, ptr: nat)
    requires |p.lists| == LEVELS && ptr >= HEADER_SIZE && ptr - HEADER_SIZE in p.hdr
  {
    var o := ptr - HEADER_SIZE;
    Valid(c) && o in c.chain && !IsFree(c.hdr, o) && Returned(p, Free(c, o), o)
  }
}
