/**
 * malloc of hw4/multilevelBF.c on the arena: the initial pool, taking the
 * chosen block off its list, the split of an oversized block, and the whole
 * allocation step for a non-zero request.
 */
module Allocation {
  import opened Wrappers
  import opened SizeClass
  import opened PoolModel
  import opened BestFit

  /** The payload of the first block: the whole pool less one header. */
  const INITIAL_SIZE: nat := POOL_SIZE - HEADER_SIZE

  /** The pool right after the mapping: one free block, on its class list. */
  function InitialPool(): Pool
  {
    Pool([0], map[0 := Header(INITIAL_SIZE, true)],
         seq(LEVELS, l => if l == Level(INITIAL_SIZE) then [0] else []))
  }

  /**
   * The initialised pool is valid; its single block of 19968 bytes is free
   * and is the only entry of the catch-all list.
   */
  lemma InitialPoolValid()
    ensures Valid(InitialPool())
    ensures InitialPool().chain == [0] && InitialPool().hdr[0] == Header(19968, true)
    ensures Level(19968) == LEVELS - 1
    ensures forall l :: 0 <= l < LEVELS ==> InitialPool().lists[l] == if l == LEVELS - 1 then [0] else []
  {
    TopBoundaries();
    LevelIff(INITIAL_SIZE, LEVELS - 1);
    assert INITIAL_SIZE % ALIGNMENT == 0;
  }

  /** Unlink the chosen block from the list of class l and mark it in use. */
  function Take(p: Pool, l: nat, o: nat): (q: Pool)
    requires l < |p.lists| && o in p.hdr
    ensures q.chain == p.chain && q.hdr == p.hdr[o := Header(p.hdr[o].size, false)]
  {
    Unlink(p, l, o).(hdr := p.hdr[o := p.hdr[o].(free := false)])
  }

  /** Taking a listed free block keeps the pool valid. */
  lemma TakeValid(p: Pool, o: nat)
    requires Valid(p) && o in p.chain && IsFree(p.hdr, o)
    ensures Valid(Take(p, ClassOf(p.hdr, o), o))
  {
    var l := ClassOf(p.hdr, o);
    var u := Unlink(p, l, o);
    var q := Take(p, l, o);
    UnlinkFree(p, o, {});
    forall x | x in p.hdr ensures x in q.hdr && q.hdr[x].size == p.hdr[x].size {
    }
    forall i | 0 <= i < |q.chain| - 1 ensures q.chain[i + 1] == End(q.hdr, q.chain[i]) {
      assert End(q.hdr, q.chain[i]) == End(p.hdr, p.chain[i]);
    }
    assert End(q.hdr, q.chain[|q.chain| - 1]) == End(p.hdr, p.chain[|p.chain| - 1]);
    forall l' | 0 <= l' < LEVELS
      ensures forall x :: x in q.lists[l'] ==> x in q.chain && IsFree(q.hdr, x) && ClassOf(q.hdr, x) == l'
    {
      forall x | x in q.lists[l'] ensures x != o && q.hdr[x] == u.hdr[x] {
      }
    }
  }

  /** Where the split carves the remainder: right after req bytes of payload. */
  function Remainder(p: Pool, i: nat, req: nat): nat
    requires i < |p.chain|
  {
    p.chain[i] + HEADER_SIZE + req
  }

  /**
   * Split block i into a req-byte prefix and a free remainder block placed
   * right after it in the chain and appended to the tail of its class list.
   */
  function Split(p: Pool, i: nat, req: nat): (q: Pool)
    requires i < |p.chain| && p.chain[i] in p.hdr && |p.lists| == LEVELS
    requires p.hdr[p.chain[i]].size >= req + HEADER_SIZE + ALIGNMENT
  {
    var o := p.chain[i];
    var size := p.hdr[o].size;
    var nb := Remainder(p, i, req);
    var rest := size - req - HEADER_SIZE;
    Append(Pool(p.chain[..i + 1] + [nb] + p.chain[i + 1..],
                p.hdr[o := Header(req, p.hdr[o].free)][nb := Header(rest, true)],
                p.lists),
           Level(rest), nb)
  }

  /** The remainder starts strictly inside block i, so it is not a block of the chain yet. */
  lemma RemainderFresh(p: Pool, i: nat, req: nat)
    requires Linked(p.chain, p.hdr) && i < |p.chain|
    requires p.hdr[p.chain[i]].size > req
    ensures forall k :: 0 <= k < |p.chain| ==> p.chain[k] != Remainder(p, i, req)
    ensures forall k :: 0 <= k < |p.chain| && k != i ==> p.chain[k] != p.chain[i]
  {
    forall k | 0 <= k < |p.chain| ensures p.chain[k] != Remainder(p, i, req) {
      if k < i {
        ChainOrder(p.chain, p.hdr, k, i);
      } else if k > i {
        ChainOrder(p.chain, p.hdr, i, k);
      }
    }
    ChainDistinct(p.chain, p.hdr);
  }

  /** What a split does to the chain and the headers, position by position. */
  lemma SplitShape(p: Pool, i: nat, req: nat)
    requires i < |p.chain| && p.chain[i] in p.hdr && |p.lists| == LEVELS
    requires p.hdr[p.chain[i]].size >= req + HEADER_SIZE + ALIGNMENT
    ensures var q, o, nb := Split(p, i, req), p.chain[i], Remainder(p, i, req);
      |q.chain| == |p.chain| + 1 &&
      (forall k :: 0 <= k <= i ==> q.chain[k] == p.chain[k]) &&
      q.chain[i + 1] == nb &&
      (forall k :: i + 1 < k < |q.chain| ==> q.chain[k] == p.chain[k - 1]) &&
      q.hdr.Keys == p.hdr.Keys + {nb} &&
      q.hdr[nb] == Header(p.hdr[o].size - req - HEADER_SIZE, true) &&
      (nb != o ==> q.hdr[o] == Header(req, p.hdr[o].free)) &&
      (forall x :: x in p.hdr && x != o && x != nb ==> q.hdr[x] == p.hdr[x])
  {
  }

  /** After a split the chain still tiles the pool with aligned blocks. */
  lemma SplitLinked(p: Pool, i: nat, req: nat)
    requires Valid(p) && i < |p.chain|
    requires req >= ALIGNMENT && req % ALIGNMENT == 0
    requires p.hdr[p.chain[i]].size >= req + HEADER_SIZE + ALIGNMENT
    ensures var q := Split(p, i, req); Tiles(q.chain, q.hdr) && Aligned(q.chain, q.hdr)
  {
    SplitAligned(p, i, req);
    SplitTiles(p, i, req);
  }

  lemma SplitAligned(p: Pool, i: nat, req: nat)
    requires Aligned(p.chain, p.hdr) && Linked(p.chain, p.hdr) && |p.lists| == LEVELS && i < |p.chain|
    requires req >= ALIGNMENT && req % ALIGNMENT == 0
    requires p.hdr[p.chain[i]].size >= req + HEADER_SIZE + ALIGNMENT
    ensures var q := Split(p, i, req); Aligned(q.chain, q.hdr)
  {
    var q := Split(p, i, req);
    RemainderFresh(p, i, req);
    SplitShape(p, i, req);
    var c, h := q.chain, q.hdr;
    forall k | 0 <= k < |c| ensures c[k] in h && h[c[k]].size >= ALIGNMENT && h[c[k]].size % ALIGNMENT == 0 {
      if k > i + 1 {
        assert c[k] == p.chain[k - 1];
      }
    }
  }

  lemma SplitTiles(p: Pool, i: nat, req: nat)
    requires Tiles(p.chain, p.hdr) && |p.lists| == LEVELS && i < |p.chain|
    requires p.hdr[p.chain[i]].size >= req + HEADER_SIZE + ALIGNMENT
    ensures var q := Split(p, i, req); Tiles(q.chain, q.hdr)
  {
    var q := Split(p, i, req);
    var o, nb := p.chain[i], Remainder(p, i, req);
    RemainderFresh(p, i, req);
    SplitShape(p, i, req);
    var c, h := q.chain, q.hdr;
    forall k | 0 <= k < |c| ensures c[k] in h {
      if k > i + 1 {
        assert c[k] == p.chain[k - 1];
      }
    }
    forall k | 0 <= k < |c| - 1 ensures c[k + 1] == End(h, c[k]) {
      SplitEndAt(p, i, req, k);
    }
    if i == |p.chain| - 1 {
      assert c[|c| - 1] == nb;
    } else {
      assert c[|c| - 1] == p.chain[|p.chain| - 1];
    }
  }

  /** Each link of the split chain: block k + 1 starts where block k ends. */
  lemma SplitEndAt(p: Pool, i: nat, req: nat, k: nat)
    requires Linked(p.chain, p.hdr) && |p.lists| == LEVELS && i < |p.chain|
    requires p.hdr[p.chain[i]].size >= req + HEADER_SIZE + ALIGNMENT
    requires k < |p.chain|
    ensures var q := Split(p, i, req); q.chain[k] in q.hdr && q.chain[k + 1] == End(q.hdr, q.chain[k])
  {
    var q := Split(p, i, req);
    var o := p.chain[i];
    RemainderFresh(p, i, req);
    SplitShape(p, i, req);
    var c, h := q.chain, q.hdr;
    if k < i {
      assert c[k + 1] == p.chain[k + 1] == End(p.hdr, p.chain[k]);
    } else if k > i + 1 {
      assert c[k] == p.chain[k - 1];
      assert c[k + 1] == p.chain[k] == End(p.hdr, p.chain[k - 1]);
    } else if k == i + 1 {
      assert c[k + 1] == p.chain[i + 1] == End(p.hdr, o);
    }
  }

  /** A split never puts two free blocks side by side. */
  lemma SplitSeparated(p: Pool, i: nat, req: nat)
    requires Valid(p) && i < |p.chain| && !IsFree(p.hdr, p.chain[i])
    requires p.hdr[p.chain[i]].size >= req + HEADER_SIZE + ALIGNMENT
    requires i + 1 < |p.chain| ==> !IsFree(p.hdr, p.chain[i + 1])
    ensures var q := Split(p, i, req); Separated(q.chain, q.hdr)
  {
    var q := Split(p, i, req);
    RemainderFresh(p, i, req);
    SplitShape(p, i, req);
    var c, h := q.chain, q.hdr;
    forall k | 0 <= k < |c| - 1 ensures !(IsFree(h, c[k]) && IsFree(h, c[k + 1])) {
      if k + 1 < i {
        assert !(IsFree(p.hdr, p.chain[k]) && IsFree(p.hdr, p.chain[k + 1]));
      } else if k + 1 == i {
        assert c[k + 1] == p.chain[i];
      } else if k == i + 1 && k + 1 < |c| {
        assert c[k + 1] == p.chain[i + 1];
      } else if k > i + 1 {
        assert c[k] == p.chain[k - 1] && c[k + 1] == p.chain[k];
        assert !(IsFree(p.hdr, p.chain[k - 1]) && IsFree(p.hdr, p.chain[k]));
      }
    }
  }

  /** The list side of a split: the remainder is filed and nothing else moves. */
  lemma SplitFiled(p: Pool, i: nat, req: nat)
    requires Valid(p) && i < |p.chain| && !IsFree(p.hdr, p.chain[i])
    requires p.hdr[p.chain[i]].size >= req + HEADER_SIZE + ALIGNMENT
    ensures Listed(Split(p, i, req)) && Filed(Split(p, i, req), {})
  {
    SplitListed(p, i, req);
    SplitFiledAll(p, i, req);
  }

  lemma SplitListed(p: Pool, i: nat, req: nat)
    requires Linked(p.chain, p.hdr) && Listed(p) && i < |p.chain| && !IsFree(p.hdr, p.chain[i])
    requires p.hdr[p.chain[i]].size >= req + HEADER_SIZE + ALIGNMENT
    ensures Listed(Split(p, i, req))
  {
    var q := Split(p, i, req);
    var o, nb := p.chain[i], Remainder(p, i, req);
    var lv := Level(p.hdr[o].size - req - HEADER_SIZE);
    RemainderFresh(p, i, req);
    SplitShape(p, i, req);
    SplitMembers(p, i, req);
    assert nb !in p.chain;
    ListedGrow(p, q, o, nb, lv);
  }

  lemma SplitFiledAll(p: Pool, i: nat, req: nat)
    requires Linked(p.chain, p.hdr) && |p.lists| == LEVELS && Filed(p, {}) && i < |p.chain|
    requires !IsFree(p.hdr, p.chain[i])
    requires p.hdr[p.chain[i]].size >= req + HEADER_SIZE + ALIGNMENT
    ensures Filed(Split(p, i, req), {})
  {
    var q := Split(p, i, req);
    var o, nb := p.chain[i], Remainder(p, i, req);
    var lv := Level(p.hdr[o].size - req - HEADER_SIZE);
    RemainderFresh(p, i, req);
    SplitShape(p, i, req);
    SplitMembers(p, i, req);
    assert !IsFree(q.hdr, o);
    FiledGrow(p, q, o, nb, lv);
  }

  /**
   * Listed survives a step that adds the free block nb, of class lv, to the
   * chain and to the tail of list lv, and changes no header but that of nb
   * and of the block o in use.
   */
  lemma ListedGrow(p: Pool, q: Pool, o: nat, nb: nat, lv: nat)
    requires Listed(p) && |q.lists| == LEVELS && lv < LEVELS && !IsFree(p.hdr, o)
    requires forall x :: x in p.chain ==> x in q.chain
    requires nb in q.chain && nb !in p.chain && IsFree(q.hdr, nb) && ClassOf(q.hdr, nb) == lv
    requires forall x :: x in p.hdr && x != o && x != nb ==> x in q.hdr && q.hdr[x] == p.hdr[x]
    requires q.lists == p.lists[lv := p.lists[lv] + [nb]]
    ensures Listed(q)
  {
    forall l | 0 <= l < LEVELS
      ensures Distinct(q.lists[l])
      ensures forall x :: x in q.lists[l] ==> x in q.chain && IsFree(q.hdr, x) && ClassOf(q.hdr, x) == l
    {
      if l == lv {
        assert nb !in p.lists[l];
        DistinctSnoc(p.lists[l], nb);
        assert q.lists[l] == p.lists[l] + [nb];
      } else {
        assert q.lists[l] == p.lists[l];
      }
      forall x | x in p.lists[l] ensures x != o && x != nb && q.hdr[x] == p.hdr[x] {
      }
    }
  }

  /**
   * Filed survives the same kind of step, provided o is not free afterwards:
   * every free block of the new chain is nb, which list lv now ends with, or
   * an old free block still on the list of its unchanged class.
   */
  lemma FiledGrow(p: Pool, q: Pool, o: nat, nb: nat, lv: nat)
    requires |p.lists| == LEVELS && |q.lists| == LEVELS && lv < LEVELS
    requires Headed(p.chain, p.hdr) && Filed(p, {}) && !IsFree(q.hdr, o)
    requires forall x :: x in q.chain ==> x in p.chain || x == nb
    requires nb in q.hdr && ClassOf(q.hdr, nb) == lv
    requires forall x :: x in p.hdr && x != o && x != nb ==> x in q.hdr && q.hdr[x] == p.hdr[x]
    requires q.lists == p.lists[lv := p.lists[lv] + [nb]]
    ensures Filed(q, {})
  {
    forall x | x in q.chain && IsFree(q.hdr, x) ensures x in q.lists[ClassOf(q.hdr, x)] {
      if x == nb {
        assert q.lists[lv] == p.lists[lv] + [nb];
      } else {
        assert x in p.chain && x != o;
        var l := ClassOf(p.hdr, x);
        assert x in p.lists[l];
        assert q.lists[l] == if l == lv then p.lists[l] + [nb] else p.lists[l];
      }
    }
  }

  /** The split chain holds the old blocks and the remainder; one list gains the remainder. */
  lemma SplitMembers(p: Pool, i: nat, req: nat)
    requires i < |p.chain| && p.chain[i] in p.hdr && |p.lists| == LEVELS
    requires p.hdr[p.chain[i]].size >= req + HEADER_SIZE + ALIGNMENT
    ensures var q, nb := Split(p, i, req), Remainder(p, i, req);
      var lv := Level(p.hdr[p.chain[i]].size - req - HEADER_SIZE);
      (forall x :: x in q.chain <==> x in p.chain || x == nb) &&
      q.lists == p.lists[lv := p.lists[lv] + [nb]]
  {
    assert p.chain == p.chain[..i + 1] + p.chain[i + 1..];
  }

  lemma DistinctSnoc(s: seq<nat>, x: nat)
    requires x !in s && Distinct(s)
    ensures Distinct(s + [x])
  {
  }

  /** A split of a taken block keeps the pool valid. */
  lemma SplitValid(p: Pool, i: nat, req: nat)
    requires Valid(p) && i < |p.chain| && !IsFree(p.hdr, p.chain[i])
    requires req >= ALIGNMENT && req % ALIGNMENT == 0
    requires p.hdr[p.chain[i]].size >= req + HEADER_SIZE + ALIGNMENT
    requires i + 1 < |p.chain| ==> !IsFree(p.hdr, p.chain[i + 1])
    ensures Valid(Split(p, i, req))
  {
    SplitLinked(p, i, req);
    SplitSeparated(p, i, req);
    SplitFiled(p, i, req);
  }

  /**
   * The allocation of block o, found on the list of class l, for the rounded
   * request req: take it, and split it when the remainder can hold a header
   * and one alignment unit.
   */
  function Carve(p: Pool, l: nat, o: nat, req: nat): Pool
    requires l < |p.lists| == LEVELS && o in p.chain && o in p.hdr
  {
    var q := Take(p, l, o);
    if p.hdr[o].size >= req + HEADER_SIZE + ALIGNMENT then Split(q, IndexOf(p.chain, o), req) else q
  }

  /** Carving a listed free block that is large enough keeps the pool valid. */
  lemma CarveValid(p: Pool, o: nat, req: nat)
    requires Valid(p) && o in p.chain && IsFree(p.hdr, o)
    requires req >= ALIGNMENT && req % ALIGNMENT == 0
    ensures Valid(Carve(p, ClassOf(p.hdr, o), o, req))
  {
    var l := ClassOf(p.hdr, o);
    TakeValid(p, o);
    var q := Take(p, l, o);
    if p.hdr[o].size >= req + HEADER_SIZE + ALIGNMENT {
      var i := IndexOf(p.chain, o);
      if i + 1 < |p.chain| {
        assert p.chain[i + 1] == End(p.hdr, o) != o;
        assert !(IsFree(p.hdr, p.chain[i]) && IsFree(p.hdr, p.chain[i + 1]));
        assert q.hdr[q.chain[i + 1]] == p.hdr[p.chain[i + 1]];
      }
      SplitValid(q, i, req);
    }
  }

  /**
   * Carving a block whose size reaches req + HEADER_SIZE + ALIGNMENT: it
   * leaves the list of its class and shrinks to exactly req, and a free block
   * of the leftover size minus one header is placed right after it in the
   * chain and at the tail of its class list. No other block changes.
   */
  lemma CarveSplits(p: Pool, o: nat, req: nat)
    requires Linked(p.chain, p.hdr) && |p.lists| == LEVELS && o in p.chain && o in p.hdr
    requires p.hdr[o].size >= req + HEADER_SIZE + ALIGNMENT
    ensures var q := Carve(p, ClassOf(p.hdr, o), o, req);
      var i := IndexOf(p.chain, o);
      var nb := o + HEADER_SIZE + req;
      var rest := p.hdr[o].size - req - HEADER_SIZE;
      q.chain == p.chain[..i + 1] + [nb] + p.chain[i + 1..] &&
      q.hdr[o] == Header(req, false) && q.hdr[nb] == Header(rest, true) &&
      q.lists == Append(Unlink(p, ClassOf(p.hdr, o), o), Level(rest), nb).lists &&
      (forall x :: x in p.chain && x != o ==> x in q.hdr && q.hdr[x] == p.hdr[x])
  {
    var l := ClassOf(p.hdr, o);
    var i := IndexOf(p.chain, o);
    var t := Take(p, l, o);
    var c := Carve(p, l, o, req);
    var nb := o + HEADER_SIZE + req;
    var rest := p.hdr[o].size - req - HEADER_SIZE;
    assert c == Split(t, i, req);
    assert t.chain == p.chain && t.chain[i] == o && t.hdr[o] == Header(p.hdr[o].size, false);
    assert Remainder(t, i, req) == nb;
    var u, lv := Unlink(p, l, o), Level(rest);
    assert t.lists == u.lists;
    assert c.chain == t.chain[..i + 1] + [nb] + t.chain[i + 1..];
    assert c.hdr == t.hdr[o := Header(req, false)][nb := Header(rest, true)];
    assert c.lists == t.lists[lv := t.lists[lv] + [nb]];
    assert Append(u, lv, nb).lists == u.lists[lv := u.lists[lv] + [nb]];
    CarveKeepsOthers(p, o, req);
  }

  /** The blocks other than the carved one keep their headers. */
  lemma CarveKeepsOthers(p: Pool, o: nat, req: nat)
    requires Linked(p.chain, p.hdr) && |p.lists| == LEVELS && o in p.chain && o in p.hdr
    requires p.hdr[o].size >= req + HEADER_SIZE + ALIGNMENT
    ensures var q := Carve(p, ClassOf(p.hdr, o), o, req);
      forall x :: x in p.chain && x != o ==> x in q.hdr && q.hdr[x] == p.hdr[x]
  {
    var l := ClassOf(p.hdr, o);
    var i := IndexOf(p.chain, o);
    var t := Take(p, l, o);
    RemainderFresh(p, i, req);
    SplitShape(t, i, req);
    var c := Carve(p, l, o, req);
    assert c == Split(t, i, req);
    forall x | x in p.chain && x != o ensures x in c.hdr && c.hdr[x] == p.hdr[x] {
      var k := IndexOf(p.chain, x);
      assert x != Remainder(t, i, req);
    }
  }

  /**
   * Carving a block below that size: it leaves the list of its class and is
   * handed over whole. No other block changes.
   */
  lemma CarveWhole(p: Pool, o: nat, req: nat)
    requires |p.lists| == LEVELS && o in p.chain && o in p.hdr
    requires p.hdr[o].size < req + HEADER_SIZE + ALIGNMENT
    ensures var q := Carve(p, ClassOf(p.hdr, o), o, req);
      q.chain == p.chain && q.hdr == p.hdr[o := Header(p.hdr[o].size, false)] &&
      q.lists == Unlink(p, ClassOf(p.hdr, o), o).lists
  {
  }

  /** The carved block stays in the chain, in use, with at least req bytes. */
  lemma CarveHandsOver(p: Pool, o: nat, req: nat)
    requires Linked(p.chain, p.hdr) && |p.lists| == LEVELS && o in p.chain && o in p.hdr
    requires p.hdr[o].size >= req
    ensures InUse(Carve(p, ClassOf(p.hdr, o), o, req), o, req)
  {
    if p.hdr[o].size >= req + HEADER_SIZE + ALIGNMENT {
      CarveSplits(p, o, req);
      assert Carve(p, ClassOf(p.hdr, o), o, req).chain[IndexOf(p.chain, o)] == o;
    }
  }

  /**
   * malloc(size) for size > 0 on a mapped pool: round the request, search
   * the classes, carve the chosen block and return the address right after
   * its header; NULL (None) when the search finds nothing.
   */
  function Allocate(p: Pool, size: nat): (Pool, Option<nat>)
    requires Valid(p) && 0 < size <= SIZE_MAX - (ALIGNMENT - 1)
  {
    var req := RoundUp(size);
    match Search(p, req)
    case None => (p, None)
    case Some((l, o)) =>
      SearchListed(p, req);
      (Carve(p, l, o, req), Some(o + HEADER_SIZE))
  }

  /** malloc keeps the pool invariant: coverage, alignment, separation and filing. */
  lemma AllocateValid(p: Pool, size: nat)
    requires Valid(p) && 0 < size <= SIZE_MAX - (ALIGNMENT - 1)
    ensures Valid(Allocate(p, size).0)
  {
    var req := RoundUp(size);
    if Search(p, req).Some? {
      var (l, o) := Search(p, req).value;
      SearchBestFit(p, req);
      assert o in p.lists[l] && l == ClassOf(p.hdr, o);
      assert o in p.chain && IsFree(p.hdr, o);
      CarveValid(p, o, req);
    }
  }

  /**
   * Best fit: a successful malloc returns the payload address of a best-fit
   * block for the rounded request. The block is in use afterwards and still
   * holds at least the rounded request.
   */
  lemma AllocateBestFit(p: Pool, size: nat)
    requires Valid(p) && 0 < size <= SIZE_MAX - (ALIGNMENT - 1)
    requires Allocate(p, size).1.Some?
    ensures var (q, ptr) := Allocate(p, size);
      ptr.value >= HEADER_SIZE && BestFitFor(p, ptr.value - HEADER_SIZE, RoundUp(size)) &&
      InUse(q, ptr.value - HEADER_SIZE, RoundUp(size))
  {
    var req := RoundUp(size);
    var (l, o) := Search(p, req).value;
    AllocateFound(p, size);
    SearchBestFit(p, req);
    CarveHandsOver(p, o, req);
  }

  /** Block o is in the chain, in use, and holds at least req bytes. */
  predicate InUse(p: Pool, o: nat, req: nat)
  {
    o in p.chain && o in p.hdr && !p.hdr[o].free && p.hdr[o].size >= req
  }

  /** A successful search makes malloc carve the block it found. */
  lemma AllocateFound(p: Pool, size: nat)
    requires Valid(p) && 0 < size <= SIZE_MAX - (ALIGNMENT - 1)
    requires Search(p, RoundUp(size)).Some?
    ensures var (l, o) := Search(p, RoundUp(size)).value;
      o in p.chain && o in p.hdr &&
      Allocate(p, size).0 == Carve(p, l, o, RoundUp(size)) && Allocate(p, size).1 == Some(o + HEADER_SIZE)
  {
    SearchBestFit(p, RoundUp(size));
  }

  /**
   * malloc returns NULL exactly when no free block of the pool can hold the
   * rounded request, and then the pool is unchanged.
   */
  lemma AllocateExhausted(p: Pool, size: nat)
    requires Valid(p) && 0 < size <= SIZE_MAX - (ALIGNMENT - 1)
    ensures Allocate(p, size).1.None? <==> forall y :: y in p.chain ==> !Fits(p.hdr, y, RoundUp(size))
    ensures Allocate(p, size).1.None? ==> Allocate(p, size).0 == p
  {
    var req := RoundUp(size);
    if Search(p, req).Some? {
      SearchBestFit(p, req);
    } else {
      SearchExhausted(p, req);
    }
  }
}
